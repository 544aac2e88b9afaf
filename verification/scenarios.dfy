/** Worked runs of the engine on small inputs, derived from the operations' contracts. */
module Scenarios {
  import opened Text
  import opened Ledger

  /** `"cat"`, `"CAT"` and `" Cat "` all normalize to the entry `"cat"`. */
  lemma CaseAndPaddingCollapse()
    ensures Normalize("cat") == "cat"
    ensures Normalize("CAT") == "cat"
    ensures Normalize(" Cat ") == "cat"
  {
    assert IsEntry("cat");
    EntryIsNormalForm("cat");
    assert ToLower("CAT") == "cat";
    NormalizeIgnoresCase("CAT", "cat");
    assert " Cat " == " " + "Cat" + " ";
    NormalizeIgnoresPadding(" ", "Cat", " ");
    assert ToLower("Cat") == "cat";
    NormalizeIgnoresCase("Cat", "cat");
  }

  /** Over a map with one key the scan reports that key with its count. */
  lemma ScanOneKey(freq: map<string, nat>, k: string, top: Option<Snapshot>)
    requires freq.Keys == {k}
    requires ScanResult([k], freq, top)
    ensures top == Some(Snapshot(k, freq[k]))
  {
    assert k in freq;
  }

  /**
   Adding `"cat"` and then `"CAT"` to an empty engine: the first is new, the
   second a duplicate, and `"cat"` is then the most frequent entry, counted twice.
   */
  method CatTwice() returns (first: SingleOutcome, second: SingleOutcome)
    ensures first == Recorded("cat", false, Some(Snapshot("cat", 1)))
    ensures second == Recorded("cat", true, Some(Snapshot("cat", 2)))
  {
    var engine := new Engine([]);
    CaseAndPaddingCollapse();
    assert Elements(["cat"]) == {"cat"};
    first := engine.AddSingleEntry("cat", ["cat"]);
    assert engine.frequencyMap.Keys == {"cat"} && engine.frequencyMap["cat"] == 1;
    ScanOneKey(engine.frequencyMap, "cat", first.top);
    second := engine.AddSingleEntry("CAT", ["cat"]);
    assert engine.frequencyMap.Keys == {"cat"} && engine.frequencyMap["cat"] == 2;
    ScanOneKey(engine.frequencyMap, "cat", second.top);
  }
}
