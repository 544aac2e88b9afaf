/**
 The deduplication ledger: the set of distinct entries, the count per entry,
 the history of every processed entry, and the data file every processed
 entry is appended to, with the operations of the engine over them.
 */
module Ledger {
  import opened Text
  import opened Order

  datatype Option<T> = None | Some(value: T)

  /** An entry with its count, as the reports and the most-frequent line show it. */
  datatype Snapshot = Snapshot(entry: string, count: nat)

  /** The figures of the startup summary. */
  datatype Stats = Stats(total: nat, unique: nat, duplicates: nat)

  /** What adding one raw value did: nothing (blank input), or recorded `value`. */
  datatype SingleOutcome =
    | Ignored
    | Recorded(value: string, duplicate: bool, top: Option<Snapshot>)

  /** What adding a comma-separated line did: how many values it recorded. */
  datatype BulkOutcome = BulkOutcome(count: nat, top: Option<Snapshot>)

  function Elements(s: seq<string>): set<string> {
    set x | x in s
  }

  predicate Distinct(s: seq<string>) {
    forall i, j :: 0 <= i < j < |s| ==> s[i] != s[j]
  }

  /**
   `order` is an iteration order of `keys`, as a `HashMap` presents its entry
   set: every key exactly once, in an order the library chooses.
   */
  predicate IsEnumeration(order: seq<string>, keys: set<string>) {
    Distinct(order) && Elements(order) == keys
  }

  /** `getOrDefault(v, 0)`. */
  function CountOf(freq: map<string, nat>, v: string): nat {
    if v in freq then freq[v] else 0
  }

  /** The keys counted more than once. */
  function Repeated(freq: map<string, nat>): set<string> {
    set e | e in freq && freq[e] > 1
  }

  /** The entries that occur more than once in a history. */
  ghost function RepeatedIn(history: seq<string>): set<string> {
    set e | e in history && multiset(history)[e] > 1
  }

  /**
   The ledger invariant: the set holds exactly the keys of the count map, the
   keys are exactly the entries of the history, and each count is the number
   of times its entry occurs in the history.
   */
  ghost predicate Consistent(unique: set<string>, freq: map<string, nat>, history: seq<string>) {
    && unique == freq.Keys
    && freq.Keys == Elements(history)
    && forall e :: e in freq ==> freq[e] == multiset(history)[e]
  }

  lemma CountsPositive(unique: set<string>, freq: map<string, nat>, history: seq<string>)
    requires Consistent(unique, freq, history)
    ensures forall e :: e in freq ==> freq[e] >= 1
  {
    forall e | e in freq ensures freq[e] >= 1 {
      assert e in history;
    }
  }

  /** Recording one more occurrence of `v` keeps the three containers consistent. */
  lemma ConsistentAfterProcess(unique: set<string>, freq: map<string, nat>, history: seq<string>, v: string)
    requires Consistent(unique, freq, history)
    ensures Consistent(unique + {v}, freq[v := CountOf(freq, v) + 1], history + [v])
  {
    assert multiset(history + [v]) == multiset(history) + multiset{v};
    assert Elements(history + [v]) == Elements(history) + {v};
  }

  /**
   After a run of appends to the history, each count is the count before plus
   the occurrences among the appended values.
   */
  lemma CountsAfterAppend(freq0: map<string, nat>, history0: seq<string>,
                          freq: map<string, nat>, added: seq<string>)
    requires Consistent(freq0.Keys, freq0, history0)
    requires Consistent(freq.Keys, freq, history0 + added)
    ensures freq.Keys == freq0.Keys + Elements(added)
    ensures forall e :: e in freq ==> freq[e] == CountOf(freq0, e) + multiset(added)[e]
  {
    assert multiset(history0 + added) == multiset(history0) + multiset(added);
    assert Elements(history0 + added) == Elements(history0) + Elements(added);
    forall e | e in freq ensures freq[e] == CountOf(freq0, e) + multiset(added)[e] {
      if e !in freq0 {
        assert e !in history0;
      }
    }
  }

  /**
   The contract of the most-frequent scan over `order`: nothing for an empty
   map; otherwise a key whose count no other count exceeds, and the first such
   key in `order`, because a later key replaces it only with a strictly
   greater count.
   */
  ghost predicate ScanResult(order: seq<string>, freq: map<string, nat>, top: Option<Snapshot>) {
    if freq == map[] then top == None
    else
      && top.Some?
      && top.value.entry in freq
      && top.value.count == freq[top.value.entry]
      && (forall e :: e in freq ==> freq[e] <= top.value.count)
      && (forall j, k :: 0 <= k < j < |order| && order[j] == top.value.entry && order[k] in freq ==>
            freq[order[k]] < top.value.count)
  }

  /** For a given iteration order the scan has only one possible outcome. */
  lemma ScanDeterministic(order: seq<string>, freq: map<string, nat>, t1: Option<Snapshot>, t2: Option<Snapshot>)
    requires IsEnumeration(order, freq.Keys)
    requires ScanResult(order, freq, t1) && ScanResult(order, freq, t2)
    ensures t1 == t2
  {
    if freq != map[] {
      var a, b := t1.value, t2.value;
      assert a.count == b.count;
      assert a.entry in Elements(order) && b.entry in Elements(order);
      var i :| 0 <= i < |order| && order[i] == a.entry;
      var j :| 0 <= j < |order| && order[j] == b.entry;
      assert !(i < j) && !(j < i);
    }
  }

  /** The sum, over the entries of `order`, of their multiplicities in `m`. */
  function SumOver(order: seq<string>, m: multiset<string>): nat {
    if order == [] then 0 else SumOver(order[..|order| - 1], m) + m[order[|order| - 1]]
  }

  /** The sum of the counts of a report. */
  function TotalCount(report: seq<Snapshot>): nat {
    if report == [] then 0 else TotalCount(report[..|report| - 1]) + report[|report| - 1].count
  }

  lemma {:induction false} SumOverEmpty(order: seq<string>)
    ensures SumOver(order, multiset{}) == 0
    decreases |order|
  {
    if order != [] {
      SumOverEmpty(order[..|order| - 1]);
    }
  }

  lemma {:induction false} SumOverAddOne(order: seq<string>, m: multiset<string>, v: string)
    requires Distinct(order)
    ensures SumOver(order, m + multiset{v}) == SumOver(order, m) + (if v in order then 1 else 0)
    decreases |order|
  {
    if order != [] {
      var n := |order| - 1;
      var front := order[..n];
      SumOverAddOne(front, m, v);
      assert order == front + [order[n]];
      assert v in order <==> v in front || v == order[n];
      if v == order[n] {
        assert v !in front;
      }
    }
  }

  /**
   Summing the multiplicities of a history over an enumeration of its entries
   gives the length of the history.
   */
  lemma {:induction false} EnumerationSum(order: seq<string>, history: seq<string>)
    requires Distinct(order) && Elements(history) <= Elements(order)
    ensures SumOver(order, multiset(history)) == |history|
    decreases |history|
  {
    if history == [] {
      SumOverEmpty(order);
    } else {
      var n := |history| - 1;
      var front := history[..n];
      assert history == front + [history[n]];
      assert multiset(history) == multiset(front) + multiset{history[n]};
      assert Elements(front) <= Elements(history);
      EnumerationSum(order, front);
      assert history[n] in Elements(order);
      SumOverAddOne(order, multiset(front), history[n]);
    }
  }

  /**
   Every distinct entry occurs at least once and every repeated one at least
   twice, so distinct plus repeated entries never exceed the history's length.
   */
  lemma {:induction false} HistoryBound(history: seq<string>)
    ensures |Elements(history)| + |RepeatedIn(history)| <= |history|
    decreases |history|
  {
    if history != [] {
      var n := |history| - 1;
      var front, v := history[..n], history[n];
      HistoryBound(front);
      assert history == front + [v];
      assert multiset(history) == multiset(front) + multiset{v};
      assert Elements(history) == Elements(front) + {v};
      if v !in front {
        assert RepeatedIn(history) == RepeatedIn(front);
      } else if multiset(front)[v] == 1 {
        assert RepeatedIn(history) == RepeatedIn(front) + {v};
      } else {
        assert RepeatedIn(history) == RepeatedIn(front);
      }
    }
  }

  /** The report of repeated entries over `order`: each one counted more than once, with its count. */
  function DuplicateLines(order: seq<string>, freq: map<string, nat>): seq<Snapshot> {
    if order == [] then []
    else
      var e := order[|order| - 1];
      DuplicateLines(order[..|order| - 1], freq)
        + (if CountOf(freq, e) > 1 then [Snapshot(e, CountOf(freq, e))] else [])
  }

  /** The entries of `order` counted more than once. */
  function RepeatedAmong(order: seq<string>, freq: map<string, nat>): set<string> {
    set e | e in order && CountOf(freq, e) > 1
  }

  lemma {:induction false} DuplicateLinesMembers(order: seq<string>, freq: map<string, nat>)
    ensures forall s :: s in DuplicateLines(order, freq) <==>
              s.entry in order && s.count == CountOf(freq, s.entry) && s.count > 1
    decreases |order|
  {
    if order != [] {
      var n := |order| - 1;
      DuplicateLinesMembers(order[..n], freq);
      assert order == order[..n] + [order[n]];
    }
  }

  /** Over an order without repeats the report has one line per repeated entry. */
  lemma {:induction false} DuplicateLinesCount(order: seq<string>, freq: map<string, nat>)
    requires Distinct(order)
    ensures |DuplicateLines(order, freq)| == |RepeatedAmong(order, freq)|
    decreases |order|
  {
    if order != [] {
      var n := |order| - 1;
      var front, e := order[..n], order[n];
      DuplicateLinesCount(front, freq);
      assert order == front + [e];
      assert e !in front;
      if CountOf(freq, e) > 1 {
        assert RepeatedAmong(order, freq) == RepeatedAmong(front, freq) + {e};
      } else {
        assert RepeatedAmong(order, freq) == RepeatedAmong(front, freq);
      }
    }
  }

  /**
   The engine's state. The Java class keeps the containers in static fields;
   here one object owns them, together with the lines of the data file.
   */
  class Engine {
    var uniqueSet: set<string>
    var frequencyMap: map<string, nat>
    var inputHistory: seq<string>
    /** The lines of the data file, in the order they were written. */
    var store: seq<string>

    ghost predicate Valid()
      reads this`uniqueSet, this`frequencyMap, this`inputHistory
    {
      && Consistent(uniqueSet, frequencyMap, inputHistory)
      && forall e :: e in inputHistory ==> IsEntry(e)
    }

    /** An engine with empty containers over a data file holding `file` (empty when it is missing). */
    constructor (file: seq<string>)
      ensures Valid()
      ensures uniqueSet == {} && frequencyMap == map[] && inputHistory == [] && store == file
    {
      uniqueSet := {};
      frequencyMap := map[];
      inputHistory := [];
      store := file;
    }

    /** Appends one line to the data file. */
    method SaveToFile(value: string)
      modifies this`store
      ensures store == old(store) + [value]
    {
      store := store + [value];
    }

    /** The in-memory half of `processEntry`: one more occurrence of an entry in the three containers. */
    method Remember(value: string)
      requires Valid() && IsEntry(value)
      modifies this`uniqueSet, this`frequencyMap, this`inputHistory
      ensures Valid()
      ensures inputHistory == old(inputHistory) + [value]
      ensures uniqueSet == old(uniqueSet) + {value}
      ensures frequencyMap == old(frequencyMap)[value := CountOf(old(frequencyMap), value) + 1]
    {
      ConsistentAfterProcess(uniqueSet, frequencyMap, inputHistory, value);
      inputHistory := inputHistory + [value];
      uniqueSet := uniqueSet + {value};
      frequencyMap := frequencyMap[value := CountOf(frequencyMap, value) + 1];
    }

    /** Records one occurrence of an entry in all three containers and in the file. */
    method ProcessEntry(value: string)
      requires Valid() && IsEntry(value)
      modifies this
      ensures Valid()
      ensures inputHistory == old(inputHistory) + [value]
      ensures uniqueSet == old(uniqueSet) + {value}
      ensures frequencyMap == old(frequencyMap)[value := CountOf(old(frequencyMap), value) + 1]
      ensures store == old(store) + [value]
    {
      Remember(value);
      SaveToFile(value);
    }

    /**
     The body of the bulk and load loops: records the normal form of `raw`
     unless it is empty, appending it to the file when `persist` holds.
     */
    method Admit(raw: string, persist: bool) returns (recorded: bool)
      requires Valid()
      modifies this
      ensures Valid()
      ensures recorded == (Normalize(raw) != [])
      ensures |AdmittedOne(raw)| == if recorded then 1 else 0
      ensures inputHistory == old(inputHistory) + AdmittedOne(raw)
      ensures persist ==> store == old(store) + AdmittedOne(raw)
      ensures !persist ==> store == old(store)
    {
      var value := Normalize(raw);
      recorded := value != [];
      if recorded {
        if persist {
          ProcessEntry(value);
        } else {
          Remember(value);
        }
      }
    }

    /**
     The scan for the most frequent entry, visiting the keys in the map's
     iteration order `order`.
     */
    method MostFrequent(order: seq<string>) returns (top: Option<Snapshot>)
      requires Valid()
      requires IsEnumeration(order, frequencyMap.Keys)
      ensures ScanResult(order, frequencyMap, top)
    {
      var freq := frequencyMap;
      if freq == map[] {
        return None;
      }
      CountsPositive(uniqueSet, freq, inputHistory);
      assert forall k :: 0 <= k < |order| ==> order[k] in Elements(order);
      var maxKey: Option<string> := None;
      var maxCount: nat := 0;
      ghost var at: nat := 0;
      for i := 0 to |order|
        invariant forall k :: 0 <= k < |order| ==> order[k] in freq && freq[order[k]] >= 1
        invariant maxKey.None? <==> i == 0
        invariant maxKey.None? ==> maxCount == 0
        invariant maxKey.Some? ==> at < i && order[at] == maxKey.value && maxKey.value in freq && freq[maxKey.value] == maxCount
        invariant maxKey.Some? ==> forall k :: 0 <= k < at ==> freq[order[k]] < maxCount
        invariant forall k :: 0 <= k < i ==> freq[order[k]] <= maxCount
      {
        var key := order[i];
        if freq[key] > maxCount {
          maxKey := Some(key);
          maxCount := freq[key];
          at := i;
        }
      }
      var e :| e in freq;
      assert e in Elements(order);
      forall e | e in freq ensures freq[e] <= maxCount {
        assert e in Elements(order);
      }
      top := Some(Snapshot(maxKey.value, maxCount));
    }

    /**
     Adds one raw value: ignored when it normalizes to nothing; otherwise
     reports whether the entry was already known, records it, and scans for
     the most frequent entry over `order`, the map's iteration order after the
     update.
     */
    method AddSingleEntry(raw: string, order: seq<string>) returns (outcome: SingleOutcome)
      requires Valid()
      requires IsEnumeration(order, frequencyMap.Keys + (if Normalize(raw) == [] then {} else {Normalize(raw)}))
      modifies this
      ensures Valid()
      ensures outcome.Ignored? <==> Normalize(raw) == []
      ensures outcome.Ignored? ==> unchanged(this)
      ensures outcome.Recorded? ==>
        && outcome.value == Normalize(raw)
        && outcome.duplicate == (outcome.value in old(frequencyMap))
        && inputHistory == old(inputHistory) + [outcome.value]
        && uniqueSet == old(uniqueSet) + {outcome.value}
        && frequencyMap == old(frequencyMap)[outcome.value := CountOf(old(frequencyMap), outcome.value) + 1]
        && store == old(store) + [outcome.value]
        && ScanResult(order, frequencyMap, outcome.top)
    {
      var value := Normalize(raw);
      if value == [] {
        return Ignored;
      }
      outcome := Record(value, order);
    }

    /** The non-blank branch of `AddSingleEntry`, for the normalized `value`. */
    method Record(value: string, order: seq<string>) returns (outcome: SingleOutcome)
      requires Valid() && IsEntry(value)
      requires IsEnumeration(order, frequencyMap.Keys + {value})
      modifies this
      ensures Valid()
      ensures outcome.Recorded? && outcome.value == value
      ensures outcome.duplicate == (value in old(frequencyMap))
      ensures inputHistory == old(inputHistory) + [value]
      ensures uniqueSet == old(uniqueSet) + {value}
      ensures frequencyMap == old(frequencyMap)[value := CountOf(old(frequencyMap), value) + 1]
      ensures store == old(store) + [value]
      ensures ScanResult(order, frequencyMap, outcome.top)
    {
      var isDuplicate := value in frequencyMap;
      ProcessEntry(value);
      var top := MostFrequent(order);
      outcome := Recorded(value, isDuplicate, top);
    }

    /**
     The loop shared by the bulk add and the load: records the normal form of
     each piece, in order, skipping those that are empty; the bulk add
     (`persist`) also appends each one to the file.
     */
    method AdmitAll(pieces: seq<string>, persist: bool) returns (count: nat)
      requires Valid()
      modifies this
      ensures Valid()
      ensures count == |Admitted(pieces)|
      ensures inputHistory == old(inputHistory) + Admitted(pieces)
      ensures persist ==> store == old(store) + Admitted(pieces)
      ensures !persist ==> store == old(store)
      ensures uniqueSet == old(uniqueSet) + Elements(Admitted(pieces))
      ensures frequencyMap.Keys == old(frequencyMap).Keys + Elements(Admitted(pieces))
      ensures forall e :: e in frequencyMap ==>
                frequencyMap[e] == CountOf(old(frequencyMap), e) + multiset(Admitted(pieces))[e]
    {
      count := 0;
      for i := 0 to |pieces|
        invariant Valid()
        invariant count == |Admitted(pieces[..i])|
        invariant inputHistory == old(inputHistory) + Admitted(pieces[..i])
        invariant persist ==> store == old(store) + Admitted(pieces[..i])
        invariant !persist ==> store == old(store)
      {
        AdmittedStepAfter(old(inputHistory), pieces, i);
        AdmittedStepAfter(old(store), pieces, i);
        var recorded := Admit(pieces[i], persist);
        if recorded {
          count := count + 1;
        }
      }
      assert pieces[..|pieces|] == pieces;
      CountsAfterAppend(old(frequencyMap), old(inputHistory), frequencyMap, Admitted(pieces));
    }

    /**
     Adds every piece of a comma-separated line: each piece that normalizes to
     something is recorded, in order, and counted; then the most frequent
     entry is scanned for over `order`, the map's iteration order after the
     update.
     */
    method AddBulkEntries(input: string, order: seq<string>) returns (outcome: BulkOutcome)
      requires Valid()
      requires IsEnumeration(order, frequencyMap.Keys + Elements(Admitted(JavaSplit(input))))
      modifies this
      ensures Valid()
      ensures outcome.count == |Admitted(JavaSplit(input))|
      ensures inputHistory == old(inputHistory) + Admitted(JavaSplit(input))
      ensures store == old(store) + Admitted(JavaSplit(input))
      ensures uniqueSet == old(uniqueSet) + Elements(Admitted(JavaSplit(input)))
      ensures forall e :: e in frequencyMap ==>
                frequencyMap[e] == CountOf(old(frequencyMap), e) + multiset(Admitted(JavaSplit(input)))[e]
      ensures ScanResult(order, frequencyMap, outcome.top)
    {
      var values := JavaSplit(input);
      var count := AdmitAll(values, true);
      var top := MostFrequent(order);
      outcome := BulkOutcome(count, top);
    }

    /**
     The distinct entries sorted by `String.CASE_INSENSITIVE_ORDER`: each
     entry once, each before every greater one. Empty when nothing is recorded.
     */
    method UniqueEntries() returns (sorted: seq<string>)
      requires Valid()
      ensures forall i, j :: 0 <= i < j < |sorted| ==> CaseInsensitiveLess(sorted[i], sorted[j])
      ensures forall e :: e in sorted <==> e in uniqueSet
      ensures |sorted| == |uniqueSet|
    {
      sorted := [];
      var rest := uniqueSet;
      while rest != {}
        invariant rest <= uniqueSet
        invariant StrictlySorted(sorted)
        invariant forall e :: e in sorted <==> e in uniqueSet - rest
        invariant |sorted| + |rest| == |uniqueSet|
        decreases |rest|
      {
        var x :| x in rest;
        sorted := Insert(sorted, x);
        rest := rest - {x};
      }
      forall i, j | 0 <= i < j < |sorted| ensures CaseInsensitiveLess(sorted[i], sorted[j]) {
        assert sorted[i] in sorted && sorted[j] in sorted;
        assert sorted[i] in Elements(inputHistory) && sorted[j] in Elements(inputHistory);
        CaseInsensitiveOnEntries(sorted[i], sorted[j]);
      }
    }

    /**
     The entries counted more than once, each with its count, in iteration
     order `order`; as many as the summary's duplicate figure.
     */
    method DuplicateEntries(order: seq<string>) returns (report: seq<Snapshot>)
      requires Valid()
      requires IsEnumeration(order, frequencyMap.Keys)
      ensures report == DuplicateLines(order, frequencyMap)
      ensures forall s :: s in report <==> s.entry in frequencyMap && s.count == frequencyMap[s.entry] && s.count > 1
      ensures |report| == Summary().duplicates
    {
      var freq := frequencyMap;
      report := [];
      for i := 0 to |order|
        invariant report == DuplicateLines(order[..i], freq)
      {
        var key := order[i];
        assert order[..i + 1][..i] == order[..i];
        if CountOf(freq, key) > 1 {
          report := report + [Snapshot(key, CountOf(freq, key))];
        }
      }
      assert order[..|order|] == order;
      DuplicateLinesMembers(order, freq);
      DuplicateLinesCount(order, freq);
      assert RepeatedAmong(order, freq) == Repeated(freq);
    }

    /** Every entry with its count, in iteration order `order`; the counts add up to the history's length. */
    method FrequencyReport(order: seq<string>) returns (report: seq<Snapshot>)
      requires Valid()
      requires IsEnumeration(order, frequencyMap.Keys)
      ensures |report| == |order|
      ensures forall i :: 0 <= i < |report| ==> report[i] == Snapshot(order[i], frequencyMap[order[i]])
      ensures TotalCount(report) == |inputHistory|
    {
      report := [];
      for i := 0 to |order|
        invariant |report| == i
        invariant forall k :: 0 <= k < i ==> report[k] == Snapshot(order[k], frequencyMap[order[k]])
        invariant TotalCount(report) == SumOver(order[..i], multiset(inputHistory))
      {
        var key := order[i];
        assert order[..i + 1][..i] == order[..i];
        var line := Snapshot(key, frequencyMap[key]);
        assert (report + [line])[..i] == report;
        report := report + [line];
      }
      assert order[..|order|] == order;
      EnumerationSum(order, inputHistory);
    }

    /** The startup summary: total, distinct and repeated entries. */
    function Summary(): (s: Stats)
      reads this`uniqueSet, this`frequencyMap, this`inputHistory
      requires Valid()
      ensures s.total == |inputHistory|
      ensures s.unique == |Elements(inputHistory)|
      ensures s.duplicates == |RepeatedIn(inputHistory)|
      ensures s.unique + s.duplicates <= s.total
    {
      HistoryBound(inputHistory);
      assert Repeated(frequencyMap) == RepeatedIn(inputHistory);
      Stats(|inputHistory|, |uniqueSet|, |Repeated(frequencyMap)|)
    }

    /** Empties the three containers; the data file is left as it is. */
    method ClearAllData()
      modifies this
      ensures Valid()
      ensures uniqueSet == {} && frequencyMap == map[] && inputHistory == []
      ensures store == old(store)
      ensures Summary() == Stats(0, 0, 0)
    {
      uniqueSet := {};
      frequencyMap := map[];
      inputHistory := [];
      assert RepeatedIn([]) == {};
    }

    /**
     Replays the lines of the data file into the three containers, skipping
     those that normalize to nothing, and leaves the file as it is.
     */
    method LoadDataFromFile()
      requires Valid()
      modifies this
      ensures Valid()
      ensures inputHistory == old(inputHistory) + Admitted(store)
      ensures store == old(store)
      ensures uniqueSet == old(uniqueSet) + Elements(Admitted(store))
      ensures forall e :: e in frequencyMap ==>
                frequencyMap[e] == CountOf(old(frequencyMap), e) + multiset(Admitted(store))[e]
    {
      var lines := store;
      var _ := AdmitAll(lines, false);
    }
  }

  /**
   Startup: an engine over the data file, the file's lines replayed into it,
   and the summary shown. A file whose every line is an entry, as every file
   the engine writes is, replays as exactly the history that wrote it.
   */
  method Startup(file: seq<string>) returns (engine: Engine, summary: Stats)
    ensures fresh(engine) && engine.Valid()
    ensures engine.store == file
    ensures engine.inputHistory == Admitted(file)
    ensures (forall l :: l in file ==> IsEntry(l)) ==> engine.inputHistory == file
    ensures summary == engine.Summary()
  {
    engine := new Engine(file);
    engine.LoadDataFromFile();
    if forall l :: l in file ==> IsEntry(l) {
      AdmittedEntries(file);
    }
    summary := engine.Summary();
  }

}
