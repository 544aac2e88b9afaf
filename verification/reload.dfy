/**
 The load loop of the data file as the code is written: a `BufferedReader`
 reads the file line by line while `processEntry`, called for each line,
 appends to that same file through a second handle. The reader therefore
 meets the lines the loop itself appended once it reaches the end of what it
 started from.
 */
module Reload {
  import opened Text

  /**
   The reader's view: the file as it stands, the index of the next line
   `readLine` returns, and the entries processed so far.
   */
  datatype Reader = Reader(file: seq<string>, next: nat, history: seq<string>)

  /** `readLine` returns `null`: nothing is left to read. */
  predicate AtEnd(r: Reader) {
    r.next >= |r.file|
  }

  /**
   One turn of the loop: read the next line, normalize it and, when it is
   not empty, process it, which appends it to the history and to the file.
   */
  function Step(r: Reader): (s: Reader)
    requires !AtEnd(r)
    ensures s.next == r.next + 1
    ensures Normalize(r.file[r.next]) != [] ==>
              s.file == r.file + [Normalize(r.file[r.next])] && s.history == r.history + [Normalize(r.file[r.next])]
    ensures Normalize(r.file[r.next]) == [] ==> s.file == r.file && s.history == r.history
  {
    var added := AdmittedOne(r.file[r.next]);
    Reader(r.file + added, r.next + 1, r.history + added)
  }

  /** The loop run for at most `k` turns, stopping early when the reader is at the end. */
  function Run(r: Reader, k: nat): (s: Reader)
    ensures |r.history| <= |s.history| && |s.file| - |r.file| == |s.history| - |r.history|
    ensures r.next <= s.next <= r.next + k
    ensures s.next < r.next + k ==> AtEnd(s)
    decreases k
  {
    if k == 0 || AtEnd(r) then r else Run(Step(r), k - 1)
  }

  /** Every line the reader has not reached yet is an entry, as every line `saveToFile` writes is. */
  predicate UnreadAreEntries(r: Reader) {
    forall i :: r.next <= i < |r.file| ==> IsEntry(r.file[i])
  }

  /** A turn over a file of entries reads one line and appends one: the unread part keeps its length. */
  lemma StepKeepsDistance(r: Reader)
    requires !AtEnd(r) && UnreadAreEntries(r)
    ensures !AtEnd(Step(r)) && UnreadAreEntries(Step(r))
    ensures |Step(r).file| - Step(r).next == |r.file| - r.next
    ensures |Step(r).history| == |r.history| + 1
  {
    var line := r.file[r.next];
    EntryIsNormalForm(line);
  }

  /** The line at `i` has not been read yet and normalizes to something: it will be processed. */
  predicate Pending(r: Reader, i: nat) {
    r.next <= i < |r.file| && Normalize(r.file[i]) != []
  }

  /** Some line the reader has not reached yet normalizes to something. */
  predicate HasUnreadEntry(r: Reader) {
    exists i: nat :: i < |r.file| && Pending(r, i)
  }

  /**
   A turn keeps an unread line that normalizes to something, now at `j`:
   either the line it reads is such a line, and its normal form is appended
   past the reader, or the line at `i` is further on and still ahead.
   */
  lemma StepKeepsUnreadEntry(r: Reader, i: nat) returns (j: nat)
    requires Pending(r, i)
    ensures !AtEnd(r) && Pending(Step(r), j)
  {
    if i == r.next {
      NormalizeIdempotent(r.file[i]);
      j := |r.file|;
    } else {
      j := i;
    }
  }

  /** The induction behind `AsWrittenNeverReachesEnd`, following the line at `i` that is still to be processed. */
  lemma {:induction false} NeverReachesEndFrom(r: Reader, i: nat, k: nat)
    requires Pending(r, i)
    ensures !AtEnd(Run(r, k))
    ensures Run(r, k).next == r.next + k
    decreases k
  {
    if k > 0 {
      var j := StepKeepsUnreadEntry(r, i);
      NeverReachesEndFrom(Step(r), j, k - 1);
    }
  }

  /**
   As written, the load never reaches the end of a file that holds an unread
   line with a non-blank normal form (`" A"` as much as `"a"`): after any
   number of turns the reader has taken exactly `k` turns and is still not at
   the end.
   */
  lemma AsWrittenNeverReachesEnd(r: Reader, k: nat)
    requires HasUnreadEntry(r)
    ensures !AtEnd(Run(r, k))
    ensures Run(r, k).next == r.next + k
  {
    var i: nat :| Pending(r, i);
    NeverReachesEndFrom(r, i, k);
  }

  /**
   When every unread line is already an entry, as every line `saveToFile`
   writes is, the number of unread lines never shrinks and every turn
   processes one more entry.
   */
  lemma {:induction false} AsWrittenKeepsDistance(r: Reader, k: nat)
    requires !AtEnd(r) && UnreadAreEntries(r)
    ensures !AtEnd(Run(r, k))
    ensures |Run(r, k).file| - Run(r, k).next == |r.file| - r.next
    ensures |Run(r, k).history| == |r.history| + k
    decreases k
  {
    if k > 0 {
      var s := Step(r);
      StepKeepsDistance(r);
      AsWrittenKeepsDistance(s, k - 1);
      assert Run(r, k) == Run(s, k - 1);
    }
  }

  /** A data file holding the single line "a": two turns in, it holds "a" three times and "a" has been counted twice. */
  lemma AsWrittenOneLine()
    ensures Run(Reader(["a"], 0, []), 2) == Reader(["a", "a", "a"], 2, ["a", "a"])
  {
    var a := "a";
    assert IsEntry(a);
    EntryIsNormalForm(a);
    var r1 := Step(Reader([a], 0, []));
    assert r1 == Reader([a, a], 1, [a]);
    var r2 := Step(r1);
    assert r2 == Reader([a, a, a], 2, [a, a]);
  }
}
