/**
 The order the unique listing is sorted by. `String.CASE_INSENSITIVE_ORDER`
 compares strings char by char after folding case, a proper prefix coming
 first; on strings without upper-case letters that is the plain lexicographic
 order `Less`.
 */
module Order {
  import opened Text

  /** Lexicographic order on strings; a proper prefix is smaller. */
  predicate Less(a: string, b: string)
    decreases |a|
  {
    if a == [] then b != []
    else if b == [] then false
    else if a[0] != b[0] then a[0] < b[0]
    else Less(a[1..], b[1..])
  }

  /** `String.CASE_INSENSITIVE_ORDER`, restricted to ASCII case folding. */
  predicate CaseInsensitiveLess(a: string, b: string) {
    Less(ToLower(a), ToLower(b))
  }

  lemma {:induction false} LessIrreflexive(a: string)
    ensures !Less(a, a)
    decreases |a|
  {
    if a != [] {
      LessIrreflexive(a[1..]);
    }
  }

  lemma {:induction false} LessTotal(a: string, b: string)
    ensures a == b || Less(a, b) || Less(b, a)
    decreases |a|
  {
    if a != [] && b != [] && a[0] == b[0] {
      LessTotal(a[1..], b[1..]);
      if a[1..] == b[1..] {
        assert a == [a[0]] + a[1..] && b == [b[0]] + b[1..];
      }
    }
  }

  lemma {:induction false} LessTransitive(a: string, b: string, c: string)
    requires Less(a, b) && Less(b, c)
    ensures Less(a, c)
    decreases |a|
  {
    if a != [] && a[0] == b[0] && b[0] == c[0] {
      LessTransitive(a[1..], b[1..], c[1..]);
    }
  }

  /** On entries (which hold no upper-case letter) the case-insensitive order is `Less`. */
  lemma CaseInsensitiveOnEntries(a: string, b: string)
    requires NoUpper(a) && NoUpper(b)
    ensures CaseInsensitiveLess(a, b) <==> Less(a, b)
  {
    ToLowerNoUpper(a);
    ToLowerNoUpper(b);
  }

  /** Every earlier element is `Less` than every later one: sorted, without repeats. */
  predicate StrictlySorted(s: seq<string>) {
    forall i, j :: 0 <= i < j < |s| ==> Less(s[i], s[j])
  }

  /** `x` put into its place in the sorted `s`. */
  function Insert(s: seq<string>, x: string): (r: seq<string>)
    requires StrictlySorted(s) && x !in s
    ensures StrictlySorted(r)
    ensures |r| == |s| + 1
    ensures forall y :: y in r <==> y in s || y == x
  {
    if s == [] then [x]
    else if Less(x, s[0]) then
      assert forall j :: 0 <= j < |s| ==> Less(x, s[j]) by {
        forall j | 0 <= j < |s| ensures Less(x, s[j]) {
          if j > 0 {
            LessTransitive(x, s[0], s[j]);
          }
        }
      }
      [x] + s
    else
      LessTotal(x, s[0]);
      var rest := Insert(s[1..], x);
      assert forall y :: y in rest ==> Less(s[0], y) by {
        forall y | y in rest ensures Less(s[0], y) {
          if y != x {
            var j :| 0 <= j < |s[1..]| && s[1..][j] == y;
            assert s[j + 1] == y;
          }
        }
      }
      [s[0]] + rest
  }

  /** A strictly sorted sequence holds no element twice. */
  lemma StrictlySortedDistinct(s: seq<string>)
    requires StrictlySorted(s)
    ensures forall i, j :: 0 <= i < j < |s| ==> s[i] != s[j]
  {
    forall i, j | 0 <= i < j < |s| ensures s[i] != s[j] {
      LessIrreflexive(s[i]);
    }
  }
}
