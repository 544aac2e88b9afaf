/**
 The string handling the ledger relies on: Java's `String.trim` and (ASCII)
 `String.toLowerCase`, their composition `normalize`, and `String.split(",")`.
 */
module Text {

  /** `String.trim` removes every char whose code is at or below U+0020. */
  predicate IsBlank(c: char) { c <= ' ' }

  predicate IsUpper(c: char) { 'A' <= c <= 'Z' }

  predicate AllBlank(s: string) { forall i :: 0 <= i < |s| ==> IsBlank(s[i]) }

  predicate NoUpper(s: string) { forall i :: 0 <= i < |s| ==> !IsUpper(s[i]) }

  /** Neither the first nor the last char is blank. */
  predicate NoEdgeBlank(s: string) { s == [] || (!IsBlank(s[0]) && !IsBlank(s[|s| - 1])) }

  /** Java's `Character.toLowerCase` restricted to ASCII: 'A'..'Z' move down to 'a'..'z'. */
  function LowerChar(c: char): (d: char)
    ensures !IsUpper(d)
    ensures IsUpper(c) ==> d as int - c as int == 'a' as int - 'A' as int
    ensures IsBlank(d) <==> IsBlank(c)
    ensures !IsUpper(c) ==> d == c
  {
    if IsUpper(c) then (c as int + 32) as char else c
  }

  function ToLower(s: string): (r: string)
    ensures |r| == |s| && NoUpper(r)
    ensures forall i {:trigger r[i]} :: 0 <= i < |s| ==> r[i] == LowerChar(s[i])
  {
    seq(|s|, i requires 0 <= i < |s| => LowerChar(s[i]))
  }

  /** Drops the leading blanks: what the first loop of `String.trim` skips. */
  function TrimLeft(s: string): (r: string)
    ensures |r| <= |s|
    ensures forall k :: 0 <= k < |s| - |r| ==> IsBlank(s[k])
    ensures r == [] || !IsBlank(r[0])
    decreases |s|
  {
    if |s| > 0 && IsBlank(s[0]) then TrimLeft(s[1..]) else s
  }

  /** Drops the trailing blanks: what the second loop of `String.trim` cuts off. */
  function TrimRight(s: string): (r: string)
    ensures |r| <= |s|
    ensures forall k :: |r| <= k < |s| ==> IsBlank(s[k])
    ensures r == [] || !IsBlank(r[|r| - 1])
    decreases |s|
  {
    if |s| > 0 && IsBlank(s[|s| - 1]) then TrimRight(s[..|s| - 1]) else s
  }

  /** What `TrimLeft` keeps is a suffix of its argument. */
  lemma {:induction false} TrimLeftIsSuffix(s: string)
    ensures TrimLeft(s) == s[|s| - |TrimLeft(s)|..]
    decreases |s|
  {
    if |s| > 0 && IsBlank(s[0]) {
      TrimLeftIsSuffix(s[1..]);
    }
  }

  /** What `TrimRight` keeps is a prefix of its argument. */
  lemma {:induction false} TrimRightIsPrefix(s: string)
    ensures TrimRight(s) == s[..|TrimRight(s)|]
    decreases |s|
  {
    if |s| > 0 && IsBlank(s[|s| - 1]) {
      TrimRightIsPrefix(s[..|s| - 1]);
    }
  }

  /** `String.trim`: no blank left at either end; empty exactly when every char is blank. */
  function Trim(s: string): (r: string)
    ensures NoEdgeBlank(r) && |r| <= |s|
    ensures r == [] <==> AllBlank(s)
  {
    var l := TrimLeft(s);
    var r := TrimRight(l);
    assert r == [] ==> l == [];
    TrimLeftIsSuffix(s);
    TrimRightIsPrefix(l);
    r
  }

  /** `String.trim` returns the middle slice of its argument, with only blanks cut off on either side. */
  lemma TrimIsSlice(s: string)
    ensures exists i, j :: 0 <= i <= j <= |s| && Trim(s) == s[i..j] && AllBlank(s[..i]) && AllBlank(s[j..])
  {
    var l := TrimLeft(s);
    TrimLeftIsSuffix(s);
    TrimRightIsPrefix(l);
    var i := |s| - |l|;
    var j := i + |Trim(s)|;
    assert l == s[i..];
    assert Trim(s) == s[i..j];
    assert forall k :: j <= k < |s| ==> s[k] == l[k - i];
    assert AllBlank(s[..i]) && AllBlank(s[j..]);
  }

  /** `normalize`: trim, then lowercase. */
  function Normalize(raw: string): (v: string)
    ensures NoEdgeBlank(v) && NoUpper(v) && |v| <= |raw|
  {
    ToLower(Trim(raw))
  }

  /** A value the ledger records: non-empty, no blank at either end, no upper-case letter. */
  predicate IsEntry(v: string) { v != [] && NoEdgeBlank(v) && NoUpper(v) }

  /** `normalize` gives the empty string exactly for input made of blanks only. */
  lemma NormalizeBlank(raw: string)
    ensures Normalize(raw) == [] <==> AllBlank(raw)
  {
  }

  lemma TrimNoEdgeBlank(s: string)
    requires NoEdgeBlank(s)
    ensures Trim(s) == s
  {
    assert TrimLeft(s) == s;
    assert TrimRight(s) == s;
  }

  lemma ToLowerNoUpper(s: string)
    requires NoUpper(s)
    ensures ToLower(s) == s
  {
  }

  /** A normalized value is its own normal form. */
  lemma {:induction false} NormalizeIdempotent(raw: string)
    ensures Normalize(Normalize(raw)) == Normalize(raw)
  {
    var v := Normalize(raw);
    TrimNoEdgeBlank(v);
    ToLowerNoUpper(v);
  }

  /** The entries are exactly the non-empty values that `normalize` leaves alone. */
  lemma EntryIsNormalForm(v: string)
    ensures IsEntry(v) <==> v != [] && Normalize(v) == v
  {
    if IsEntry(v) {
      TrimNoEdgeBlank(v);
      ToLowerNoUpper(v);
    }
  }

  lemma ToLowerTail(a: string)
    requires |a| > 0
    ensures ToLower(a[1..]) == ToLower(a)[1..]
    ensures ToLower(a[..|a| - 1]) == ToLower(a)[..|a| - 1]
  {
  }

  lemma {:induction false} TrimLeftIgnoresCase(a: string, b: string)
    requires ToLower(a) == ToLower(b)
    ensures ToLower(TrimLeft(a)) == ToLower(TrimLeft(b))
    decreases |a|
  {
    if |a| > 0 {
      assert LowerChar(a[0]) == ToLower(a)[0] == ToLower(b)[0] == LowerChar(b[0]);
      if IsBlank(a[0]) {
        ToLowerTail(a);
        ToLowerTail(b);
        TrimLeftIgnoresCase(a[1..], b[1..]);
      }
    }
  }

  lemma {:induction false} TrimRightIgnoresCase(a: string, b: string)
    requires ToLower(a) == ToLower(b)
    ensures ToLower(TrimRight(a)) == ToLower(TrimRight(b))
    decreases |a|
  {
    if |a| > 0 {
      var n := |a| - 1;
      assert LowerChar(a[n]) == ToLower(a)[n] == ToLower(b)[n] == LowerChar(b[n]);
      if IsBlank(a[n]) {
        ToLowerTail(a);
        ToLowerTail(b);
        TrimRightIgnoresCase(a[..n], b[..n]);
      }
    }
  }

  /** Raw inputs that differ only in letter case normalize to the same entry. */
  lemma NormalizeIgnoresCase(a: string, b: string)
    requires ToLower(a) == ToLower(b)
    ensures Normalize(a) == Normalize(b)
  {
    TrimLeftIgnoresCase(a, b);
    TrimRightIgnoresCase(TrimLeft(a), TrimLeft(b));
    var ta, tb := Trim(a), Trim(b);
    assert ToLower(ta) == ToLower(tb);
  }

  lemma {:induction false} TrimLeftBlankPrefix(p: string, s: string)
    requires AllBlank(p)
    ensures TrimLeft(p + s) == TrimLeft(s)
    decreases |p|
  {
    if |p| > 0 {
      assert (p + s)[1..] == p[1..] + s;
      TrimLeftBlankPrefix(p[1..], s);
    } else {
      assert p + s == s;
    }
  }

  lemma {:induction false} TrimRightBlankSuffix(s: string, q: string)
    requires AllBlank(q)
    ensures TrimRight(s + q) == TrimRight(s)
    decreases |q|
  {
    if |q| > 0 {
      assert (s + q)[..|s + q| - 1] == s + q[..|q| - 1];
      TrimRightBlankSuffix(s, q[..|q| - 1]);
    } else {
      assert s + q == s;
    }
  }

  lemma {:induction false} TrimLeftAppend(s: string, q: string)
    requires !AllBlank(s)
    ensures TrimLeft(s + q) == TrimLeft(s) + q
    decreases |s|
  {
    assert |s| > 0;
    if IsBlank(s[0]) {
      assert (s + q)[1..] == s[1..] + q;
      TrimLeftAppend(s[1..], q);
    }
  }

  lemma TrimIgnoresPadding(p: string, s: string, q: string)
    requires AllBlank(p) && AllBlank(q)
    ensures TrimRight(TrimLeft(p + s + q)) == TrimRight(TrimLeft(s))
  {
    assert p + s + q == p + (s + q);
    TrimLeftBlankPrefix(p, s + q);
    if AllBlank(s) {
      assert AllBlank(s + q);
      assert s + q + [] == s + q && s + [] == s;
      TrimLeftBlankPrefix(s + q, []);
      TrimLeftBlankPrefix(s, []);
    } else {
      TrimLeftAppend(s, q);
      TrimRightBlankSuffix(TrimLeft(s), q);
    }
  }

  /** Blank padding around a raw input does not change its normal form. */
  lemma NormalizeIgnoresPadding(p: string, s: string, q: string)
    requires AllBlank(p) && AllBlank(q)
    ensures Normalize(p + s + q) == Normalize(s)
  {
    TrimIgnoresPadding(p, s, q);
  }

  // ---------------------------------------------------------------------------
  // Splitting on commas

  /** Every piece between commas, empty ones included (`"a,,b,"` gives four pieces). */
  function Split(s: string): (pieces: seq<string>)
    ensures |pieces| >= 1
    ensures forall p :: p in pieces ==> ',' !in p
    decreases |s|
  {
    if s == [] then [""]
    else
      var rest := Split(s[1..]);
      if s[0] == ',' then [""] + rest
      else [[s[0]] + rest[0]] + rest[1..]
  }

  /** The pieces glued back together with a comma between neighbours. */
  function Join(pieces: seq<string>): string
    requires |pieces| >= 1
  {
    if |pieces| == 1 then pieces[0] else pieces[0] + [','] + Join(pieces[1..])
  }

  lemma {:induction false} JoinSplit(s: string)
    ensures Join(Split(s)) == s
    decreases |s|
  {
    if s != [] {
      var rest := Split(s[1..]);
      JoinSplit(s[1..]);
      if s[0] == ',' {
        assert ([""] + rest)[1..] == rest;
      } else {
        var pieces := [[s[0]] + rest[0]] + rest[1..];
        if |rest| == 1 {
          assert Join(pieces) == [s[0]] + rest[0];
        } else {
          assert pieces[1..] == rest[1..];
          assert Join(rest) == rest[0] + [','] + Join(rest[1..]);
          assert Join(pieces) == [s[0]] + rest[0] + [','] + Join(rest[1..]);
        }
        assert s == [s[0]] + s[1..];
      }
    }
  }

  lemma {:induction false} SplitNoComma(p: string)
    requires ',' !in p
    ensures Split(p) == [p]
    decreases |p|
  {
    if p != [] {
      SplitNoComma(p[1..]);
      assert [p[0]] + p[1..] == p;
    }
  }

  lemma {:induction false} SplitAfterPiece(p: string, t: string)
    requires ',' !in p
    ensures Split(p + [','] + t) == [p] + Split(t)
    decreases |p|
  {
    if p == [] {
      assert p + [','] + t == [','] + t;
      assert ([','] + t)[1..] == t;
    } else {
      assert (p + [','] + t)[1..] == p[1..] + [','] + t;
      SplitAfterPiece(p[1..], t);
      assert [p[0]] + p[1..] == p;
    }
  }

  /** Splitting a join of comma-free pieces gives the pieces back. */
  lemma {:induction false} SplitJoin(pieces: seq<string>)
    requires |pieces| >= 1
    requires forall p :: p in pieces ==> ',' !in p
    ensures Split(Join(pieces)) == pieces
    decreases |pieces|
  {
    if |pieces| == 1 {
      SplitNoComma(pieces[0]);
    } else {
      SplitAfterPiece(pieces[0], Join(pieces[1..]));
      SplitJoin(pieces[1..]);
      assert [pieces[0]] + pieces[1..] == pieces;
    }
  }

  function DropTrailingEmpty(pieces: seq<string>): (r: seq<string>)
    ensures r <= pieces
    ensures r == [] || r[|r| - 1] != ""
    ensures forall k :: |r| <= k < |pieces| ==> pieces[k] == ""
  {
    if pieces != [] && pieces[|pieces| - 1] == "" then DropTrailingEmpty(pieces[..|pieces| - 1])
    else pieces
  }

  /**
   `String.split(",")`: the whole string when there is no comma, otherwise the
   pieces with the trailing empty ones removed (so `",,"` gives no piece at all).
   */
  function JavaSplit(s: string): (pieces: seq<string>)
    ensures ',' !in s ==> pieces == [s]
    ensures ',' in s ==> pieces <= Split(s)
    ensures ',' in s ==> pieces == [] || pieces[|pieces| - 1] != ""
    ensures ',' in s ==> forall k :: |pieces| <= k < |Split(s)| ==> Split(s)[k] == ""
  {
    if ',' !in s then [s] else DropTrailingEmpty(Split(s))
  }

  // ---------------------------------------------------------------------------
  // The pieces or lines that reach `processEntry`

  /** The normal form of one piece when it is not empty; nothing otherwise. */
  function AdmittedOne(raw: string): (vs: seq<string>)
    ensures |vs| <= 1
    ensures forall v :: v in vs ==> IsEntry(v)
  {
    if Normalize(raw) == [] then [] else [Normalize(raw)]
  }

  /**
   The normal forms of the given pieces, in order, with the empty ones left
   out: what the bulk loop and the load loop hand to `processEntry`.
   */
  function Admitted(pieces: seq<string>): (vs: seq<string>)
    ensures |vs| <= |pieces|
    ensures forall v :: v in vs ==> IsEntry(v)
  {
    if pieces == [] then []
    else Admitted(pieces[..|pieces| - 1]) + AdmittedOne(pieces[|pieces| - 1])
  }

  /** The normal form of every piece, in order, the empty ones included. */
  function Normals(pieces: seq<string>): (ns: seq<string>)
    ensures |ns| == |pieces|
  {
    if pieces == [] then []
    else Normals(pieces[..|pieces| - 1]) + [Normalize(pieces[|pieces| - 1])]
  }

  /** `Normals` holds, at each position, the normal form of the piece there. */
  lemma {:induction false} NormalsAt(pieces: seq<string>, i: nat)
    requires i < |pieces|
    ensures Normals(pieces)[i] == Normalize(pieces[i])
    decreases |pieces|
  {
    var n := |pieces| - 1;
    if i < n {
      NormalsAt(pieces[..n], i);
    }
  }

  /** A value is admitted exactly when some piece normalizes to it and it is not empty. */
  lemma {:induction false} AdmittedMembers(pieces: seq<string>, v: string)
    ensures v in Admitted(pieces) <==> v != [] && v in Normals(pieces)
    decreases |pieces|
  {
    if pieces != [] {
      var n := |pieces| - 1;
      AdmittedMembers(pieces[..n], v);
    }
  }

  /** Lines that are already entries are admitted unchanged: a file of entries replays as itself. */
  lemma {:induction false} AdmittedEntries(lines: seq<string>)
    requires forall l :: l in lines ==> IsEntry(l)
    ensures Admitted(lines) == lines
    decreases |lines|
  {
    if lines != [] {
      var n := |lines| - 1;
      var front, last := lines[..n], lines[n];
      assert lines == front + [last];
      assert last in lines;
      EntryIsNormalForm(last);
      assert AdmittedOne(last) == [last];
      AdmittedEntries(front);
    }
  }

  lemma AdmittedStep(pieces: seq<string>, i: nat)
    requires i < |pieces|
    ensures Admitted(pieces[..i + 1]) == Admitted(pieces[..i]) + AdmittedOne(pieces[i])
  {
    assert pieces[..i + 1][..i] == pieces[..i];
  }

  /** The same step seen from a history or file that already held `before`: it grows by the next piece's contribution. */
  lemma AdmittedStepAfter(before: seq<string>, pieces: seq<string>, i: nat)
    requires i < |pieces|
    ensures before + Admitted(pieces[..i + 1]) == before + Admitted(pieces[..i]) + AdmittedOne(pieces[i])
  {
    AdmittedStep(pieces, i);
  }

  /** Trailing empty pieces never reach `processEntry`. */
  lemma {:induction false} AdmittedDropTrailingEmpty(pieces: seq<string>)
    ensures Admitted(DropTrailingEmpty(pieces)) == Admitted(pieces)
    decreases |pieces|
  {
    if pieces != [] && pieces[|pieces| - 1] == "" {
      AdmittedDropTrailingEmpty(pieces[..|pieces| - 1]);
      assert Normalize("") == "";
    }
  }

  /** `String.split(",")` admits the same values as a plain split on every comma. */
  lemma JavaSplitAdmitted(s: string)
    ensures Admitted(JavaSplit(s)) == Admitted(Split(s))
  {
    if ',' !in s {
      SplitNoComma(s);
    } else {
      AdmittedDropTrailingEmpty(Split(s));
    }
  }
}
