/** Rewriting of nightly syntax to stable syntax in place, by replacements of equal length. */
module Rewrite {
  predicate Occurs(s: string, p: string, i: nat) {
    i + |p| <= |s| && s[i..i + |p|] == p
  }

  /** Left-to-right replacement of occurrences that do not overlap. */
  function Replace(s: string, from: string, to: string): (r: string)
    requires |from| == |to|
    ensures |r| == |s|
    decreases |s|
  {
    if from == [] || |s| < |from| then s
    else if Occurs(s, from, 0) then to + Replace(s[|from|..], from, to)
    else [s[0]] + Replace(s[1..], from, to)
  }

  /** Position `i` is one of the replaced occurrences. */
  predicate MatchAt(s: string, from: string, i: nat)
    requires from != []
    decreases |s|
  {
    && i + |from| <= |s|
    && (if Occurs(s, from, 0) then i == 0 || (i >= |from| && MatchAt(s[|from|..], from, i - |from|))
        else i > 0 && MatchAt(s[1..], from, i - 1))
  }

  lemma OccursShift(s: string, p: string, d: nat, i: nat)
    requires d <= i && d <= |s|
    ensures Occurs(s[d..], p, i - d) <==> Occurs(s, p, i)
  {
    if i + |p| <= |s| {
      assert s[d..][i - d..i - d + |p|] == s[i..i + |p|];
    }
  }

  /** No replaced occurrence that starts before `i` reaches it. */
  ghost predicate Clear(s: string, from: string, i: nat)
    requires from != []
  {
    forall k: nat | k < i < k + |from| :: !MatchAt(s, from, k)
  }

  /** How far the scan moves on from the front of `s`. */
  function Stride(s: string, from: string): nat {
    if Occurs(s, from, 0) then |from| else 1
  }

  lemma ClearShift(s: string, from: string, i: nat)
    requires from != [] && Stride(s, from) <= i && i + |from| <= |s|
    ensures Clear(s, from, i) <==> Clear(s[Stride(s, from)..], from, i - Stride(s, from))
  {
    var d := Stride(s, from);
    if Clear(s, from, i) {
      forall k: nat | k < i - d < k + |from| ensures !MatchAt(s[d..], from, k) {
        assert !MatchAt(s, from, k + d);
      }
    }
    if Clear(s[d..], from, i - d) {
      forall k: nat | k < i < k + |from| ensures !MatchAt(s, from, k) {
        if k >= d { assert !MatchAt(s[d..], from, k - d); }
      }
    }
  }

  /** The replaced occurrences are exactly the leftmost ones that do not overlap. */
  lemma {:induction false} LeftmostNonOverlapping(s: string, from: string, i: nat)
    requires from != []
    ensures MatchAt(s, from, i) <==> Occurs(s, from, i) && Clear(s, from, i)
    decreases |s|
  {
    var d := Stride(s, from);
    if i + |from| <= |s| {
      if i >= d {
        LeftmostNonOverlapping(s[d..], from, i - d);
        OccursShift(s, from, d, i);
        ClearShift(s, from, i);
      } else if i > 0 {
        assert MatchAt(s, from, 0);
      }
    }
  }

  /** Each character comes from the replacement that covers it, or is unchanged. */
  lemma {:induction false} ReplacedAt(s: string, from: string, to: string, k: nat, j: nat)
    requires |from| == |to| > 0 && MatchAt(s, from, k) && j < |from|
    ensures Replace(s, from, to)[k + j] == to[j]
    decreases |s|
  {
    if Occurs(s, from, 0) {
      if k > 0 { ReplacedAt(s[|from|..], from, to, k - |from|, j); }
    } else {
      ReplacedAt(s[1..], from, to, k - 1, j);
    }
  }

  ghost predicate Covered(s: string, from: string, j: nat)
    requires from != []
  {
    exists k: nat :: k <= j < k + |from| && MatchAt(s, from, k)
  }

  lemma {:induction false} UnchangedAt(s: string, from: string, to: string, j: nat)
    requires |from| == |to| > 0 && j < |s| && !Covered(s, from, j)
    ensures Replace(s, from, to)[j] == s[j]
    decreases |s|
  {
    if |s| >= |from| {
      var d := Stride(s, from);
      assert Occurs(s, from, 0) ==> MatchAt(s, from, 0);
      if j >= d {
        forall k: nat | k <= j - d < k + |from| ensures !MatchAt(s[d..], from, k) {
          assert MatchAt(s[d..], from, k) ==> MatchAt(s, from, k + d);
        }
        UnchangedAt(s[d..], from, to, j - d);
      }
    }
  }

  // ---------- occurrences in the result ----------

  /** A replaced occurrence overlaps the window that starts at `i`. */
  ghost predicate Touched(s: string, from: string, i: nat)
    requires from != []
  {
    exists k: nat :: k < i + |from| && i < k + |from| && MatchAt(s, from, k)
  }

  lemma MatchInResult(s: string, from: string, to: string, k: nat)
    requires |from| == |to| > 0 && MatchAt(s, from, k)
    ensures Occurs(Replace(s, from, to), to, k)
  {
    LeftmostNonOverlapping(s, from, k);
    forall j: nat | j < |to| ensures Replace(s, from, to)[k + j] == to[j] {
      ReplacedAt(s, from, to, k, j);
    }
  }

  lemma UntouchedInResult(s: string, from: string, to: string, i: nat)
    requires |from| == |to| > 0 && !Touched(s, from, i) && i + |from| <= |s|
    ensures Replace(s, from, to)[i..i + |from|] == s[i..i + |from|]
  {
    forall j | i <= j < i + |from| ensures Replace(s, from, to)[j] == s[j] {
      UnchangedAt(s, from, to, j);
    }
  }

  lemma {:induction false} NothingToReplace(s: string, from: string, to: string)
    requires |from| == |to| && forall i: nat :: !Occurs(s, from, i)
    ensures Replace(s, from, to) == s
    decreases |s|
  {
    if from != [] && |s| >= |from| {
      forall i: nat ensures !Occurs(s[1..], from, i) { OccursShift(s, from, 1, i + 1); }
      NothingToReplace(s[1..], from, to);
    }
  }

  // ---------- in place ----------

  /** Leftmost occurrence at or after `pos`, or the length of the text. */
  method Find(a: array<char>, pos: nat, from: string) returns (found: nat)
    requires from != [] && pos <= a.Length
    ensures pos <= found <= a.Length
    ensures found < a.Length ==> Occurs(a[..], from, found)
    ensures forall i: nat | pos <= i < found :: !Occurs(a[..], from, i)
    ensures found == a.Length ==> forall i: nat | pos <= i :: !Occurs(a[..], from, i)
  {
    found := pos;
    while found + |from| <= a.Length
      invariant pos <= found <= a.Length
      invariant forall i: nat | pos <= i < found :: !Occurs(a[..], from, i)
    {
      assert a[..][found..found + |from|] == a[found..found + |from|];
      if a[found..found + |from|] == from { return; }
      found := found + 1;
    }
    found := a.Length;
  }

  lemma ReplaceSkipsOne(s: string, from: string, to: string)
    requires |from| == |to| > 0 && s != [] && !Occurs(s, from, 0)
    ensures Replace(s, from, to) == [s[0]] + Replace(s[1..], from, to)
  {
    if |s| < |from| { assert s == [s[0]] + s[1..]; }
  }

  lemma Regroup(a: string, b: string, c: string, d: string)
    ensures a + (b + (c + d)) == a + b + c + d
  {
  }

  lemma PrefixAndNext(s: string, d: nat, r: string)
    requires 0 < d <= |s|
    ensures s[..d - 1] + ([s[d - 1]] + r) == s[..d] + r
  {
  }

  /** Skipping text without occurrences copies it. */
  lemma {:induction false} ReplaceSkips(s: string, from: string, to: string, d: nat)
    requires |from| == |to| > 0 && d <= |s| && forall i: nat | i < d :: !Occurs(s, from, i)
    ensures Replace(s, from, to) == s[..d] + Replace(s[d..], from, to)
    decreases d
  {
    if d == 0 {
      assert s[0..] == s;
    } else {
      ReplaceSkips(s, from, to, d - 1);
      var tail := s[d - 1..];
      OccursShift(s, from, d - 1, d - 1);
      ReplaceSkipsOne(tail, from, to);
      assert tail[1..] == s[d..];
      PrefixAndNext(s, d, Replace(s[d..], from, to));
    }
  }

  method CopyFromSlice(a: array<char>, start: nat, to: string)
    requires start + |to| <= a.Length
    modifies a
    ensures a[..] == old(a[..start]) + to + old(a[start + |to|..])
  {
    for j := 0 to |to|
      invariant a[..start + j] == old(a[..start]) + to[..j] && a[start + j..] == old(a[start + j..])
    {
      a[start + j] := to[j];
      assert a[start + j + 1..] == old(a[start + j..])[1..];
    }
    assert a[..] == a[..start + |to|] + a[start + |to|..];
  }

  lemma ReplaceHere(s: string, from: string, to: string, found: nat)
    requires |from| == |to| > 0 && Occurs(s, from, found)
    ensures Replace(s[found..], from, to) == to + Replace(s[found + |to|..], from, to)
  {
    OccursShift(s, from, found, found);
    assert s[found..][|to|..] == s[found + |to|..];
  }

  lemma ReplaceGap(s: string, from: string, to: string, pos: nat, found: nat)
    requires |from| == |to| > 0 && pos <= found <= |s| && forall i: nat | pos <= i < found :: !Occurs(s, from, i)
    ensures Replace(s[pos..], from, to) == s[pos..found] + Replace(s[found..], from, to)
  {
    var rest := s[pos..];
    forall i: nat | i < found - pos ensures !Occurs(rest, from, i) { OccursShift(s, from, pos, pos + i); }
    ReplaceSkips(rest, from, to, found - pos);
    assert rest[found - pos..] == s[found..];
    assert rest[..found - pos] == s[pos..found];
  }

  /** Text `t` is the result up to `pos` and still the input from there on. */
  ghost predicate DoneTo(s: string, from: string, to: string, t: string, pos: nat)
    requires |from| == |to| > 0
  {
    && pos <= |s| == |t| && t[pos..] == s[pos..]
    && t[..pos] + Replace(s[pos..], from, to) == Replace(s, from, to)
  }

  lemma SameOccurrences(s: string, t: string, from: string, pos: nat)
    requires pos <= |s| == |t| && t[pos..] == s[pos..]
    ensures forall i: nat | pos <= i :: Occurs(t, from, i) <==> Occurs(s, from, i)
  {
    forall i: nat | pos <= i ensures Occurs(t, from, i) <==> Occurs(s, from, i) {
      OccursShift(t, from, pos, i);
      OccursShift(s, from, pos, i);
    }
  }

  lemma DoneToEnd(s: string, from: string, to: string, t: string, pos: nat)
    requires |from| == |to| > 0 && DoneTo(s, from, to, t, pos) && forall i: nat | pos <= i :: !Occurs(t, from, i)
    ensures t == Replace(s, from, to)
  {
    SameOccurrences(s, t, from, pos);
    ReplaceGap(s, from, to, pos, |s|);
    assert s[pos..|s|] + Replace(s[|s|..], from, to) == t[pos..];
    assert t == t[..pos] + t[pos..];
  }

  lemma Splice(s: string, t: string, to: string, pos: nat, found: nat)
    requires pos <= found && found + |to| <= |s| == |t| && t[pos..] == s[pos..]
    ensures var t' := t[..found] + to + t[found + |to|..];
            t'[..found + |to|] == t[..pos] + s[pos..found] + to && t'[found + |to|..] == s[found + |to|..]
  {
    forall i | pos <= i < |s| ensures t[i] == s[i] { assert t[pos..][i - pos] == s[pos..][i - pos]; }
    assert t[..found] == t[..pos] + s[pos..found];
  }

  lemma DoneToNext(s: string, from: string, to: string, t: string, pos: nat, found: nat)
    requires |from| == |to| > 0 && DoneTo(s, from, to, t, pos) && pos <= found && Occurs(t, from, found)
    requires forall i: nat | pos <= i < found :: !Occurs(t, from, i)
    ensures DoneTo(s, from, to, t[..found] + to + t[found + |to|..], found + |to|)
  {
    SameOccurrences(s, t, from, pos);
    Splice(s, t, to, pos, found);
    var rest := Replace(s[found + |to|..], from, to);
    calc {
      Replace(s, from, to);
      t[..pos] + Replace(s[pos..], from, to);
      { ReplaceGap(s, from, to, pos, found); }
      t[..pos] + (s[pos..found] + Replace(s[found..], from, to));
      { ReplaceHere(s, from, to, found); }
      t[..pos] + (s[pos..found] + (to + rest));
      { Regroup(t[..pos], s[pos..found], to, rest); }
      t[..pos] + s[pos..found] + to + rest;
    }
  }

  method ReplaceInplace(a: array<char>, from: string, to: string)
    requires |from| == |to|
    modifies a
    ensures a[..] == Replace(old(a[..]), from, to)
  {
    if from == [] { return; }
    var pos := 0;
    assert a[0..] == a[..];
    while true
      invariant DoneTo(old(a[..]), from, to, a[..], pos)
      decreases a.Length - pos
    {
      var found := Find(a, pos, from);
      if found == a.Length {
        DoneToEnd(old(a[..]), from, to, a[..], pos);
        return;
      }
      DoneToNext(old(a[..]), from, to, a[..], pos, found);
      assert a[..][..found] == a[..found] && a[..][found + |to|..] == a[found + |to|..];
      CopyFromSlice(a, found, to);
      pos := found + |to|;
    }
  }
}
