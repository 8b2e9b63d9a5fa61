/** When replacing a pattern can be undone by replacing it back. */
module RewriteInverse {
  import opened Rewrite

  /** No proper non-empty end of `a` is a start of `b`. */
  predicate NoOverlap(a: string, b: string) {
    forall m | 0 < m < |a| && m < |b| :: a[|a| - m..] != b[..m]
  }

  predicate Borderless(p: string) {
    NoOverlap(p, p)
  }

  /** At most the first character is repeated as the last. */
  predicate NearlyBorderless(p: string) {
    forall m | 1 < m < |p| :: p[|p| - m..] != p[..m]
  }

  /** Two occurrences that overlap share an end and a start. */
  lemma SharedEnds(t: string, a: string, b: string, i: nat, k: nat)
    requires |a| == |b| && Occurs(t, a, i) && Occurs(t, b, k) && i < k < i + |a|
    ensures var m := i + |a| - k; a[|a| - m..] == b[..m]
  {
    var m := i + |a| - k;
    assert t[k..i + |a|] == t[i..i + |a|][k - i..] == a[|a| - m..];
    assert t[k..i + |a|] == t[k..k + |b|][..m] == b[..m];
  }

  // ---------- what spoils the inverse ----------

  /** An occurrence of the target that the replacement does not touch. */
  ghost predicate LeftBehind(s: string, from: string, to: string, i: nat)
    requires |from| == |to| > 0
  {
    Occurs(s, to, i) && !Touched(s, from, i)
  }

  /** All but the last character of the target in untouched text, completed by a replacement that starts
      with the same character as the target ends. */
  ghost predicate RunsInto(s: string, from: string, to: string, i: nat)
    requires |from| == |to| > 0
  {
    var n := |to|;
    && n > 1 && to[0] == to[n - 1] && MatchAt(s, from, i + n - 1)
    && i + n - 1 <= |s| && s[i..i + n - 1] == to[..n - 1]
    && forall j: nat | i <= j < i + n - 1 :: !Covered(s, from, j)
  }

  ghost predicate Spoils(s: string, from: string, to: string, i: nat)
    requires |from| == |to| > 0
  {
    LeftBehind(s, from, to, i) || RunsInto(s, from, to, i)
  }

  ghost predicate Undoable(s: string, from: string, to: string)
    requires |from| == |to| > 0
  {
    forall i: nat :: !Spoils(s, from, to, i)
  }

  /** Every occurrence of the target in the input is hit by the replacement. */
  ghost predicate Restorable(s: string, from: string, to: string)
    requires |from| == |to| > 0
  {
    forall i: nat | Occurs(s, to, i) :: Touched(s, from, i)
  }

  lemma UncoveredKept(s: string, from: string, to: string, i: nat, k: nat)
    requires |from| == |to| > 0 && i <= k <= |s| && forall j: nat | i <= j < k :: !Covered(s, from, j)
    ensures Replace(s, from, to)[i..k] == s[i..k]
  {
    forall j: nat | i <= j < k ensures Replace(s, from, to)[j] == s[j] { UnchangedAt(s, from, to, j); }
  }

  lemma RunOccurs(s: string, from: string, to: string, i: nat)
    requires |from| == |to| > 0 && RunsInto(s, from, to, i)
    ensures Occurs(Replace(s, from, to), to, i)
  {
    var t, n := Replace(s, from, to), |to|;
    UncoveredKept(s, from, to, i, i + n - 1);
    MatchInResult(s, from, to, i + n - 1);
    assert t[i + n - 1] == t[i + n - 1..i + n - 1 + n][0] == to[n - 1];
    assert t[i..i + n] == t[i..i + n - 1] + [t[i + n - 1]];
    assert to == to[..n - 1] + [to[n - 1]];
  }

  /** A spoiling position is an occurrence of the target in the result. */
  lemma SpoilOccurs(s: string, from: string, to: string, i: nat)
    requires |from| == |to| > 0 && Spoils(s, from, to, i)
    ensures Occurs(Replace(s, from, to), to, i)
  {
    if LeftBehind(s, from, to, i) {
      UntouchedInResult(s, from, to, i);
    } else {
      RunOccurs(s, from, to, i);
    }
  }

  /** An occurrence in the result meets a replaced one in at most one character. */
  lemma MeetsAtTheEnds(s: string, from: string, to: string, i: nat, k: nat)
    requires |from| == |to| > 0 && NearlyBorderless(to) && Occurs(Replace(s, from, to), to, i)
    requires MatchAt(s, from, k) && k < i + |to| && i < k + |to| && i != k
    ensures |to| > 1 && to[0] == to[|to| - 1] && (k == i + |to| - 1 || i == k + |to| - 1)
  {
    var t, n := Replace(s, from, to), |to|;
    MatchInResult(s, from, to, k);
    if i < k {
      SharedEnds(t, to, to, i, k);
    } else {
      SharedEnds(t, to, to, k, i);
    }
    var m := if i < k then i + n - k else k + n - i;
    assert to[n - m..] == to[..m];
    assert m == 1 ==> to[n - 1..][0] == to[n - 1] && to[..1][0] == to[0];
  }

  /** Nothing earlier reaches an occurrence that no replaced one starts, so it runs into one. */
  lemma MustRun(s: string, from: string, to: string, i: nat, k: nat)
    requires |from| == |to| > 0 && NearlyBorderless(to) && Occurs(Replace(s, from, to), to, i)
    requires MatchAt(s, from, k) && k == i + |to| - 1 && |to| > 1 && !MatchAt(s, from, i)
    requires forall l: nat | l < i < l + |to| :: !MatchAt(s, from, l)
    ensures RunsInto(s, from, to, i)
  {
    var t, n := Replace(s, from, to), |to|;
    MeetsAtTheEnds(s, from, to, i, k);
    forall j: nat | i <= j < k ensures !Covered(s, from, j) {
      forall l: nat | l <= j < l + n ensures !MatchAt(s, from, l) {
        if l > i && MatchAt(s, from, l) { MeetsAtTheEnds(s, from, to, i, l); }
      }
    }
    UncoveredKept(s, from, to, i, k);
    assert t[i..k] == t[i..i + n][..n - 1] == to[..n - 1];
  }

  /** Below the first spoiling position the result has the target exactly where it was put. */
  lemma {:induction false} SameMatches(s: string, from: string, to: string, i: nat)
    requires |from| == |to| > 0 && NearlyBorderless(to) && forall j: nat | j <= i :: !Spoils(s, from, to, j)
    ensures MatchAt(Replace(s, from, to), to, i) <==> MatchAt(s, from, i)
    decreases i
  {
    var t := Replace(s, from, to);
    assert !Spoils(s, from, to, i);
    forall k: nat | k < i ensures MatchAt(t, to, k) <==> MatchAt(s, from, k) { SameMatches(s, from, to, k); }
    LeftmostNonOverlapping(t, to, i);
    LeftmostNonOverlapping(s, from, i);
    if MatchAt(s, from, i) {
      MatchInResult(s, from, to, i);
    } else if MatchAt(t, to, i) {
      if Touched(s, from, i) {
        var k: nat :| k < i + |from| && i < k + |from| && MatchAt(s, from, k);
        MeetsAtTheEnds(s, from, to, i, k);
        if k > i { MustRun(s, from, to, i, k); }
      } else {
        UntouchedInResult(s, from, to, i);
      }
    }
  }

  lemma RestoredMatch(s: string, from: string, to: string, k: nat, j: nat)
    requires |from| == |to| > 0 && NearlyBorderless(to) && Undoable(s, from, to)
    requires MatchAt(s, from, k) && k <= j < k + |from|
    ensures j < |s| && Replace(Replace(s, from, to), to, from)[j] == s[j]
  {
    SameMatches(s, from, to, k);
    ReplacedAt(Replace(s, from, to), to, from, k, j - k);
    LeftmostNonOverlapping(s, from, k);
    assert s[k..k + |from|][j - k] == s[j];
  }

  lemma RestoredGap(s: string, from: string, to: string, j: nat)
    requires |from| == |to| > 0 && NearlyBorderless(to) && Undoable(s, from, to) && j < |s| && !Covered(s, from, j)
    ensures Replace(Replace(s, from, to), to, from)[j] == s[j]
  {
    var t := Replace(s, from, to);
    forall k: nat | k <= j < k + |to| ensures !MatchAt(t, to, k) {
      SameMatches(s, from, to, k);
    }
    UnchangedAt(t, to, from, j);
    UnchangedAt(s, from, to, j);
  }

  lemma {:induction false} FirstSpoil(s: string, from: string, to: string, i: nat) returns (f: nat)
    requires |from| == |to| > 0 && Spoils(s, from, to, i)
    ensures Spoils(s, from, to, f) && forall j: nat | j < f :: !Spoils(s, from, to, j)
    decreases i
  {
    if j: nat :| j < i && Spoils(s, from, to, j) {
      f := FirstSpoil(s, from, to, j);
    } else {
      f := i;
    }
  }

  /** The first spoiling position is replaced back although nothing was replaced there. */
  lemma FirstSpoilMatches(s: string, from: string, to: string, i: nat)
    requires |from| == |to| > 0 && NearlyBorderless(to)
    requires Spoils(s, from, to, i) && forall j: nat | j < i :: !Spoils(s, from, to, j)
    ensures MatchAt(Replace(s, from, to), to, i)
  {
    var t := Replace(s, from, to);
    SpoilOccurs(s, from, to, i);
    LeftmostNonOverlapping(t, to, i);
    forall k: nat | k < i < k + |to| ensures !MatchAt(t, to, k) {
      SameMatches(s, from, to, k);
      if RunsInto(s, from, to, i) { assert !Covered(s, from, i); }
    }
  }

  lemma WindowsDiffer(r: string, s: string, from: string, to: string, i: nat, m: nat)
    requires |from| == |to| && m <= |to| && from[..m] != to[..m]
    requires Occurs(r, from, i) && i + m <= |s| && s[i..i + m] == to[..m]
    ensures r != s
  {
    assert r[i..i + m] == r[i..i + |from|][..m] == from[..m];
  }

  lemma NotRestored(s: string, from: string, to: string, i: nat)
    requires |from| == |to| > 0 && NearlyBorderless(to) && from != to
    requires Borderless(to) || from[..|to| - 1] != to[..|to| - 1]
    requires Spoils(s, from, to, i)
    ensures Replace(Replace(s, from, to), to, from) != s
  {
    var n := |to|;
    var f := FirstSpoil(s, from, to, i);
    FirstSpoilMatches(s, from, to, f);
    MatchInResult(Replace(s, from, to), to, from, f);
    var m := if LeftBehind(s, from, to, f) then n else n - 1;
    assert from[..n] == from && to[..n] == to;
    assert RunsInto(s, from, to, f) ==> to[n - 1..] == to[..1];
    WindowsDiffer(Replace(Replace(s, from, to), to, from), s, from, to, f, m);
  }

  /** For a target that repeats at most its first character as its last, replacing back restores the
      input exactly when no occurrence of the target was left behind and none is completed by a
      replacement: both can be read off the input. */
  lemma ReplacingBackRestores(s: string, from: string, to: string)
    requires |from| == |to| > 0 && from != to && NearlyBorderless(to)
    requires Borderless(to) || from[..|to| - 1] != to[..|to| - 1]
    ensures Replace(Replace(s, from, to), to, from) == s <==> Undoable(s, from, to)
  {
    if Undoable(s, from, to) {
      forall j: nat | j < |s| ensures Replace(Replace(s, from, to), to, from)[j] == s[j] {
        if Covered(s, from, j) {
          var k: nat :| k <= j < k + |from| && MatchAt(s, from, k);
          RestoredMatch(s, from, to, k, j);
        } else {
          RestoredGap(s, from, to, j);
        }
      }
    } else {
      var i: nat :| Spoils(s, from, to, i);
      NotRestored(s, from, to, i);
    }
  }

  /** Without a border only occurrences that are left behind matter. */
  lemma BorderlessRestores(s: string, from: string, to: string)
    requires |from| == |to| > 0 && from != to && Borderless(to)
    ensures Replace(Replace(s, from, to), to, from) == s <==> Restorable(s, from, to)
  {
    ReplacingBackRestores(s, from, to);
    assert |to| > 1 ==> to[|to| - 1..] != to[..1];
    forall i: nat ensures !RunsInto(s, from, to, i) {
      assert |to| > 1 ==> to[|to| - 1..] == [to[|to| - 1]] && to[..1] == [to[0]];
    }
    if Restorable(s, from, to) {
      forall i: nat ensures !Spoils(s, from, to, i) {
      }
    }
    if Undoable(s, from, to) {
      forall i: nat | Occurs(s, to, i) ensures Touched(s, from, i) { assert !Spoils(s, from, to, i); }
    }
  }

  /** A source pattern that cannot be pieced together from the target is gone. */
  lemma ReplacementEliminates(s: string, from: string, to: string, i: nat)
    requires |from| == |to| > 0 && from != to && NoOverlap(from, to) && NoOverlap(to, from)
    ensures !Occurs(Replace(s, from, to), from, i)
  {
    var t := Replace(s, from, to);
    if Occurs(t, from, i) {
      if Touched(s, from, i) {
        var k: nat :| k < i + |from| && i < k + |from| && MatchAt(s, from, k);
        MatchInResult(s, from, to, k);
        if i < k { SharedEnds(t, from, to, i, k); }
        if k < i { SharedEnds(t, to, from, k, i); }
      } else {
        UntouchedInResult(s, from, to, i);
        LeftmostNonOverlapping(s, from, i);
      }
    }
  }
}
