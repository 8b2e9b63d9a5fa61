/** Replacements that stay out of each other's way. */
module RewriteOverlay {
  import opened Rewrite
  import opened RewriteInverse

  /** `q` cannot begin inside `p`: its first two characters decide. */
  predicate NeverStarts(p: string, q: string) {
    |q| > 1 && forall m | 0 <= m < |p| :: p[m] != q[0] || (m + 1 < |p| && p[m + 1] != q[1])
  }

  /** The two never overlap in any text. */
  predicate Apart(p: string, q: string) {
    NeverStarts(p, q) && NeverStarts(q, p)
  }

  lemma StartsBefore(t: string, p: string, q: string, i: nat, k: nat)
    requires NeverStarts(p, q) && Occurs(t, p, i) && Occurs(t, q, k) && i <= k
    ensures i + |p| <= k
  {
    assert t[k..k + |q|][0] == t[k] && t[k..k + |q|][1] == t[k + 1];
    forall m: nat | m < |p| ensures t[i + m] == p[m] { assert t[i..i + |p|][m] == t[i + m]; }
    assert forall j | i <= j < i + |p| :: t[j] == p[j - i] by {
      forall j | i <= j < i + |p| ensures t[j] == p[j - i] { assert t[i + (j - i)] == p[j - i]; }
    }
  }

  lemma ApartIn(t: string, p: string, q: string, i: nat, k: nat)
    requires Apart(p, q) && Occurs(t, p, i) && Occurs(t, q, k)
    ensures i + |p| <= k || k + |q| <= i
  {
    if i <= k { StartsBefore(t, p, q, i, k); } else { StartsBefore(t, q, p, k, i); }
  }

  /** A pattern apart from the replacement text was in the input if it is in the result. */
  lemma ApartKept(s: string, from: string, to: string, p: string, i: nat)
    requires |from| == |to| > 0 && Apart(p, to) && Occurs(Replace(s, from, to), p, i)
    ensures Occurs(s, p, i)
  {
    var t := Replace(s, from, to);
    forall j: nat | i <= j < i + |p| ensures !Covered(s, from, j) {
      forall k: nat | MatchAt(s, from, k) ensures !(k <= j < k + |from|) {
        MatchInResult(s, from, to, k);
        ApartIn(t, p, to, i, k);
      }
    }
    UncoveredKept(s, from, to, i, i + |p|);
  }

  ghost predicate Absent(s: string, p: string) {
    forall i: nat :: !Occurs(s, p, i)
  }

  lemma StaysAbsent(s: string, from: string, to: string, p: string)
    requires |from| == |to| > 0 && Apart(p, to) && Absent(s, p)
    ensures Absent(Replace(s, from, to), p)
  {
    forall i: nat ensures !Occurs(Replace(s, from, to), p, i) {
      if Occurs(Replace(s, from, to), p, i) { ApartKept(s, from, to, p, i); }
    }
  }

  lemma SliceWithin(s: string, lo: nat, hi: nat, a: nat, b: nat)
    requires lo <= hi <= |s| && a <= b <= hi - lo
    ensures s[lo..hi][a..b] == s[lo + a..lo + b]
  {
    forall m | 0 <= m < b - a ensures s[lo..hi][a..b][m] == s[lo + a..lo + b][m] { assert s[lo..hi][a + m] == s[lo + a + m]; }
  }

  /** Absence of a part is absence of the whole. */
  lemma PartAbsent(s: string, part: string, whole: string, at: nat)
    requires Absent(s, part) && Occurs(whole, part, at)
    ensures Absent(s, whole)
  {
    forall i: nat ensures !Occurs(s, whole, i) {
      assert !Occurs(s, part, i + at);
      if i + |whole| <= |s| { SliceWithin(s, i, i + |whole|, at, at + |part|); }
    }
  }

  // ---------- overlays ----------

  ghost predicate InBlock(K: iset<nat>, n: nat, j: nat) {
    exists k: nat :: k in K && k <= j < k + n
  }

  /** `x` is `b` with `to` written over occurrences of `from` at the positions `K`. */
  ghost predicate Overlaid(b: string, x: string, K: iset<nat>, from: string, to: string) {
    && |from| == |to| && |x| == |b|
    && (forall k: nat | k in K :: Occurs(b, from, k) && Occurs(x, to, k))
    && (forall j | 0 <= j < |b| && !InBlock(K, |to|, j) :: x[j] == b[j])
  }

  ghost function Matches(s: string, from: string): iset<nat>
    requires from != []
  {
    iset k: nat | MatchAt(s, from, k)
  }

  /** A replacement is an overlay. */
  lemma ReplacementOverlays(s: string, from: string, to: string)
    requires |from| == |to| > 0
    ensures Overlaid(s, Replace(s, from, to), Matches(s, from), from, to)
  {
    var K := Matches(s, from);
    forall k: nat | k in K ensures Occurs(s, from, k) && Occurs(Replace(s, from, to), to, k) {
      LeftmostNonOverlapping(s, from, k);
      MatchInResult(s, from, to, k);
    }
    forall j | 0 <= j < |s| && !InBlock(K, |to|, j) ensures Replace(s, from, to)[j] == s[j] {
      forall k: nat | k <= j < k + |from| ensures !MatchAt(s, from, k) {
        assert k !in K;
      }
      UnchangedAt(s, from, to, j);
    }
  }

  /** A pattern apart from both texts occurs in an overlay exactly where it does below. */
  lemma OverlayOccurs(b: string, x: string, K: iset<nat>, from: string, to: string, p: string, i: nat)
    requires Overlaid(b, x, K, from, to) && Apart(p, from) && Apart(p, to)
    ensures Occurs(x, p, i) <==> Occurs(b, p, i)
  {
    if Occurs(x, p, i) || Occurs(b, p, i) {
      forall j | i <= j < i + |p| ensures x[j] == b[j] {
        forall k: nat | k in K ensures !(k <= j < k + |to|) {
          if Occurs(x, p, i) { ApartIn(x, p, to, i, k); } else { ApartIn(b, p, from, i, k); }
        }
      }
      assert x[i..i + |p|] == b[i..i + |p|];
    }
  }

  /** Equal occurrences give equal matches. */
  lemma {:induction false} MatchesByOccurrences(a: string, b: string, p: string, i: nat)
    requires p != [] && forall k: nat | k <= i :: Occurs(a, p, k) <==> Occurs(b, p, k)
    ensures MatchAt(a, p, i) <==> MatchAt(b, p, i)
    decreases i
  {
    forall k: nat | k < i ensures MatchAt(a, p, k) <==> MatchAt(b, p, k) { MatchesByOccurrences(a, b, p, k); }
    LeftmostNonOverlapping(a, p, i);
    LeftmostNonOverlapping(b, p, i);
  }

  lemma OverlayMatches(b: string, x: string, K: iset<nat>, from: string, to: string, p: string, i: nat)
    requires Overlaid(b, x, K, from, to) && Apart(p, from) && Apart(p, to)
    ensures p != [] && (MatchAt(x, p, i) <==> MatchAt(b, p, i))
  {
    forall k: nat ensures Occurs(x, p, k) <==> Occurs(b, p, k) { OverlayOccurs(b, x, K, from, to, p, k); }
    MatchesByOccurrences(x, b, p, i);
  }

  /** A replacement of such a pattern leaves the blocks of the overlay alone. */
  lemma BlockKept(b: string, p: string, q: string, from: string, k: nat)
    requires |p| == |q| > 0 && Apart(p, from) && Occurs(b, from, k)
    ensures Occurs(Replace(b, p, q), from, k)
  {
    forall j: nat | k <= j < k + |from| ensures !Covered(b, p, j) {
      forall i: nat | MatchAt(b, p, i) ensures !(i <= j < i + |p|) {
        LeftmostNonOverlapping(b, p, i);
        ApartIn(b, p, from, i, k);
      }
    }
    UncoveredKept(b, p, q, k, k + |from|);
  }

  /** Where a character of the result comes from. */
  lemma CharacterFrom(s: string, from: string, to: string, j: nat) returns (covered: bool, k: nat)
    requires |from| == |to| > 0 && j < |s|
    ensures covered ==> MatchAt(s, from, k) && k <= j < k + |from| && s[j] == from[j - k]
                        && Replace(s, from, to)[j] == to[j - k]
    ensures !covered ==> !Covered(s, from, j) && Replace(s, from, to)[j] == s[j]
  {
    covered, k := Covered(s, from, j), 0;
    if covered {
      k :| k <= j < k + |from| && MatchAt(s, from, k);
      ReplacedAt(s, from, to, k, j - k);
      LeftmostNonOverlapping(s, from, k);
      assert s[j] == s[k..k + |from|][j - k];
    } else {
      UnchangedAt(s, from, to, j);
    }
  }

  ghost predicate SameMatching(a: string, b: string, p: string)
    requires p != []
  {
    forall i: nat :: MatchAt(a, p, i) <==> MatchAt(b, p, i)
  }

  lemma SameCoverage(a: string, b: string, p: string, j: nat)
    requires p != [] && SameMatching(a, b, p)
    ensures Covered(a, p, j) <==> Covered(b, p, j)
  {
  }

  lemma SameCharacter(b: string, x: string, p: string, q: string, j: nat)
    requires |p| == |q| > 0 && |x| == |b| && j < |b| && x[j] == b[j] && SameMatching(x, b, p)
    ensures Replace(x, p, q)[j] == Replace(b, p, q)[j]
  {
    SameCoverage(x, b, p, j);
    if Covered(b, p, j) {
      var k: nat :| k <= j < k + |p| && MatchAt(b, p, k);
      MatchInResult(b, p, q, k);
      MatchInResult(x, p, q, k);
      SameIn(Replace(x, p, q), Replace(b, p, q), q, k, j);
    } else {
      UnchangedAt(b, p, q, j);
      UnchangedAt(x, p, q, j);
    }
  }

  lemma SameIn(a: string, b: string, q: string, k: nat, j: nat)
    requires Occurs(a, q, k) && Occurs(b, q, k) && k <= j < k + |q|
    ensures a[j] == b[j]
  {
    assert a[j] == a[k..k + |q|][j - k] && b[j] == b[k..k + |q|][j - k];
  }

  /** Replacing it below the overlay or above it is the same. */
  lemma OverlayCommutes(b: string, x: string, K: iset<nat>, from: string, to: string, p: string, q: string)
    requires Overlaid(b, x, K, from, to) && |p| == |q| && Apart(p, from) && Apart(p, to)
    ensures Overlaid(Replace(b, p, q), Replace(x, p, q), K, from, to)
  {
    forall k: nat | k in K ensures Occurs(Replace(b, p, q), from, k) && Occurs(Replace(x, p, q), to, k) {
      BlockKept(b, p, q, from, k);
      BlockKept(x, p, q, to, k);
    }
    forall i: nat ensures MatchAt(x, p, i) <==> MatchAt(b, p, i) { OverlayMatches(b, x, K, from, to, p, i); }
    assert SameMatching(x, b, p);
    forall j: nat | j < |b| && !InBlock(K, |to|, j) ensures Replace(x, p, q)[j] == Replace(b, p, q)[j] {
      SameCharacter(b, x, p, q, j);
    }
  }

  // ---------- undoing an overlay ----------

  /** Occurrences of a text without border are all replaced. */
  lemma BorderlessMatches(x: string, p: string, i: nat)
    requires p != [] && Borderless(p)
    ensures MatchAt(x, p, i) <==> Occurs(x, p, i)
  {
    LeftmostNonOverlapping(x, p, i);
    if Occurs(x, p, i) {
      forall k: nat | k < i < k + |p| ensures !MatchAt(x, p, k) {
        LeftmostNonOverlapping(x, p, k);
        if MatchAt(x, p, k) { SharedEnds(x, p, p, k, i); }
      }
    }
  }

  lemma ElsewhereBelow(b: string, x: string, K: iset<nat>, from: string, to: string, i: nat)
    requires Overlaid(b, x, K, from, to) && Borderless(to) && Occurs(x, to, i) && i !in K
    ensures Occurs(b, to, i)
  {
    forall j | i <= j < i + |to| ensures x[j] == b[j] {
      forall k: nat | k in K ensures !(k <= j < k + |to|) {
        if k < i < k + |to| { SharedEnds(x, to, to, k, i); }
        if i < k < i + |to| { SharedEnds(x, to, to, i, k); }
      }
    }
    assert x[i..i + |to|] == b[i..i + |to|];
  }

  lemma OverlayMatchesExactly(b: string, x: string, K: iset<nat>, from: string, to: string, i: nat)
    requires Overlaid(b, x, K, from, to) && to != [] && Borderless(to) && Absent(b, to)
    ensures MatchAt(x, to, i) <==> i in K
  {
    BorderlessMatches(x, to, i);
    if Occurs(x, to, i) && i !in K { ElsewhereBelow(b, x, K, from, to, i); }
  }

  /** Replacing the overlay's text back removes the overlay. */
  lemma OverlayUndone(b: string, x: string, K: iset<nat>, from: string, to: string)
    requires Overlaid(b, x, K, from, to) && to != [] && Borderless(to) && Absent(b, to)
    ensures Replace(x, to, from) == b
  {
    forall i: nat ensures MatchAt(x, to, i) <==> i in K { OverlayMatchesExactly(b, x, K, from, to, i); }
    forall j: nat | j < |b| ensures Replace(x, to, from)[j] == b[j] {
      if Covered(x, to, j) {
        var k: nat :| k <= j < k + |to| && MatchAt(x, to, k);
        ReplacedAt(x, to, from, k, j - k);
        assert b[k..k + |from|][j - k] == b[j];
      } else {
        forall k: nat | k in K ensures !(k <= j < k + |to|) { assert MatchAt(x, to, k); }
        UnchangedAt(x, to, from, j);
      }
    }
  }

  /** A letter that is in neither text keeps its places. */
  lemma LetterStays(s: string, from: string, to: string, c: char, j: nat)
    requires |from| == |to| > 0 && c !in from && c !in to && j < |s|
    ensures Replace(s, from, to)[j] == c <==> s[j] == c
  {
    var covered, k := CharacterFrom(s, from, to, j);
    if covered { assert from[j - k] in from && to[j - k] in to; }
  }
}
