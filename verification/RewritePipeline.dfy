/** When post-processing undoes pre-processing. */
module RewritePipeline {
  import opened Rewrite
  import opened RewriteInverse
  import opened RewriteOverlay
  import opened RewriteRules

  /** An unsafe trait spelled the other way round. */
  const SWAPPED: string := "unsafe const trait "

  /** None of the stable spellings, as far as a rule looks at them. */
  ghost predicate Plain(s: string) {
    && Absent(s, "cnst:") && Absent(s, "cnst ") && Absent(s, BRACKETS_STABLE) && Absent(s, BRACKETS_WIDE_STABLE)
    && Absent(s, "trait _cons")
  }

  function AfterTrait(s: string): string { Replace(s, TRAIT, TRAIT_STABLE) }
  function AfterUnsafe(s: string): string { Replace(AfterTrait(s), UNSAFE, UNSAFE_STABLE) }

  // ---------- patterns that keep apart ----------

  lemma ColonApart()
    ensures Apart("cnst:", TRAIT_STABLE) && Apart("cnst:", UNSAFE_STABLE)
    ensures Apart("cnst ", TRAIT_STABLE) && Apart("cnst ", UNSAFE_STABLE)
  {
  }

  lemma UnsafeApart()
    ensures Apart(UNSAFE_STABLE, IMPL) && Apart(UNSAFE_STABLE, IMPL_STABLE)
    ensures Apart(UNSAFE_STABLE, BRACKETS) && Apart(UNSAFE_STABLE, BRACKETS_STABLE)
  {
  }

  lemma TraitApart()
    ensures Apart(TRAIT_STABLE, IMPL) && Apart(TRAIT_STABLE, IMPL_STABLE)
    ensures Apart(TRAIT_STABLE, BRACKETS) && Apart(TRAIT_STABLE, BRACKETS_STABLE)
  {
  }

  lemma ImplApart()
    ensures Apart(IMPL_STABLE, BRACKETS) && Apart(IMPL_STABLE, BRACKETS_STABLE)
    ensures Apart(IMPL_WIDE_STABLE, BRACKETS) && Apart(IMPL_WIDE_STABLE, BRACKETS_STABLE)
  {
  }

  // ---------- pre-processing ----------

  lemma FirstRuleUndone(s: string)
    requires Plain(s)
    ensures Undoable(s, TRAIT, TRAIT_STABLE)
    ensures Replace(AfterTrait(s), TRAIT_STABLE, TRAIT) == s
  {
    PartAbsent(s, "trait _cons", TRAIT_STABLE, 0);
    assert TRAIT_STABLE[..11] == "trait _cons";
    forall i: nat ensures !Spoils(s, TRAIT, TRAIT_STABLE, i) {
      assert !Occurs(s, "trait _cons", i) && !Occurs(s, TRAIT_STABLE, i);
    }
    TraitRestores(s);
  }

  lemma NoColonAfterTraits(s: string)
    requires Plain(s)
    ensures Absent(AfterUnsafe(s), "cnst:") && Absent(AfterUnsafe(s), "cnst ")
  {
    ColonApart();
    StaysAbsent(s, TRAIT, TRAIT_STABLE, "cnst:");
    StaysAbsent(s, TRAIT, TRAIT_STABLE, "cnst ");
    StaysAbsent(AfterTrait(s), UNSAFE, UNSAFE_STABLE, "cnst:");
    StaysAbsent(AfterTrait(s), UNSAFE, UNSAFE_STABLE, "cnst ");
  }

  /** Characters of two overlapping occurrences. */
  lemma CharactersOf(t: string, p: string, i: nat)
    requires Occurs(t, p, i)
    ensures forall j | i <= j < i + |p| :: t[j] == p[j - i]
  {
    forall j | i <= j < i + |p| ensures t[j] == p[j - i] { assert t[i..i + |p|][j - i] == t[j]; }
  }

  lemma CnstAligned(t: string, q: string, i: nat, k: nat)
    requires (q == "cnst:" || q == "cnst ") && Occurs(t, q, i) && Occurs(t, IMPL_STABLE, k) && k < i + 5 && i < k + 8
    ensures i == k + 2 && q == "cnst:"
  {
    CharactersOf(t, q, i);
    CharactersOf(t, IMPL_STABLE, k);
    assert t[k] == '>' && t[i] == 'c';
    assert t[i + 4] == q[4] && t[k + 6] == ':';
  }

  /** The impl rule leaves its mark only inside its own replacements. */
  lemma CnstInBlock(s: string, q: string, i: nat)
    requires (q == "cnst:" || q == "cnst ") && Absent(s, q) && Occurs(Replace(s, IMPL, IMPL_STABLE), q, i)
    ensures i >= 2 && MatchAt(s, IMPL, i - 2) && q == "cnst:"
  {
    assert !Occurs(s, q, i);
    if forall j: nat | i <= j < i + 5 :: !Covered(s, IMPL, j) {
      UncoveredKept(s, IMPL, IMPL_STABLE, i, i + 5);
    } else {
      var j: nat :| i <= j < i + 5 && Covered(s, IMPL, j);
      var k: nat :| k <= j < k + |IMPL| && MatchAt(s, IMPL, k);
      MatchInResult(s, IMPL, IMPL_STABLE, k);
      CnstAligned(Replace(s, IMPL, IMPL_STABLE), q, i, k);
    }
  }

  lemma NothingReverted(s: string)
    requires Absent(s, "cnst:") && Absent(s, "cnst ")
    ensures var t := Replace(s, IMPL, IMPL_STABLE); Reverted(t) == Replace(t, FUNCTION_STABLE, FUNCTION)
  {
    var t := Replace(s, IMPL, IMPL_STABLE);
    forall i: nat ensures !Occurs(t, "cnst ", i) {
      if Occurs(t, "cnst ", i) { CnstInBlock(s, "cnst ", i); }
    }
    PartAbsent(t, "cnst ", "pub cnst ::", 4);
    PartAbsent(t, "cnst ", ") cnst ::", 2);
    forall i: nat ensures !Occurs(t, "pub cnst::", i) { NotBehind(s, "pub cnst::", 4, i); }
    forall i: nat ensures !Occurs(t, ") cnst::", i) { NotBehind(s, ") cnst::", 2, i); }
    NothingToReplace(t, "pub cnst::", "pub const ");
    NothingToReplace(t, "pub cnst ::", "pub const  ");
    NothingToReplace(t, ") cnst::", ") const ");
    NothingToReplace(t, ") cnst ::", ") const  ");
  }

  lemma MarkBefore(t: string, p: string, at: nat, i: nat)
    requires 2 <= at < |p| && Occurs(t, p, i) && Occurs(t, IMPL_STABLE, i + at - 2)
    ensures p[at - 2] == '>'
  {
    assert t[i..i + |p|][at - 2] == t[i + at - 2];
    assert t[i + at - 2..i + at - 2 + 8][0] == t[i + at - 2];
  }

  /** A pattern with the mark behind anything but `> ` does not occur. */
  lemma NotBehind(s: string, p: string, at: nat, i: nat)
    requires Absent(s, "cnst:") && 2 <= at && Occurs(p, "cnst:", at) && p[at - 2] != '>'
    ensures !Occurs(Replace(s, IMPL, IMPL_STABLE), p, i)
  {
    var t := Replace(s, IMPL, IMPL_STABLE);
    if Occurs(t, p, i) {
      SliceWithin(t, i, i + |p|, at, at + 5);
      CnstInBlock(s, "cnst:", i + at);
      MatchInResult(s, IMPL, IMPL_STABLE, i + at - 2);
      MarkBefore(t, p, at, i);
    }
  }

  /** Impl replacements that the function rule does not take back. */
  ghost function ImplsKept(s: string): iset<nat> {
    iset k: nat | MatchAt(s, IMPL, k) && !MatchAt(Replace(s, IMPL, IMPL_STABLE), FUNCTION_STABLE, k + 2)
  }

  lemma FunctionInBlock(s: string, i: nat)
    requires Absent(s, "cnst:") && MatchAt(Replace(s, IMPL, IMPL_STABLE), FUNCTION_STABLE, i)
    ensures i >= 2 && MatchAt(s, IMPL, i - 2) && Occurs(Replace(s, IMPL, IMPL_STABLE), FUNCTION_STABLE, i)
  {
    var t := Replace(s, IMPL, IMPL_STABLE);
    LeftmostNonOverlapping(t, FUNCTION_STABLE, i);
    SliceWithin(t, i, i + 8, 0, 5);
    assert FUNCTION_STABLE[0..5] == "cnst:";
    CnstInBlock(s, "cnst:", i);
  }

  lemma FunctionAligned(t: string, i: nat, k: nat)
    requires Occurs(t, FUNCTION_STABLE, i) && Occurs(t, IMPL_STABLE, k) && i < k + 8 && k < i + 8
    ensures i == k + 2
  {
    CharactersOf(t, FUNCTION_STABLE, i);
    CharactersOf(t, IMPL_STABLE, k);
    assert t[k] == '>' && t[i] == 'c';
  }

  /** The function rule does not reach into another impl replacement. */
  lemma FunctionMeetsOwnBlock(s: string, i: nat, k: nat)
    requires MatchAt(Replace(s, IMPL, IMPL_STABLE), FUNCTION_STABLE, i)
    requires MatchAt(s, IMPL, k) && i < k + 8 && k < i + 8
    ensures i == k + 2
  {
    MatchOccurs(Replace(s, IMPL, IMPL_STABLE), FUNCTION_STABLE, i);
    MatchInResult(s, IMPL, IMPL_STABLE, k);
    FunctionAligned(Replace(s, IMPL, IMPL_STABLE), i, k);
  }

  lemma MatchOccurs(s: string, p: string, i: nat)
    requires p != [] && MatchAt(s, p, i)
    ensures Occurs(s, p, i)
  {
    LeftmostNonOverlapping(s, p, i);
  }

  lemma KeptBlock(s: string, k: nat)
    requires Absent(s, "cnst:") && k in ImplsKept(s)
    ensures Occurs(s, IMPL, k) && Occurs(Replace(Replace(s, IMPL, IMPL_STABLE), FUNCTION_STABLE, FUNCTION), IMPL_STABLE, k)
  {
    var t := Replace(s, IMPL, IMPL_STABLE);
    LeftmostNonOverlapping(s, IMPL, k);
    MatchInResult(s, IMPL, IMPL_STABLE, k);
    forall j: nat | k <= j < k + 8 ensures !Covered(t, FUNCTION_STABLE, j) {
      forall i: nat | MatchAt(t, FUNCTION_STABLE, i) ensures !(i <= j < i + 8) {
        if i <= j < i + 8 { FunctionMeetsOwnBlock(s, i, k); }
      }
    }
    UncoveredKept(t, FUNCTION_STABLE, FUNCTION, k, k + 8);
  }

  lemma FunctionText(s: string, t: string, i: nat, j: nat)
    requires i >= 2 && Occurs(s, IMPL, i - 2) && Occurs(t, FUNCTION_STABLE, i) && i <= j < i + 8
    requires j >= i + 6 ==> j < |s| && s[j] == t[j]
    ensures j < |s| && FUNCTION[j - i] == s[j]
  {
    CharactersOf(s, IMPL, i - 2);
    CharactersOf(t, FUNCTION_STABLE, i);
    assert FUNCTION[6] == FUNCTION_STABLE[6] && FUNCTION[7] == FUNCTION_STABLE[7];
    assert forall m | 0 <= m < 6 :: FUNCTION[m] == IMPL[m + 2];
  }

  lemma BehindTheBlock(s: string, i: nat, j: nat)
    requires Absent(s, "cnst:") && MatchAt(Replace(s, IMPL, IMPL_STABLE), FUNCTION_STABLE, i) && i + 6 <= j < i + 8
    ensures j < |s| && Replace(s, IMPL, IMPL_STABLE)[j] == s[j]
  {
    FunctionInBlock(s, i);
    forall k: nat | MatchAt(s, IMPL, k) ensures !(k <= j < k + 8) {
      if k <= j < k + 8 { FunctionMeetsOwnBlock(s, i, k); }
    }
    UnchangedAt(s, IMPL, IMPL_STABLE, j);
  }

  /** Where the function rule fires, the original text is back. */
  lemma TakenBack(s: string, i: nat, j: nat)
    requires Absent(s, "cnst:") && MatchAt(Replace(s, IMPL, IMPL_STABLE), FUNCTION_STABLE, i) && i <= j < i + 8
    ensures j < |s| && Replace(Replace(s, IMPL, IMPL_STABLE), FUNCTION_STABLE, FUNCTION)[j] == s[j]
  {
    FunctionInBlock(s, i);
    MatchOccurs(s, IMPL, i - 2);
    if j >= i + 6 { BehindTheBlock(s, i, j); }
    var t := Replace(s, IMPL, IMPL_STABLE);
    FunctionText(s, t, i, j);
    MatchInResult(t, FUNCTION_STABLE, FUNCTION, i);
    CharactersOf(Replace(t, FUNCTION_STABLE, FUNCTION), FUNCTION, i);
  }

  lemma NotTakenBack(s: string, j: nat)
    requires j < |s| && !InBlock(ImplsKept(s), 8, j) && !Covered(Replace(s, IMPL, IMPL_STABLE), FUNCTION_STABLE, j)
    ensures Replace(s, IMPL, IMPL_STABLE)[j] == s[j]
  {
    var covered, k := CharacterFrom(s, IMPL, IMPL_STABLE, j);
    if covered {
      assert k !in ImplsKept(s);
      assert j < k + 2;
    }
  }

  lemma OutsideKept(s: string, j: nat)
    requires Absent(s, "cnst:") && j < |s| && !InBlock(ImplsKept(s), 8, j)
    ensures Replace(Replace(s, IMPL, IMPL_STABLE), FUNCTION_STABLE, FUNCTION)[j] == s[j]
  {
    var t := Replace(s, IMPL, IMPL_STABLE);
    if Covered(t, FUNCTION_STABLE, j) {
      var i: nat :| i <= j < i + |FUNCTION_STABLE| && MatchAt(t, FUNCTION_STABLE, i);
      TakenBack(s, i, j);
    } else {
      NotTakenBack(s, j);
      UnchangedAt(t, FUNCTION_STABLE, FUNCTION, j);
    }
  }

  /** The impl and function rules together are one overlay. */
  lemma ImplsOverlay(s: string)
    requires Absent(s, "cnst:")
    ensures Overlaid(s, Replace(Replace(s, IMPL, IMPL_STABLE), FUNCTION_STABLE, FUNCTION), ImplsKept(s), IMPL, IMPL_STABLE)
  {
    forall k: nat | k in ImplsKept(s)
      ensures Occurs(s, IMPL, k) && Occurs(Replace(Replace(s, IMPL, IMPL_STABLE), FUNCTION_STABLE, FUNCTION), IMPL_STABLE, k)
    {
      KeptBlock(s, k);
    }
    forall j: nat | j < |s| && !InBlock(ImplsKept(s), 8, j)
      ensures Replace(Replace(s, IMPL, IMPL_STABLE), FUNCTION_STABLE, FUNCTION)[j] == s[j]
    {
      OutsideKept(s, j);
    }
  }

  /** After the trait rules, pre-processing writes two overlays: impl replacements, then brackets. */
  lemma PreProcessedIs(s: string) returns (x: string)
    requires Plain(s)
    ensures Overlaid(AfterUnsafe(s), x, ImplsKept(AfterUnsafe(s)), IMPL, IMPL_STABLE)
    ensures PreProcessed(s) == Replace(x, BRACKETS, BRACKETS_STABLE)
  {
    var b := AfterUnsafe(s);
    NoColonAfterTraits(s);
    x := Replace(Replace(b, IMPL, IMPL_STABLE), FUNCTION_STABLE, FUNCTION);
    ImplsOverlay(b);
    WideRulesAreDead(b);
    NothingReverted(b);
    WideRulesAreDead(x);
  }

  // ---------- post-processing ----------

  /** Undoing the trait rules leaves both overlays in place. */
  lemma TraitsUnderOverlays(b: string, x: string, K: iset<nat>)
    requires Overlaid(b, x, K, IMPL, IMPL_STABLE)
    ensures var undo := (t: string) => Replace(Replace(t, UNSAFE_STABLE, UNSAFE), TRAIT_STABLE, TRAIT);
            && Overlaid(undo(b), undo(x), K, IMPL, IMPL_STABLE)
            && Overlaid(undo(x), undo(Replace(x, BRACKETS, BRACKETS_STABLE)), Matches(x, BRACKETS), BRACKETS, BRACKETS_STABLE)
  {
    UnsafeApart();
    TraitApart();
    OverlayCommutes(b, x, K, IMPL, IMPL_STABLE, UNSAFE_STABLE, UNSAFE);
    OverlayCommutes(Replace(b, UNSAFE_STABLE, UNSAFE), Replace(x, UNSAFE_STABLE, UNSAFE), K, IMPL, IMPL_STABLE,
                    TRAIT_STABLE, TRAIT);
    var y, L := Replace(x, BRACKETS, BRACKETS_STABLE), Matches(x, BRACKETS);
    ReplacementOverlays(x, BRACKETS, BRACKETS_STABLE);
    OverlayCommutes(x, y, L, BRACKETS, BRACKETS_STABLE, UNSAFE_STABLE, UNSAFE);
    OverlayCommutes(Replace(x, UNSAFE_STABLE, UNSAFE), Replace(y, UNSAFE_STABLE, UNSAFE), L, BRACKETS, BRACKETS_STABLE,
                    TRAIT_STABLE, TRAIT);
  }

  /** Taking both overlays off a plain text. */
  lemma OverlaysUndone(s: string, x: string, y: string, K: iset<nat>, L: iset<nat>)
    requires Plain(s) && Overlaid(s, x, K, IMPL, IMPL_STABLE) && Overlaid(x, y, L, BRACKETS, BRACKETS_STABLE)
    ensures Unmarked(y) == s
  {
    NoOverlapByFirst(IMPL_STABLE, IMPL_STABLE);
    NoOverlapByFirst(BRACKETS_STABLE, BRACKETS_STABLE);
    PartAbsent(s, "cnst:", IMPL_STABLE, 2);
    PartAbsent(s, "cnst ", IMPL_WIDE_STABLE, 2);
    ImplApart();
    OverlayUndone(s, x, K, IMPL, IMPL_STABLE);
    OverlayCommutes(x, y, L, BRACKETS, BRACKETS_STABLE, IMPL_STABLE, IMPL);
    var y' := Replace(y, IMPL_STABLE, IMPL);
    forall i: nat ensures !Occurs(y', IMPL_WIDE_STABLE, i) {
      OverlayOccurs(s, y', L, BRACKETS, BRACKETS_STABLE, IMPL_WIDE_STABLE, i);
    }
    NothingToReplace(y', IMPL_WIDE_STABLE, IMPL_WIDE);
    OverlayUndone(s, y', L, BRACKETS, BRACKETS_STABLE);
    NothingToReplace(s, BRACKETS_WIDE_STABLE, BRACKETS_WIDE);
  }

  lemma RestoresIf(s: string)
    requires Plain(s) && Restorable(AfterTrait(s), UNSAFE, UNSAFE_STABLE)
    ensures PostProcessed(PreProcessed(s)) == s
  {
    var x := PreProcessedIs(s);
    var b := AfterUnsafe(s);
    TraitsUnderOverlays(b, x, ImplsKept(b));
    UnsafeRestores(AfterTrait(s));
    FirstRuleUndone(s);
    var undo := (t: string) => Replace(Replace(t, UNSAFE_STABLE, UNSAFE), TRAIT_STABLE, TRAIT);
    assert undo(b) == s;
    OverlaysUndone(s, undo(x), undo(Replace(x, BRACKETS, BRACKETS_STABLE)), ImplsKept(b), Matches(x, BRACKETS));
  }

  // ---------- the letter u ----------

  lemma NoLetter()
    ensures 'u' !in TRAIT && 'u' !in TRAIT_STABLE && 'u' !in IMPL && 'u' !in IMPL_STABLE
    ensures 'u' !in IMPL_WIDE && 'u' !in IMPL_WIDE_STABLE && 'u' !in BRACKETS && 'u' !in BRACKETS_STABLE
    ensures 'u' !in BRACKETS_WIDE && 'u' !in BRACKETS_WIDE_STABLE
  {
  }

  /** The impl and bracket rules keep the letter. */
  lemma LetterUnmarked(t: string, j: nat)
    requires j < |t|
    ensures |Unmarked(t)| == |t| && (Unmarked(t)[j] == 'u' <==> t[j] == 'u')
  {
    NoLetter();
    var t1 := Replace(t, IMPL_STABLE, IMPL);
    LetterStays(t, IMPL_STABLE, IMPL, 'u', j);
    var t2 := Replace(t1, IMPL_WIDE_STABLE, IMPL_WIDE);
    LetterStays(t1, IMPL_WIDE_STABLE, IMPL_WIDE, 'u', j);
    var t3 := Replace(t2, BRACKETS_STABLE, BRACKETS);
    LetterStays(t2, BRACKETS_STABLE, BRACKETS, 'u', j);
    LetterStays(t3, BRACKETS_WIDE_STABLE, BRACKETS_WIDE, 'u', j);
  }

  lemma OverlaysKeepUnsafe(b: string, x: string, K: iset<nat>, i: nat)
    requires Overlaid(b, x, K, IMPL, IMPL_STABLE) && Occurs(b, UNSAFE_STABLE, i)
    ensures Occurs(Replace(x, BRACKETS, BRACKETS_STABLE), UNSAFE_STABLE, i)
  {
    UnsafeApart();
    OverlayOccurs(b, x, K, IMPL, IMPL_STABLE, UNSAFE_STABLE, i);
    ReplacementOverlays(x, BRACKETS, BRACKETS_STABLE);
    OverlayOccurs(x, Replace(x, BRACKETS, BRACKETS_STABLE), Matches(x, BRACKETS), BRACKETS, BRACKETS_STABLE, UNSAFE_STABLE, i);
  }

  /** An unsafe spelling that the rule leaves behind is still there after pre-processing. */
  lemma LeftBehindAtTheEnd(s: string, i: nat)
    requires Plain(s) && LeftBehind(AfterTrait(s), UNSAFE, UNSAFE_STABLE, i)
    ensures Occurs(PreProcessed(s), UNSAFE_STABLE, i)
  {
    UntouchedInResult(AfterTrait(s), UNSAFE, UNSAFE_STABLE, i);
    assert Occurs(AfterUnsafe(s), UNSAFE_STABLE, i);
    var x := PreProcessedIs(s);
    OverlaysKeepUnsafe(AfterUnsafe(s), x, ImplsKept(AfterUnsafe(s)), i);
  }

  /** Replacing it back puts the letter where it was not. */
  lemma LetterAppears(t: string, i: nat)
    requires Occurs(t, UNSAFE_STABLE, i)
    ensures var r := Replace(t, UNSAFE_STABLE, UNSAFE); i + 6 < |r| && r[i + 6] == 'u'
  {
    NoOverlapByFirst(UNSAFE_STABLE, UNSAFE_STABLE);
    BorderlessMatches(t, UNSAFE_STABLE, i);
    MatchInResult(t, UNSAFE_STABLE, UNSAFE, i);
    CharactersOf(Replace(t, UNSAFE_STABLE, UNSAFE), UNSAFE, i);
  }

  lemma LetterWasNot(s: string, i: nat)
    requires Occurs(AfterTrait(s), UNSAFE_STABLE, i)
    ensures i + 6 < |s| && s[i + 6] != 'u'
  {
    CharactersOf(AfterTrait(s), UNSAFE_STABLE, i);
    NoLetter();
    LetterStays(s, TRAIT, TRAIT_STABLE, 'u', i + 6);
  }

  lemma NotRestoredIf(s: string, i: nat)
    requires Plain(s) && LeftBehind(AfterTrait(s), UNSAFE, UNSAFE_STABLE, i)
    ensures PostProcessed(PreProcessed(s)) != s
  {
    LeftBehindAtTheEnd(s, i);
    LetterAppears(PreProcessed(s), i);
    var r := Replace(PreProcessed(s), UNSAFE_STABLE, UNSAFE);
    NoLetter();
    LetterStays(r, TRAIT_STABLE, TRAIT, 'u', i + 6);
    LetterUnmarked(Replace(r, TRAIT_STABLE, TRAIT), i + 6);
    LetterWasNot(s, i);
  }

  /** With every rule active, post-processing undoes pre-processing of a plain text exactly when the
      unsafe rule would be undone after the trait rule: an unsafe trait spelled the other way round is
      the only thing that comes back different. */
  lemma PipelineRestores(s: string)
    requires Plain(s)
    ensures PostProcessed(PreProcessed(s)) == s <==> Restorable(AfterTrait(s), UNSAFE, UNSAFE_STABLE)
  {
    if Restorable(AfterTrait(s), UNSAFE, UNSAFE_STABLE) {
      RestoresIf(s);
    } else {
      var i: nat :| Occurs(AfterTrait(s), UNSAFE_STABLE, i) && !Touched(AfterTrait(s), UNSAFE, i);
      NotRestoredIf(s, i);
    }
  }

  lemma TraitAligned(t: string, i: nat, k: nat)
    requires Occurs(t, UNSAFE_STABLE, i) && Occurs(t, TRAIT_STABLE, k) && k < i + 7
    ensures k + 12 <= i
  {
    CharactersOf(t, TRAIT_STABLE, k);
    CharactersOf(t, UNSAFE_STABLE, i);
    assert t[i] == 'u' && t[k] == 't' && t[k + 1] == 'r';
  }

  /** A trait replacement meets the spelling only inside it. */
  lemma NotBefore(s: string, i: nat, k: nat)
    requires Occurs(AfterTrait(s), UNSAFE_STABLE, i) && MatchAt(s, TRAIT, k) && k < i + 7
    ensures k + 12 <= i
  {
    MatchInResult(s, TRAIT, TRAIT_STABLE, k);
    TraitAligned(AfterTrait(s), i, k);
  }

  lemma TraitWithin(t: string, i: nat)
    requires Occurs(t, UNSAFE_STABLE, i)
    ensures Occurs(t, TRAIT_STABLE, i + 7)
  {
    SliceWithin(t, i, i + 19, 7, 19);
    assert UNSAFE_STABLE[7..19] == TRAIT_STABLE;
  }

  lemma TraitInside(s: string, i: nat)
    requires Plain(s) && Occurs(AfterTrait(s), UNSAFE_STABLE, i)
    ensures MatchAt(s, TRAIT, i + 7)
  {
    FirstRuleUndone(s);
    NearlyBorderlessByTwo(TRAIT_STABLE);
    TraitWithin(AfterTrait(s), i);
    forall k: nat | k < i + 7 < k + 12 ensures !MatchAt(AfterTrait(s), TRAIT_STABLE, k) {
      SameMatches(s, TRAIT, TRAIT_STABLE, k);
      if MatchAt(s, TRAIT, k) { NotBefore(s, i, k); }
    }
    LeftmostNonOverlapping(AfterTrait(s), TRAIT_STABLE, i + 7);
    SameMatches(s, TRAIT, TRAIT_STABLE, i + 7);
  }

  lemma SwappedText(s: string, t: string, i: nat)
    requires Occurs(t, UNSAFE_STABLE, i) && i + 7 <= |s| && s[i..i + 7] == t[i..i + 7] && Occurs(s, TRAIT, i + 7)
    ensures Occurs(s, SWAPPED, i)
  {
    SliceWithin(t, i, i + 19, 0, 7);
    assert s[i..i + 19] == s[i..i + 7] + s[i + 7..i + 19];
    assert UNSAFE_STABLE[0..7] + TRAIT == SWAPPED;
  }

  /** A stable unsafe spelling after the trait rule was the unsafe trait spelled the other way round. */
  lemma UnsafeSpelling(s: string, i: nat)
    requires Plain(s) && Occurs(AfterTrait(s), UNSAFE_STABLE, i)
    ensures Occurs(s, SWAPPED, i)
  {
    TraitInside(s, i);
    MatchOccurs(s, TRAIT, i + 7);
    forall j: nat | i <= j < i + 7 ensures !Covered(s, TRAIT, j) {
      forall k: nat | MatchAt(s, TRAIT, k) ensures !(k <= j < k + 12) {
        if k <= j < k + 12 { NotBefore(s, i, k); }
      }
    }
    UncoveredKept(s, TRAIT, TRAIT_STABLE, i, i + 7);
    SwappedText(s, AfterTrait(s), i);
  }

  /** Plain text without that spelling is always restored. */
  lemma OrdinaryTextIsRestored(s: string)
    requires Plain(s) && Absent(s, SWAPPED)
    ensures PostProcessed(PreProcessed(s)) == s
  {
    forall i: nat | Occurs(AfterTrait(s), UNSAFE_STABLE, i) ensures Touched(AfterTrait(s), UNSAFE, i) {
      UnsafeSpelling(s, i);
    }
    PipelineRestores(s);
  }

  // ---------- inputs that are not restored ----------

  lemma TooShort(s: string, from: string, to: string)
    requires |from| == |to| && |s| <= |from| && s != from
    ensures Replace(s, from, to) == s
  {
    if |s| == |from| && s != [] { assert s[0..|from|] == s; }
  }

  /** Post-processing is not the inverse of pre-processing: a stable spelling in the input is lost. */
  lemma PostIsNotInverse()
    ensures PreProcessed(BRACKETS_STABLE) == BRACKETS_STABLE
    ensures PostProcessed(BRACKETS_STABLE) == BRACKETS
  {
    var s := BRACKETS_STABLE;
    assert s[0] != IMPL[0] && s[0] != ')' && s[0] != 'c' && s[0] != BRACKETS[0];
    TooShort(s, TRAIT, TRAIT_STABLE);
    TooShort(s, UNSAFE, UNSAFE_STABLE);
    TooShort(s, IMPL, IMPL_STABLE);
    TooShort(s, IMPL_WIDE, IMPL_WIDE_STABLE);
    TooShort(s, "pub cnst::", "pub const ");
    TooShort(s, "pub cnst ::", "pub const  ");
    TooShort(s, ") cnst::", ") const ");
    TooShort(s, ") cnst ::", ") const  ");
    TooShort(s, "cnst::fn", "const fn");
    TooShort(s, BRACKETS, BRACKETS_STABLE);
    TooShort(s, BRACKETS_WIDE, BRACKETS_WIDE_STABLE);
    TooShort(s, UNSAFE_STABLE, UNSAFE);
    TooShort(s, TRAIT_STABLE, TRAIT);
    TooShort(s, IMPL_STABLE, IMPL);
    TooShort(s, IMPL_WIDE_STABLE, IMPL_WIDE);
    assert s[0..8] == s && s[8..] == "";
    assert Replace(s, BRACKETS_STABLE, BRACKETS) == BRACKETS + "";
    TooShort(BRACKETS, BRACKETS_WIDE_STABLE, BRACKETS_WIDE);
  }

  const BEFORE_TRAIT: string := "trait _cons"

  lemma ReplaceAtTheEnd(gap: string, from: string, to: string)
    requires |from| == |to| > 0 && forall i: nat | i < |gap| :: !Occurs(gap + from, from, i)
    ensures Replace(gap + from, from, to) == gap + to
  {
    ReplaceSkips(gap + from, from, to, |gap|);
    assert (gap + from)[|gap|..] == from && (gap + from)[..|gap|] == gap;
    assert from[0..|from|] == from && from[|from|..] == [];
    assert Replace(from, from, to) == to + [];
  }

  lemma TraitReplaced()
    ensures Replace(BEFORE_TRAIT + TRAIT, TRAIT, TRAIT_STABLE) == BEFORE_TRAIT + TRAIT_STABLE
  {
    var s := BEFORE_TRAIT + TRAIT;
    forall i: nat | i < 11 ensures !Occurs(s, TRAIT, i) {
      assert s[i..i + 12][0] == s[i] && s[i..i + 12][4] == s[i + 4];
    }
    ReplaceAtTheEnd(BEFORE_TRAIT, TRAIT, TRAIT_STABLE);
  }

  /** A target with a border does not have the inverse, even when it is absent from the input. */
  lemma TraitIsNotRestored()
    ensures var s := BEFORE_TRAIT + TRAIT;
            && (forall i: nat :: !Occurs(s, TRAIT_STABLE, i))
            && Replace(Replace(s, TRAIT, TRAIT_STABLE), TRAIT_STABLE, TRAIT) != s
  {
    var s := BEFORE_TRAIT + TRAIT;
    forall i: nat ensures !Occurs(s, TRAIT_STABLE, i) {
      if i + 12 <= |s| {
        assert s[i..i + 12][0] == s[i] && s[i..i + 12][1] == s[i + 1] && s[i..i + 12][11] == s[i + 11];
      }
    }
    TraitReplaced();
    var t := BEFORE_TRAIT + TRAIT_STABLE;
    assert t[0..12] == TRAIT_STABLE;
    assert Replace(t, TRAIT_STABLE, TRAIT)[0] == 'c';
  }

  lemma SwappedIsPlain()
    ensures Plain(SWAPPED)
  {
    forall i: nat ensures !Occurs(SWAPPED, "cnst:", i) && !Occurs(SWAPPED, "cnst ", i) {
      if i + 5 <= 19 { assert SWAPPED[i..i + 5][0] == SWAPPED[i] && SWAPPED[i..i + 5][1] == SWAPPED[i + 1]; }
    }
    forall i: nat ensures !Occurs(SWAPPED, BRACKETS_STABLE, i) {
      if i + 8 <= 19 { assert SWAPPED[i..i + 8][0] == SWAPPED[i]; }
    }
    forall i: nat ensures !Occurs(SWAPPED, BRACKETS_WIDE_STABLE, i) {
      if i + 9 <= 19 { assert SWAPPED[i..i + 9][0] == SWAPPED[i]; }
    }
    forall i: nat ensures !Occurs(SWAPPED, "trait _cons", i) {
      if i + 11 <= 19 { assert SWAPPED[i..i + 11][6] == SWAPPED[i + 6]; }
    }
  }

  lemma SwappedAfterTrait()
    ensures AfterTrait(SWAPPED) == UNSAFE_STABLE
  {
    assert SWAPPED == "unsafe " + TRAIT && UNSAFE_STABLE == "unsafe " + TRAIT_STABLE;
    forall i: nat | i < 7 ensures !Occurs("unsafe " + TRAIT, TRAIT, i) { assert SWAPPED[i..i + 12][0] == SWAPPED[i]; }
    ReplaceAtTheEnd("unsafe ", TRAIT, TRAIT_STABLE);
  }

  /** A text as long as the pattern, but different. */
  lemma LeftBehindWhole(from: string, to: string)
    requires |from| == |to| > 0 && from != to
    ensures LeftBehind(to, from, to, 0)
  {
    assert to[0..|to|] == to;
    forall k: nat | MatchAt(to, from, k) ensures false {
      MatchOccurs(to, from, k);
    }
  }

  /** Such a trait uses no stable spelling, and is not restored. */
  lemma SwappedIsNotRestored()
    ensures Plain(SWAPPED) && PostProcessed(PreProcessed(SWAPPED)) != SWAPPED
  {
    SwappedIsPlain();
    SwappedAfterTrait();
    assert UNSAFE[0] != UNSAFE_STABLE[0];
    LeftBehindWhole(UNSAFE, UNSAFE_STABLE);
    NotRestoredIf(SWAPPED, 0);
  }
}
