/** The rewriting rules and the two pipelines built from them. */
module RewriteRules {
  import opened Rewrite
  import opened RewriteInverse
  import opened RewriteOverlay

  const TRAIT: string := "const trait "
  const TRAIT_STABLE: string := "trait _const"
  const UNSAFE: string := "const unsafe trait "
  const UNSAFE_STABLE: string := "unsafe trait _const"
  const IMPL: string := "> const "
  const IMPL_STABLE: string := "> cnst::"
  const IMPL_WIDE: string := "> const  "
  const IMPL_WIDE_STABLE: string := "> cnst ::"
  const BRACKETS: string := "[const] "
  const BRACKETS_STABLE: string := "BRCONST+"
  const BRACKETS_WIDE: string := " [const] "
  const BRACKETS_WIDE_STABLE: string := "BRCONST +"
  const FUNCTION_STABLE: string := "cnst::fn"
  const FUNCTION: string := "const fn"

  function Reverted(s: string): string {
    var s := Replace(s, "pub cnst::", "pub const ");
    var s := Replace(s, "pub cnst ::", "pub const  ");
    var s := Replace(s, ") cnst::", ") const ");
    var s := Replace(s, ") cnst ::", ") const  ");
    Replace(s, FUNCTION_STABLE, FUNCTION)
  }

  function PreProcessed(s: string): string {
    var s := Replace(s, TRAIT, TRAIT_STABLE);
    var s := Replace(s, UNSAFE, UNSAFE_STABLE);
    var s := Replace(s, IMPL, IMPL_STABLE);
    var s := Replace(s, IMPL_WIDE, IMPL_WIDE_STABLE);
    var s := Reverted(s);
    var s := Replace(s, BRACKETS, BRACKETS_STABLE);
    Replace(s, BRACKETS_WIDE, BRACKETS_WIDE_STABLE)
  }

  /** The impl and bracket rules backwards. */
  function Unmarked(s: string): string {
    var s := Replace(s, IMPL_STABLE, IMPL);
    var s := Replace(s, IMPL_WIDE_STABLE, IMPL_WIDE);
    var s := Replace(s, BRACKETS_STABLE, BRACKETS);
    Replace(s, BRACKETS_WIDE_STABLE, BRACKETS_WIDE)
  }

  function PostProcessed(s: string): string {
    var s := Replace(s, UNSAFE_STABLE, UNSAFE);
    var s := Replace(s, TRAIT_STABLE, TRAIT);
    Unmarked(s)
  }

  /** Every rule in turn, in place. */
  method PreProcess(a: array<char>)
    modifies a
    ensures a[..] == PreProcessed(old(a[..]))
  {
    ReplaceInplace(a, TRAIT, TRAIT_STABLE);
    ReplaceInplace(a, UNSAFE, UNSAFE_STABLE);
    ReplaceInplace(a, IMPL, IMPL_STABLE);
    ReplaceInplace(a, IMPL_WIDE, IMPL_WIDE_STABLE);
    ReplaceInplace(a, "pub cnst::", "pub const ");
    ReplaceInplace(a, "pub cnst ::", "pub const  ");
    ReplaceInplace(a, ") cnst::", ") const ");
    ReplaceInplace(a, ") cnst ::", ") const  ");
    ReplaceInplace(a, FUNCTION_STABLE, FUNCTION);
    ReplaceInplace(a, BRACKETS, BRACKETS_STABLE);
    ReplaceInplace(a, BRACKETS_WIDE, BRACKETS_WIDE_STABLE);
  }

  method PostProcess(a: array<char>)
    modifies a
    ensures a[..] == PostProcessed(old(a[..]))
  {
    ReplaceInplace(a, UNSAFE_STABLE, UNSAFE);
    ReplaceInplace(a, TRAIT_STABLE, TRAIT);
    ReplaceInplace(a, IMPL_STABLE, IMPL);
    ReplaceInplace(a, IMPL_WIDE_STABLE, IMPL_WIDE);
    ReplaceInplace(a, BRACKETS_STABLE, BRACKETS);
    ReplaceInplace(a, BRACKETS_WIDE_STABLE, BRACKETS_WIDE);
  }

  // ---------- each rule by itself ----------

  /** A pattern whose first character does not come back has no overlap with `a`. */
  lemma NoOverlapByFirst(a: string, b: string)
    requires b != [] && forall i | 0 < i < |a| :: a[i] != b[0]
    ensures NoOverlap(a, b)
  {
    forall m | 0 < m < |a| && m < |b| ensures a[|a| - m..] != b[..m] {
      assert a[|a| - m..][0] == a[|a| - m];
    }
  }

  lemma NearlyBorderlessByTwo(p: string)
    requires |p| > 1 && forall i | 0 < i < |p| - 1 :: p[i] != p[0] || p[i + 1] != p[1]
    ensures NearlyBorderless(p)
  {
    forall m | 1 < m < |p| ensures p[|p| - m..] != p[..m] {
      assert p[|p| - m..][0] == p[|p| - m] && p[|p| - m..][1] == p[|p| - m + 1];
      assert p[..m][0] == p[0] && p[..m][1] == p[1];
    }
  }

  lemma BracketsRestore(s: string)
    ensures Replace(Replace(s, BRACKETS, BRACKETS_STABLE), BRACKETS_STABLE, BRACKETS) == s
            <==> Restorable(s, BRACKETS, BRACKETS_STABLE)
  {
    NoOverlapByFirst(BRACKETS_STABLE, BRACKETS_STABLE);
    assert BRACKETS[0] != BRACKETS_STABLE[0];
    BorderlessRestores(s, BRACKETS, BRACKETS_STABLE);
  }

  lemma ImplRestores(s: string)
    ensures Replace(Replace(s, IMPL, IMPL_STABLE), IMPL_STABLE, IMPL) == s <==> Restorable(s, IMPL, IMPL_STABLE)
  {
    NoOverlapByFirst(IMPL_STABLE, IMPL_STABLE);
    assert IMPL[3] != IMPL_STABLE[3];
    BorderlessRestores(s, IMPL, IMPL_STABLE);
  }

  lemma UnsafeRestores(s: string)
    ensures Replace(Replace(s, UNSAFE, UNSAFE_STABLE), UNSAFE_STABLE, UNSAFE) == s <==> Restorable(s, UNSAFE, UNSAFE_STABLE)
  {
    NoOverlapByFirst(UNSAFE_STABLE, UNSAFE_STABLE);
    assert UNSAFE[0] != UNSAFE_STABLE[0];
    BorderlessRestores(s, UNSAFE, UNSAFE_STABLE);
  }

  /** The stable spelling of the trait rule ends as it begins, so it can also be completed by a
      replacement: the rule is undone exactly when neither happens. */
  lemma TraitRestores(s: string)
    ensures Replace(Replace(s, TRAIT, TRAIT_STABLE), TRAIT_STABLE, TRAIT) == s <==> Undoable(s, TRAIT, TRAIT_STABLE)
  {
    NearlyBorderlessByTwo(TRAIT_STABLE);
    assert TRAIT[..11][0] != TRAIT_STABLE[..11][0];
    ReplacingBackRestores(s, TRAIT, TRAIT_STABLE);
  }

  /** A rule whose pattern contains an eliminated pattern never fires. */
  lemma ContainedRuleIsDead(s: string, from: string, to: string, wide: string, wideTo: string, at: nat)
    requires |from| == |to| > 0 && from != to && NoOverlap(from, to) && NoOverlap(to, from)
    requires |wide| == |wideTo| && Occurs(wide, from, at)
    ensures Replace(Replace(s, from, to), wide, wideTo) == Replace(s, from, to)
  {
    var t := Replace(s, from, to);
    forall i: nat ensures !Occurs(t, from, i) { ReplacementEliminates(s, from, to, i); }
    PartAbsent(t, from, wide, at);
    NothingToReplace(t, wide, wideTo);
  }

  /** The wide variants of the two rules never fire after the narrow ones. */
  lemma WideRulesAreDead(s: string)
    ensures Replace(Replace(s, IMPL, IMPL_STABLE), IMPL_WIDE, IMPL_WIDE_STABLE) == Replace(s, IMPL, IMPL_STABLE)
    ensures Replace(Replace(s, BRACKETS, BRACKETS_STABLE), BRACKETS_WIDE, BRACKETS_WIDE_STABLE)
            == Replace(s, BRACKETS, BRACKETS_STABLE)
  {
    NoOverlapByFirst(IMPL, IMPL_STABLE);
    NoOverlapByFirst(IMPL_STABLE, IMPL);
    assert IMPL[3] != IMPL_STABLE[3];
    ContainedRuleIsDead(s, IMPL, IMPL_STABLE, IMPL_WIDE, IMPL_WIDE_STABLE, 0);
    NoOverlapByFirst(BRACKETS, BRACKETS_STABLE);
    NoOverlapByFirst(BRACKETS_STABLE, BRACKETS);
    assert BRACKETS[0] != BRACKETS_STABLE[0];
    ContainedRuleIsDead(s, BRACKETS, BRACKETS_STABLE, BRACKETS_WIDE, BRACKETS_WIDE_STABLE, 1);
  }
}
