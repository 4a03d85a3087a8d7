/** A priority-ordered rule list applied the way `extraer_producto_principal` does
    it: each output starts at a default label and every rule, in list order,
    overwrites the outputs that match it and still hold the default. */
module FirstMatch {
  import opened Prelude

  /** `out.mask(mask & (out == default), label)` on one output. */
  function Step(cur: string, hit: bool, mark: string, default: string): (r: string)
    ensures cur != default ==> r == cur
    ensures cur == default ==> r == (if hit then mark else default)
  {
    if hit && cur == default then mark else cur
  }

  /** The output after the rules have been applied one after the other. */
  function Fold<R, X>(rules: seq<(R, string)>, holds: (R, X) -> bool, x: X, default: string): string
    decreases |rules|
  {
    if rules == [] then default
    else
      var last := rules[|rules| - 1];
      Step(Fold(rules[..|rules| - 1], holds, x, default), holds(last.0, x), last.1, default)
  }

  /** Applying one more rule of the list to the output of the rules before it. */
  lemma FoldPrefix<R, X>(rules: seq<(R, string)>, holds: (R, X) -> bool, x: X, default: string, k: nat)
    requires k < |rules|
    ensures Fold(rules[..k + 1], holds, x, default)
      == Step(Fold(rules[..k], holds, x, default), holds(rules[k].0, x), rules[k].1, default)
  {
    assert rules[..k + 1][..k] == rules[..k];
  }

  /** The masking loop over a column: `out` starts as the default everywhere and each
      rule, in list order, fills the entries it matches that still hold the default. */
  method ApplyRules<R, X>(rules: seq<(R, string)>, holds: (R, X) -> bool, xs: seq<X>, default: string)
    returns (out: seq<string>)
    ensures |out| == |xs|
    ensures forall i :: 0 <= i < |xs| ==> out[i] == Fold(rules, holds, xs[i], default)
  {
    out := seq(|xs|, i => default);
    var k := 0;
    while k < |rules|
      invariant 0 <= k <= |rules|
      invariant |out| == |xs|
      invariant forall i :: 0 <= i < |xs| ==> out[i] == Fold(rules[..k], holds, xs[i], default)
    {
      var pat := rules[k].0;
      var mark := rules[k].1;
      var prev := out;
      out := seq(|xs|, i requires 0 <= i < |xs| && |prev| == |xs| =>
        if holds(pat, xs[i]) && prev[i] == default then mark else prev[i]);
      forall i | 0 <= i < |xs|
        ensures out[i] == Fold(rules[..k + 1], holds, xs[i], default)
      {
        FoldPrefix(rules, holds, xs[i], default, k);
      }
      k := k + 1;
    }
    assert rules[..k] == rules;
  }

  /** Rule k is the first one, in list order, that holds for x. */
  predicate IsFirstHit<R, X>(rules: seq<(R, string)>, holds: (R, X) -> bool, x: X, k: int)
  {
    && 0 <= k < |rules|
    && holds(rules[k].0, x)
    && forall j :: 0 <= j < k ==> !holds(rules[j].0, x)
  }

  predicate NoHit<R, X>(rules: seq<(R, string)>, holds: (R, X) -> bool, x: X)
  {
    forall j :: 0 <= j < |rules| ==> !holds(rules[j].0, x)
  }

  /** When no rule carries the default label, folding gives the label of the first rule
      that holds, and the default exactly when none does: a later rule never overwrites
      an earlier match. */
  lemma {:induction false} FoldFirst<R, X>(rules: seq<(R, string)>, holds: (R, X) -> bool, x: X, default: string)
    requires forall j :: 0 <= j < |rules| ==> rules[j].1 != default
    ensures Fold(rules, holds, x, default) == default <==> NoHit(rules, holds, x)
    ensures forall k :: IsFirstHit(rules, holds, x, k) ==> Fold(rules, holds, x, default) == rules[k].1
    decreases |rules|
  {
    if rules != [] {
      var n := |rules|;
      var init := rules[..n - 1];
      assert forall j :: 0 <= j < n - 1 ==> init[j] == rules[j];
      FoldFirst(init, holds, x, default);
      var before := Fold(init, holds, x, default);
      if before == default {
        assert NoHit(init, holds, x);
      } else {
        assert !NoHit(init, holds, x);
        var j :| 0 <= j < n - 1 && holds(init[j].0, x);
        FirstExists(init, holds, x, j);
        var f :| IsFirstHit(init, holds, x, f);
        assert IsFirstHit(rules, holds, x, f);
        forall k | IsFirstHit(rules, holds, x, k)
          ensures Fold(rules, holds, x, default) == rules[k].1
        {
          FirstUnique(rules, holds, x, k, f);
        }
      }
    }
  }

  /** When some rule holds, a first one exists. */
  lemma {:induction false} FirstExists<R, X>(rules: seq<(R, string)>, holds: (R, X) -> bool, x: X, j: nat)
    requires j < |rules| && holds(rules[j].0, x)
    ensures exists k :: IsFirstHit(rules, holds, x, k)
    decreases j
  {
    if exists i :: 0 <= i < j && holds(rules[i].0, x) {
      var i :| 0 <= i < j && holds(rules[i].0, x);
      FirstExists(rules, holds, x, i);
    } else {
      assert IsFirstHit(rules, holds, x, j);
    }
  }

  lemma FirstUnique<R, X>(rules: seq<(R, string)>, holds: (R, X) -> bool, x: X, a: int, b: int)
    requires IsFirstHit(rules, holds, x, a) && IsFirstHit(rules, holds, x, b)
    ensures a == b
  {
  }
}
