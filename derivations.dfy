/** Two notions of "a variable derives a word" and the proof that they agree
    on grammars in Chomsky Normal Form.

    - Derives(g, a, w): the Chomsky Normal Form reading, by the span of `w`:
      a one-symbol word comes from a rule a -> w, a longer word is split in two
      and each half comes from one variable of a rule a -> B C. This is what
      the CYK table computes.
    - StepsTo(g, u, v, k): `v` is reached from the sentential form `u` by
      exactly `k` rewriting steps, each replacing one variable occurrence by
      one of its right-hand sides. This is what the brute-force search
      enumerates. */
module Derivations {
  import opened ContextFreeGrammar

  /** Some rule of the grammar rewrites `a` to `e`. */
  predicate HasRule(g: Grammar, a: Symbol, e: Word) {
    exists r :: r in g.rules && r.lhs == a && r.rhs == e
  }

  predicate Derives(g: Grammar, a: Symbol, w: Word)
    decreases |w|
  {
    if |w| <= 1 then HasRule(g, a, w)
    else exists s, r | 1 <= s < |w| && r in g.rules ::
      && r.lhs == a && |r.rhs| == 2
      && Derives(g, r.rhs[0], w[..s]) && Derives(g, r.rhs[1], w[s..])
  }

  /** The word `u` with the symbol at `i` replaced by `e`. */
  function Replace(u: Word, i: nat, e: Word): (v: Word)
    requires i < |u|
    ensures |v| == |u| - 1 + |e|
  {
    u[..i] + e + u[i + 1..]
  }

  /** One rewriting step. */
  ghost predicate Step(g: Grammar, u: Word, v: Word) {
    exists i, r {:trigger Replace(u, i, r.rhs)} :: 0 <= i < |u| && r in g.rules && r.lhs == u[i] && v == Replace(u, i, r.rhs)
  }

  /** Exactly `k` rewriting steps. */
  ghost predicate StepsTo(g: Grammar, u: Word, v: Word, k: nat)
    decreases k
  {
    if k == 0 then u == v
    else exists u' :: Step(g, u, u') && StepsTo(g, u', v, k - 1)
  }

  // ---------------------------------------------------------------------
  // Basic facts about rewriting

  /** A terminal word cannot be rewritten. */
  lemma NoStepFromTerminal(g: Grammar, u: Word, v: Word)
    requires IsTerminalWord(u)
    ensures !Step(g, u, v)
  {
    forall i, r | 0 <= i < |u| && r in g.rules
      ensures r.lhs != u[i]
    {
      assert u[i] in u;
    }
  }

  /** From a terminal word only the word itself is reached, in zero steps. */
  lemma {:induction false} StepsFromTerminal(g: Grammar, u: Word, v: Word, k: nat)
    requires IsTerminalWord(u) && StepsTo(g, u, v, k)
    ensures k == 0 && v == u
  {
    if k > 0 {
      var u' :| Step(g, u, u') && StepsTo(g, u', v, k - 1);
      NoStepFromTerminal(g, u, u');
    }
  }

  lemma StepOn(g: Grammar, u: Word, i: nat, r: Rule)
    requires 0 <= i < |u| && r in g.rules && r.lhs == u[i]
    ensures Step(g, u, Replace(u, i, r.rhs))
  {
  }

  /** A step inside `u` is a step inside `x + u + y`. */
  lemma StepInContext(g: Grammar, x: Word, u: Word, v: Word, y: Word)
    requires Step(g, u, v)
    ensures Step(g, x + u + y, x + v + y)
  {
    var i, r :| 0 <= i < |u| && r in g.rules && r.lhs == u[i] && v == Replace(u, i, r.rhs);
    var xuy := x + u + y;
    assert xuy[|x| + i] == u[i];
    assert Replace(xuy, |x| + i, r.rhs) == x + v + y by {
      assert xuy[..|x| + i] == x + u[..i];
      assert xuy[|x| + i + 1..] == u[i + 1..] + y;
    }
    StepOn(g, xuy, |x| + i, r);
  }

  /** Rewriting inside a context. */
  lemma {:induction false} StepsInContext(g: Grammar, x: Word, u: Word, v: Word, y: Word, k: nat)
    requires StepsTo(g, u, v, k)
    ensures StepsTo(g, x + u + y, x + v + y, k)
    decreases k
  {
    if k > 0 {
      var u' :| Step(g, u, u') && StepsTo(g, u', v, k - 1);
      StepInContext(g, x, u, u', y);
      StepsInContext(g, x, u', v, y, k - 1);
    }
  }

  /** Derivations compose, and their lengths add. */
  lemma {:induction false} StepsTrans(g: Grammar, u: Word, v: Word, z: Word, a: nat, b: nat)
    requires StepsTo(g, u, v, a) && StepsTo(g, v, z, b)
    ensures StepsTo(g, u, z, a + b)
    decreases a
  {
    if a > 0 {
      var u' :| Step(g, u, u') && StepsTo(g, u', v, a - 1);
      StepsTrans(g, u', v, z, a - 1, b);
    }
  }

  lemma ReplaceLeft(x: Word, y: Word, i: nat, e: Word)
    requires i < |x|
    ensures (x + y)[i] == x[i] && Replace(x + y, i, e) == Replace(x, i, e) + y
  {
    assert (x + y)[..i] == x[..i];
    assert (x + y)[i + 1..] == x[i + 1..] + y;
  }

  lemma ReplaceRight(x: Word, y: Word, j: nat, e: Word)
    requires j < |y|
    ensures (x + y)[|x| + j] == y[j] && Replace(x + y, |x| + j, e) == x + Replace(y, j, e)
  {
    assert (x + y)[..|x| + j] == x + y[..j];
    assert (x + y)[|x| + j + 1..] == y[j + 1..];
  }

  /** A step followed by `k` steps is `k + 1` steps. */
  lemma StepThen(g: Grammar, u: Word, u': Word, v: Word, k: nat)
    requires Step(g, u, u') && StepsTo(g, u', v, k)
    ensures StepsTo(g, u, v, k + 1)
  {
  }

  /** The first step of a derivation of `k + 1` steps from `x + y` rewrites
      inside `x` or inside `y`. */
  lemma SplitStep(g: Grammar, x: Word, y: Word, u': Word)
    returns (left: bool, x': Word, y': Word)
    requires Step(g, x + y, u')
    ensures u' == x' + y'
    ensures left ==> Step(g, x, x') && y' == y
    ensures !left ==> x' == x && Step(g, y, y')
  {
    var xy := x + y;
    var i, r :| 0 <= i < |xy| && r in g.rules && r.lhs == xy[i] && u' == Replace(xy, i, r.rhs);
    if i < |x| {
      ReplaceLeft(x, y, i, r.rhs);
      left, x', y' := true, Replace(x, i, r.rhs), y;
      StepOn(g, x, i, r);
    } else {
      ReplaceRight(x, y, i - |x|, r.rhs);
      left, x', y' := false, x, Replace(y, i - |x|, r.rhs);
      StepOn(g, y, i - |x|, r);
    }
  }

  /** A derivation from `x + y` is a derivation from `x` beside one from `y`. */
  lemma {:induction false} Decompose(g: Grammar, x: Word, y: Word, w: Word, k: nat)
    returns (w1: Word, w2: Word, k1: nat, k2: nat)
    requires StepsTo(g, x + y, w, k)
    ensures w == w1 + w2 && k == k1 + k2
    ensures StepsTo(g, x, w1, k1) && StepsTo(g, y, w2, k2)
    decreases k
  {
    if k == 0 {
      w1, w2, k1, k2 := x, y, 0, 0;
    } else {
      var u' :| Step(g, x + y, u') && StepsTo(g, u', w, k - 1);
      var left, x', y' := SplitStep(g, x, y, u');
      var v1, v2, a1, a2 := Decompose(g, x', y', w, k - 1);
      k1, k2 := ExtendSide(g, left, x, y, x', y', v1, v2, a1, a2);
      w1, w2 := v1, v2;
    }
  }

  /** One more step on the side that the first step rewrote. */
  lemma ExtendSide(g: Grammar, left: bool, x: Word, y: Word, x': Word, y': Word, v1: Word, v2: Word, a1: nat, a2: nat)
    returns (k1: nat, k2: nat)
    requires left ==> Step(g, x, x') && y' == y
    requires !left ==> x' == x && Step(g, y, y')
    requires StepsTo(g, x', v1, a1) && StepsTo(g, y', v2, a2)
    ensures k1 + k2 == a1 + a2 + 1
    ensures StepsTo(g, x, v1, k1) && StepsTo(g, y, v2, k2)
  {
    if left {
      StepThen(g, x, x', v1, a1);
      k1, k2 := a1 + 1, a2;
    } else {
      StepThen(g, y, y', v2, a2);
      k1, k2 := a1, a2 + 1;
    }
  }

  /** Nothing but the empty word is reached from the empty word. */
  lemma NonEmptySource(g: Grammar, u: Word, v: Word, k: nat)
    requires StepsTo(g, u, v, k) && v != []
    ensures u != []
  {
    if u == [] {
      StepsFromTerminal(g, u, v, k);
    }
  }

  /** A variable with no epsilon rule, in a grammar in Chomsky Normal Form,
      never derives the empty word. */
  lemma {:induction false} NonEmptyYield(g: Grammar, b: Symbol, w: Word, k: nat)
    requires IsInChomskyNormalForm(g)
    requires !HasRule(g, b, [])
    requires StepsTo(g, [b], w, k)
    ensures w != []
    decreases k, 1
  {
    if k > 0 {
      var u' :| Step(g, [b], u') && StepsTo(g, u', w, k - 1);
      var r := FirstStep(g, b, u');
      assert r.rhs != [];
      NonEmptyFromRule(g, r, w, k - 1);
    }
  }

  /** The same from the right-hand side of a rule that is not an epsilon
      rule. */
  lemma {:induction false} NonEmptyFromRule(g: Grammar, r: Rule, w: Word, k: nat)
    requires IsInChomskyNormalForm(g)
    requires r in g.rules && r.rhs != []
    requires StepsTo(g, r.rhs, w, k)
    ensures w != []
    decreases k + 1, 0
  {
    assert IsCnfRule(g, r);
    if |r.rhs| == 1 {
      StepsFromTerminal(g, r.rhs, w, k);
    } else {
      assert r.rhs == [r.rhs[0]] + [r.rhs[1]];
      var w1, w2, k1, k2 := Decompose(g, [r.rhs[0]], [r.rhs[1]], w, k);
      OnRightHandSideNoEpsilon(g, r, 0);
      NonEmptyYield(g, r.rhs[0], w1, k1);
    }
  }

  lemma VariableNotInTerminal(a: Symbol, w: Word)
    requires a.Variable? && IsTerminalWord(w)
    ensures [a] != w
  {
    if |w| == 1 {
      assert w[0] in w;
    }
  }

  /** The only step from a one-symbol form applies a rule of that symbol. */
  lemma FirstStep(g: Grammar, a: Symbol, u: Word) returns (r: Rule)
    requires Step(g, [a], u)
    ensures r in g.rules && r.lhs == a && u == r.rhs
  {
    var i, r' :| 0 <= i < 1 && r' in g.rules && r'.lhs == [a][i] && u == Replace([a], i, r'.rhs);
    r := r';
    assert Replace([a], 0, r.rhs) == r.rhs;
  }

  /** A derivation of k+1 steps from one symbol begins with one of its rules. */
  lemma FirstRule(g: Grammar, a: Symbol, w: Word, k: nat) returns (r: Rule)
    requires StepsTo(g, [a], w, k + 1)
    ensures r in g.rules && r.lhs == a && StepsTo(g, r.rhs, w, k)
  {
    var u' :| Step(g, [a], u') && StepsTo(g, u', w, k);
    r := FirstStep(g, a, u');
  }

  /** A derivation of k+1 steps begins by rewriting some position by a rule. */
  lemma FirstRewrite(g: Grammar, u: Word, w: Word, k: nat) returns (i: nat, r: Rule)
    requires StepsTo(g, u, w, k + 1)
    ensures i < |u| && r in g.rules && r.lhs == u[i] && StepsTo(g, Replace(u, i, r.rhs), w, k)
  {
    var u' :| Step(g, u, u') && StepsTo(g, u', w, k);
    i, r :| 0 <= i < |u| && r in g.rules && r.lhs == u[i] && u' == Replace(u, i, r.rhs);
  }

  /** Rewriting position `i` by a rule and then `k` steps make k+1 steps. */
  lemma RewriteThen(g: Grammar, u: Word, i: nat, r: Rule, w: Word, k: nat)
    requires i < |u| && r in g.rules && r.lhs == u[i] && StepsTo(g, Replace(u, i, r.rhs), w, k)
    ensures StepsTo(g, u, w, k + 1)
  {
    StepOn(g, u, i, r);
    StepThen(g, u, Replace(u, i, r.rhs), w, k);
  }

  /** A rule of `a` followed by `k` steps from its right-hand side makes
      k+1 steps from `a`. */
  lemma RuleThen(g: Grammar, r: Rule, w: Word, k: nat)
    requires r in g.rules && StepsTo(g, r.rhs, w, k)
    ensures StepsTo(g, [r.lhs], w, k + 1)
  {
    assert Replace([r.lhs], 0, r.rhs) == r.rhs;
    RewriteThen(g, [r.lhs], 0, r, w, k);
  }

  /** A variable on a right-hand side has no epsilon rule. */
  lemma OnRightHandSideNoEpsilon(g: Grammar, r: Rule, p: nat)
    requires IsInChomskyNormalForm(g) && r in g.rules && p < |r.rhs|
    ensures !HasRule(g, r.rhs[p], [])
  {
  }

  // ---------------------------------------------------------------------
  // The agreement theorems

  /** Every rule is a one-step derivation from its variable. */
  lemma RuleStep(g: Grammar, r: Rule)
    requires r in g.rules
    ensures StepsTo(g, [r.lhs], r.rhs, 1)
  {
    assert Replace([r.lhs], 0, r.rhs) == r.rhs;
    StepOn(g, [r.lhs], 0, r);
    StepThen(g, [r.lhs], r.rhs, r.rhs, 0);
  }

  lemma StepsLeft(g: Grammar, u: Word, v: Word, y: Word, k: nat)
    requires StepsTo(g, u, v, k)
    ensures StepsTo(g, u + y, v + y, k)
  {
    StepsInContext(g, [], u, v, y, k);
    assert [] + u + y == u + y && [] + v + y == v + y;
  }

  lemma StepsRight(g: Grammar, x: Word, u: Word, v: Word, k: nat)
    requires StepsTo(g, u, v, k)
    ensures StepsTo(g, x + u, x + v, k)
  {
    StepsInContext(g, x, u, v, [], k);
    assert x + u + [] == x + u && x + v + [] == x + v;
  }

  /** A binary rule followed by derivations of its two variables. */
  lemma CombineSteps(g: Grammar, r: Rule, w1: Word, w2: Word, k1: nat, k2: nat)
    requires r in g.rules && |r.rhs| == 2
    requires StepsTo(g, [r.rhs[0]], w1, k1) && StepsTo(g, [r.rhs[1]], w2, k2)
    ensures StepsTo(g, [r.lhs], w1 + w2, 1 + k1 + k2)
  {
    assert r.rhs == [r.rhs[0]] + [r.rhs[1]];
    StepsConcat(g, [r.rhs[0]], [r.rhs[1]], w1, w2, k1, k2);
    RuleStep(g, r);
    StepsTrans(g, [r.lhs], r.rhs, w1 + w2, 1, k1 + k2);
  }

  /** Derivations from `x` and from `y` side by side are a derivation from
      `x + y`. */
  lemma StepsConcat(g: Grammar, x: Word, y: Word, v1: Word, v2: Word, k1: nat, k2: nat)
    requires StepsTo(g, x, v1, k1) && StepsTo(g, y, v2, k2)
    ensures StepsTo(g, x + y, v1 + v2, k1 + k2)
  {
    StepsLeft(g, x, v1, y, k1);
    StepsRight(g, v1, y, v2, k2);
    StepsTrans(g, x + y, v1 + y, v1 + v2, k1, k2);
  }

  /** A Chomsky Normal Form derivation of a word of length n >= 1 is a
      rewriting derivation of exactly 2n - 1 steps. */
  lemma {:induction false} DerivesToSteps(g: Grammar, a: Symbol, w: Word)
    requires |w| >= 1 && Derives(g, a, w)
    ensures StepsTo(g, [a], w, 2 * |w| - 1)
    decreases |w|
  {
    if |w| == 1 {
      var r :| r in g.rules && r.lhs == a && r.rhs == w;
      RuleStep(g, r);
    } else {
      var s, r :| 1 <= s < |w| && r in g.rules && r.lhs == a && |r.rhs| == 2
        && Derives(g, r.rhs[0], w[..s]) && Derives(g, r.rhs[1], w[s..]);
      DerivesToSteps(g, r.rhs[0], w[..s]);
      DerivesToSteps(g, r.rhs[1], w[s..]);
      CombineSpans(g, r, w, s, 2 * s - 1, 2 * (|w| - s) - 1, 2 * |w| - 1);
    }
  }

  /** A binary rule over the two parts of `w` split at `s`. */
  lemma CombineSpans(g: Grammar, r: Rule, w: Word, s: nat, k1: nat, k2: nat, k: nat)
    requires r in g.rules && |r.rhs| == 2 && 1 <= s < |w| && k == 1 + k1 + k2
    requires StepsTo(g, [r.rhs[0]], w[..s], k1) && StepsTo(g, [r.rhs[1]], w[s..], k2)
    ensures StepsTo(g, [r.lhs], w, k)
  {
    CombineSteps(g, r, w[..s], w[s..], k1, k2);
    assert w[..s] + w[s..] == w;
  }

  /** Conversely, in a grammar in Chomsky Normal Form, every rewriting
      derivation of a non-empty terminal word from one variable is a
      Chomsky Normal Form derivation, and it has exactly 2n - 1 steps. */
  lemma {:induction false} StepsToDerives(g: Grammar, a: Symbol, w: Word, k: nat)
    requires IsInChomskyNormalForm(g)
    requires a.Variable? && |w| >= 1 && IsTerminalWord(w)
    requires StepsTo(g, [a], w, k)
    ensures Derives(g, a, w) && k == 2 * |w| - 1
    decreases k, 1
  {
    VariableNotInTerminal(a, w);
    var r := FirstRule(g, a, w, k - 1);
    NonEmptySource(g, r.rhs, w, k - 1);
    RuleStepsToDerives(g, r, w, k - 1);
  }

  /** The same, once the first step has applied the rule `r`. */
  lemma {:induction false} RuleStepsToDerives(g: Grammar, r: Rule, w: Word, k: nat)
    requires IsInChomskyNormalForm(g)
    requires r in g.rules && r.rhs != [] && |w| >= 1 && IsTerminalWord(w)
    requires StepsTo(g, r.rhs, w, k)
    ensures Derives(g, r.lhs, w) && k + 1 == 2 * |w| - 1
    decreases k + 1, 0
  {
    assert IsCnfRule(g, r);
    if |r.rhs| == 1 {
      StepsFromTerminal(g, r.rhs, w, k);
      assert HasRule(g, r.lhs, w);
    } else {
      var b, c := r.rhs[0], r.rhs[1];
      assert r.rhs == [b] + [c];
      var w1, w2, k1, k2 := Decompose(g, [b], [c], w, k);
      assert w1 != [] && w2 != [] by {
        OnRightHandSideNoEpsilon(g, r, 0);
        OnRightHandSideNoEpsilon(g, r, 1);
        NonEmptyYield(g, b, w1, k1);
        NonEmptyYield(g, c, w2, k2);
      }
      assert IsTerminalWord(w1) && IsTerminalWord(w2) by {
        assert forall x :: x in w1 ==> x in w;
        assert forall x :: x in w2 ==> x in w;
      }
      StepsToDerives(g, b, w1, k1);
      StepsToDerives(g, c, w2, k2);
      var s := |w1|;
      assert w[..s] == w1 && w[s..] == w2;
    }
  }

  /** The recognizers' common specification: for a grammar in Chomsky Normal
      Form and a non-empty terminal word, the Chomsky Normal Form derivation
      exists exactly when a rewriting derivation of 2n - 1 steps does. */
  lemma DerivesIffSteps(g: Grammar, w: Word)
    requires IsInChomskyNormalForm(g)
    requires |w| >= 1 && IsTerminalWord(w)
    ensures Derives(g, g.start, w) <==> StepsTo(g, [g.start], w, 2 * |w| - 1)
  {
    if Derives(g, g.start, w) {
      DerivesToSteps(g, g.start, w);
    }
    if StepsTo(g, [g.start], w, 2 * |w| - 1) {
      StepsToDerives(g, g.start, w, 2 * |w| - 1);
    }
  }

  /** Every rewriting derivation of a non-empty terminal word from a variable
      has exactly 2n - 1 steps. */
  lemma DerivationLength(g: Grammar, a: Symbol, w: Word, k: nat)
    requires IsInChomskyNormalForm(g)
    requires a.Variable? && |w| >= 1 && IsTerminalWord(w)
    requires StepsTo(g, [a], w, k)
    ensures k == 2 * |w| - 1
  {
    StepsToDerives(g, a, w, k);
  }

  /** Every symbol of a derived word is the whole right-hand side of some
      rule. */
  lemma {:induction false} DerivedSymbolHasRule(g: Grammar, a: Symbol, w: Word, p: nat) returns (v: Symbol)
    requires Derives(g, a, w) && p < |w|
    ensures HasRule(g, v, [w[p]])
    decreases |w|
  {
    if |w| <= 1 {
      assert w == [w[p]];
      v := a;
    } else {
      var s, r :| 1 <= s < |w| && r in g.rules && r.lhs == a && |r.rhs| == 2
        && Derives(g, r.rhs[0], w[..s]) && Derives(g, r.rhs[1], w[s..]);
      if p < s {
        v := DerivedSymbolHasRule(g, r.rhs[0], w[..s], p);
      } else {
        v := DerivedSymbolHasRule(g, r.rhs[1], w[s..], p - s);
      }
    }
  }

  /** A rule for one symbol derives that symbol. */
  lemma DerivesByRule(g: Grammar, r: Rule)
    requires r in g.rules && |r.rhs| == 1
    ensures Derives(g, r.lhs, r.rhs)
  {
  }

  /** A rule a -> B C with B deriving the first `s` symbols of `w` and C
      the rest derives `w`. */
  lemma DerivesBySplit(g: Grammar, r: Rule, w: Word, s: nat)
    requires r in g.rules && |r.rhs| == 2 && 1 <= s < |w|
    requires Derives(g, r.rhs[0], w[..s]) && Derives(g, r.rhs[1], w[s..])
    ensures Derives(g, r.lhs, w)
  {
  }
}
