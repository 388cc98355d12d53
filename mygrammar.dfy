/** The arithmetic-expression grammar of the repository: sums (E G, G -> P T),
    products (T H, H -> M F) and negated constants (N C) over the terminals
    + * − 1 0 x, with start variable S. The lemmas check it against the
    general definitions and settle a few words of its language. */
module MyGrammar {
  import opened ContextFreeGrammar
  import opened Derivations
  import Parser
  import CYKParser

  // Terminals. Negation is U+2212 MINUS SIGN, not the ASCII hyphen.
  const Plus: TerminalSymbol := Terminal('+')
  const Multiply: TerminalSymbol := Terminal('*')
  const Negate: TerminalSymbol := Terminal('\U{2212}')
  const One: TerminalSymbol := Terminal('1')
  const Zero: TerminalSymbol := Terminal('0')
  const X: TerminalSymbol := Terminal('x')

  // Variables.
  const S: VariableSymbol := Variable('S')
  const E: VariableSymbol := Variable('E')
  const T: VariableSymbol := Variable('T')
  const F: VariableSymbol := Variable('F')
  const H: VariableSymbol := Variable('H')
  const G: VariableSymbol := Variable('G')
  const C: VariableSymbol := Variable('C')
  const P: VariableSymbol := Variable('P')
  const M: VariableSymbol := Variable('M')
  const N: VariableSymbol := Variable('N')

  const Terminals: set<TerminalSymbol> := {Plus, Multiply, Negate, One, Zero, X}
  const Variables: set<VariableSymbol> := {S, E, T, F, G, H, C, P, M, N}

  /** The rules in declaration order. */
  const Rules: seq<Rule> := [
    Rule(S, [E, G]), Rule(S, [T, H]), Rule(S, [N, C]), Rule(S, [One]), Rule(S, [Zero]), Rule(S, [X]),
    Rule(E, [E, G]), Rule(E, [T, H]), Rule(E, [N, C]), Rule(E, [One]), Rule(E, [Zero]), Rule(E, [X]),
    Rule(T, [T, H]), Rule(T, [N, C]), Rule(T, [One]), Rule(T, [Zero]), Rule(T, [X]),
    Rule(F, [N, C]), Rule(F, [One]), Rule(F, [Zero]), Rule(F, [X]),
    Rule(G, [P, T]),
    Rule(H, [M, F]),
    Rule(C, [One]), Rule(C, [Zero]), Rule(C, [X]),
    Rule(P, [Plus]),
    Rule(M, [Multiply]),
    Rule(N, [Negate])
  ]

  function MakeGrammar(): (g: Grammar)
    ensures g.start == S && g.variables == Variables && g.terminals == Terminals
    ensures |g.rules| == 29 && g.rules[0] == Rule(S, [E, G]) && g.rules[28] == Rule(N, [Negate])
  {
    Grammar(Variables, Terminals, Rules, S)
  }

  // ---------------------------------------------------------------------
  // The grammar against the general definitions

  /** Rule by rule: the variable is declared, and the right-hand side is one
      declared terminal or two declared variables. */
  lemma RuleShapes()
    ensures forall i :: 0 <= i < |Rules| ==> Rules[i].lhs in Variables
    ensures forall i :: 0 <= i < |Rules| ==>
      || (|Rules[i].rhs| == 1 && Rules[i].rhs[0] in Terminals)
      || (|Rules[i].rhs| == 2 && Rules[i].rhs[0] in Variables && Rules[i].rhs[1] in Variables)
  {
  }

  /** The symbols of a rule of one of the two shapes are declared. */
  lemma ShapedIsDeclared(r: Rule)
    requires r.lhs in Variables
    requires || (|r.rhs| == 1 && r.rhs[0] in Terminals)
             || (|r.rhs| == 2 && r.rhs[0] in Variables && r.rhs[1] in Variables)
    ensures forall s :: s in r.rhs ==> s in Variables || s in Terminals
  {
    forall s | s in r.rhs
      ensures s in Variables || s in Terminals
    {
      var k :| 0 <= k < |r.rhs| && r.rhs[k] == s;
    }
  }

  /** Rule by rule: `+` comes only from P. */
  lemma PlusRules()
    ensures forall i :: 0 <= i < |Rules| && |Rules[i].rhs| == 1 && Rules[i].rhs[0] == Plus ==> Rules[i].lhs == P
  {
  }

  /** Rule by rule: the minus sign comes only from N. */
  lemma NegateRules()
    ensures forall i :: 0 <= i < |Rules| && |Rules[i].rhs| == 1 && Rules[i].rhs[0] == Negate ==> Rules[i].lhs == N
  {
  }

  /** Rule by rule: no right-hand side is empty or the ASCII hyphen. */
  lemma NoEmptyOrHyphenRules()
    ensures forall i :: 0 <= i < |Rules| ==> Rules[i].rhs != [] && Rules[i].rhs != [Terminal('-')]
  {
  }

  /** The position of a rule in the list. */
  lemma RuleAt(r: Rule) returns (i: nat)
    requires r in Rules
    ensures i < |Rules| && Rules[i] == r
  {
    i :| 0 <= i < |Rules| && Rules[i] == r;
  }

  /** A one-symbol word derived by a rule v -> t. */
  lemma Unit(v: VariableSymbol, t: Symbol, u: Word)
    requires Rule(v, [t]) in Rules && |u| == 1 && u[0] == t
    ensures Derives(MakeGrammar(), v, u)
  {
    assert u == [t];
    DerivesByRule(MakeGrammar(), Rule(v, [t]));
  }

  /** A word derived by a rule v -> B C, B deriving its first `s` symbols
      and C the rest. */
  lemma Pair(v: VariableSymbol, b: Symbol, c: Symbol, w: Word, s: nat)
    requires Rule(v, [b, c]) in Rules && 1 <= s < |w|
    requires Derives(MakeGrammar(), b, w[..s]) && Derives(MakeGrammar(), c, w[s..])
    ensures Derives(MakeGrammar(), v, w)
  {
    DerivesBySplit(MakeGrammar(), Rule(v, [b, c]), w, s);
  }

  /** Every rule's variable is declared and every right-hand-side symbol is
      a declared variable or terminal. */
  lemma IsWellFormed()
    ensures WellFormed(MakeGrammar())
  {
    forall r | r in Rules
      ensures r.lhs in Variables && forall s :: s in r.rhs ==> s in Variables || s in Terminals
    {
      var i := RuleAt(r);
      RuleShapes();
      ShapedIsDeclared(r);
    }
  }

  /** Every rule is a terminal rule or a rule for two variables. */
  lemma IsCnf()
    ensures IsInChomskyNormalForm(MakeGrammar())
  {
    NoEpsilonRule();
    forall r | r in Rules
      ensures IsCnfRule(MakeGrammar(), r)
    {
      var i := RuleAt(r);
      RuleShapes();
    }
  }

  /** There is no rule with an empty right-hand side. */
  lemma NoEpsilonRule()
    ensures !HasEpsilonRule(MakeGrammar())
  {
    forall r | r in Rules
      ensures r.rhs != []
    {
      var i := RuleAt(r);
      NoEmptyOrHyphenRules();
    }
  }

  /** So no rewriting derivation from S, of any length, ends in the empty
      word. */
  lemma NoEmptyWord()
    ensures forall k :: !StepsTo(MakeGrammar(), [S], [], k)
  {
    NoEpsilonRule();
    forall k | StepsTo(MakeGrammar(), [S], [], k)
      ensures false
    {
      IsCnf();
      NonEmptyYield(MakeGrammar(), S, [], k);
    }
  }

  // ---------------------------------------------------------------------
  // Producers of single terminals

  /** Only P rewrites to `+`. */
  lemma OnlyPYieldsPlus(v: Symbol)
    ensures HasRule(MakeGrammar(), v, [Plus]) <==> v == P
  {
    forall r | r in Rules && r.rhs == [Plus]
      ensures r.lhs == P
    {
      var i := RuleAt(r);
      PlusRules();
    }
    assert Rule(P, [Plus]) in Rules;
  }

  /** A variable other than P does not rewrite to a word that is just `+`. */
  lemma PlusOnlyFromP(v: Symbol, u: Word)
    requires |u| == 1 && u[0] == Plus && v != P
    ensures !HasRule(MakeGrammar(), v, u)
  {
    forall r | r in Rules && r.lhs == v
      ensures r.rhs != u
    {
      var i := RuleAt(r);
      PlusRules();
    }
  }

  /** Only N rewrites to the minus sign. */
  lemma OnlyNYieldsNegate(v: Symbol)
    ensures HasRule(MakeGrammar(), v, [Negate]) <==> v == N
  {
    forall r | r in Rules && r.rhs == [Negate]
      ensures r.lhs == N
    {
      var i := RuleAt(r);
      NegateRules();
    }
    assert Rule(N, [Negate]) in Rules;
  }

  /** No rule rewrites to the ASCII hyphen. */
  lemma NoRuleYieldsHyphen(v: Symbol)
    ensures !HasRule(MakeGrammar(), v, [Terminal('-')])
  {
    forall r | r in Rules
      ensures r.rhs != [Terminal('-')]
    {
      var i := RuleAt(r);
      NoEmptyOrHyphenRules();
    }
  }

  // ---------------------------------------------------------------------
  // Words of the language

  lemma Constants()
    ensures Derives(MakeGrammar(), S, [X])
    ensures Derives(MakeGrammar(), S, [Zero])
    ensures Derives(MakeGrammar(), S, [One])
  {
    Unit(S, X, [X]);
    Unit(S, Zero, [Zero]);
    Unit(S, One, [One]);
  }

  /** `+x` comes from G by G -> P T, P -> +, T -> x. */
  lemma PlusX(w: Word)
    requires |w| == 2 && w[0] == Plus && w[1] == X
    ensures Derives(MakeGrammar(), G, w)
  {
    Unit(P, Plus, w[..1]);
    Unit(T, X, w[1..]);
    Pair(G, P, T, w, 1);
  }

  /** `x+x` comes from S by S -> E G, E -> x and G =>* `+x`. */
  lemma SumOfTwo()
    ensures Derives(MakeGrammar(), S, [X, Plus, X])
  {
    var w := [X, Plus, X];
    Unit(E, X, w[..1]);
    PlusX(w[1..]);
    Pair(S, E, G, w, 1);
  }

  /** `*x` comes from H by H -> M F, M -> *, F -> x. */
  lemma TimesX(w: Word)
    requires |w| == 2 && w[0] == Multiply && w[1] == X
    ensures Derives(MakeGrammar(), H, w)
  {
    Unit(M, Multiply, w[..1]);
    Unit(F, X, w[1..]);
    Pair(H, M, F, w, 1);
  }

  /** `x*x` comes from E by E -> T H, T -> x and H =>* `*x`. */
  lemma ProductOfTwo(w: Word)
    requires |w| == 3 && w[0] == X && w[1] == Multiply && w[2] == X
    ensures Derives(MakeGrammar(), E, w)
  {
    Unit(T, X, w[..1]);
    TimesX(w[1..]);
    Pair(E, T, H, w, 1);
  }

  /** `x*x+x` comes from S by S -> E G, E =>* `x*x` and G =>* `+x`. */
  lemma ProductPlusX()
    ensures Derives(MakeGrammar(), S, [X, Multiply, X, Plus, X])
  {
    var w := [X, Multiply, X, Plus, X];
    ProductOfTwo(w[..3]);
    PlusX(w[3..]);
    Pair(S, E, G, w, 3);
  }

  /** The rules for S with two variables begin with E, T or N. */
  lemma StartPairs()
    ensures forall i :: 0 <= i < |Rules| && Rules[i].lhs == S && |Rules[i].rhs| == 2 ==> Rules[i].rhs[0] != P
  {
  }

  /** `++` is not in the language: a split of it needs a rule S -> B C with
      B rewriting to `+`, and only P does, while no rule for S begins with P. */
  lemma NoDoublePlus()
    ensures !Derives(MakeGrammar(), S, [Plus, Plus])
  {
    var g := MakeGrammar();
    var w := [Plus, Plus];
    forall s, r | 1 <= s < |w| && r in g.rules && r.lhs == S && |r.rhs| == 2
      ensures !Derives(g, r.rhs[0], w[..s])
    {
      var i := RuleAt(r);
      StartPairs();
      PlusOnlyFromP(r.rhs[0], w[..s]);
    }
  }

  /** A word with an ASCII hyphen is not in the language: the minus sign of
      the grammar is a different character. */
  lemma HyphenNotInLanguage(w: Word, p: nat)
    requires p < |w| && w[p] == Terminal('-')
    ensures !Derives(MakeGrammar(), S, w)
  {
    if Derives(MakeGrammar(), S, w) {
      var v := DerivedSymbolHasRule(MakeGrammar(), S, w, p);
      NoRuleYieldsHyphen(v);
    }
  }

  // ---------------------------------------------------------------------
  // The one-symbol branch of the brute-force parser on this grammar

  /** On `+` no start expansion matches, so the branch as written stops on
      a null pointer ... */
  lemma PlusCrashesAsWritten()
    ensures Parser.StartMatchAsWritten(MakeGrammar(), ExpansionMapOf(Rules), [Plus]) == Crash(NullPointer)
  {
    OnlyPYieldsPlus(S);
  }

  /** ... where the intended branch finds no node, and the parser answers
      that `+` is not in the language. */
  method PlusRejected() returns (r: Outcome<bool>)
    ensures Parser.StartMatch(MakeGrammar(), ExpansionMapOf(Rules), [Plus]) == []
    ensures r == Value(false)
  {
    IsCnf();
    OnlyPYieldsPlus(S);
    r := Parser.IsInLanguage(MakeGrammar(), [Plus]);
  }

  /** Both recognizers turn down the empty word. */
  method EmptyRejected() returns (cyk: Outcome<bool>, brute: Outcome<bool>)
    ensures cyk == Value(false) && brute == Value(false)
  {
    NoEpsilonRule();
    cyk := CYKParser.IsInLanguage(MakeGrammar(), []);
    brute := Parser.IsInLanguage(MakeGrammar(), []);
  }

  /** `x` is a terminal word that is not all blanks ... */
  lemma XIsTerminal(w: Word)
    requires |w| == 1 && w[0] == X
    ensures IsTerminalWord(w) && !Parser.AllSpaces(w)
  {
    assert w == [w[0]];
  }

  /** ... and S has the rule `S -> x`. */
  lemma XFromStart(w: Word)
    requires |w| == 1 && w[0] == X
    ensures HasRule(MakeGrammar(), S, w)
  {
    Unit(S, X, w);
  }

  /** The tree for `x` is S over the leaf `x`. */
  method XTree() returns (t: Outcome<Option<Parser.TreeOutput>>)
    ensures t == Value(Some(Parser.Built(Branch(S, [Leaf(X)]))))
  {
    var g, w := MakeGrammar(), [X];
    IsCnf();
    XIsTerminal(w);
    XFromStart(w);
    t := Parser.GenerateParseTree(g, w);
  }

  /** Both recognizers accept `x+x`. */
  method SumAccepted() returns (cyk: Outcome<bool>, brute: Outcome<bool>)
    ensures cyk == Value(true) && brute == Value(true)
  {
    var w := [X, Plus, X];
    IsCnf();
    SumOfTwo();
    DerivesIffSteps(MakeGrammar(), w);
    cyk := CYKParser.IsInLanguage(MakeGrammar(), w);
    brute := Parser.IsInLanguage(MakeGrammar(), w);
  }
}
