/** The grammar types the parsers work on: symbols, words, rules and grammars,
    the Chomsky Normal Form shape test, and the grouping of rules by their
    left-hand side that both parsers build before they start. */
module ContextFreeGrammar {

  datatype Option<T> = None | Some(value: T)

  /** Ways in which a call into the parsers ends without returning a value. */
  datatype Fault =
    | NullPointer        // a method called on a null reference
    | IndexOutOfBounds   // an array read outside its bounds
    | Diverges           // a recursion that has no bound

  /** What a call returns: a value, or the fault with which it stops. */
  datatype Outcome<T> = Value(value: T) | Crash(fault: Fault)

  datatype Symbol = Terminal(ch: char) | Variable(ch: char)

  type TerminalSymbol = s: Symbol | s.Terminal? witness Terminal('x')
  type VariableSymbol = s: Symbol | s.Variable? witness Variable('S')

  /** A word is a finite sequence of symbols: the input, a right-hand side,
      a sentential form or a cell of the CYK table. */
  type Word = seq<Symbol>

  datatype Rule = Rule(lhs: VariableSymbol, rhs: Word)

  datatype Grammar = Grammar(
    variables: set<VariableSymbol>,
    terminals: set<TerminalSymbol>,
    rules: seq<Rule>,
    start: VariableSymbol)

  /** A word is terminal when every one of its symbols is a terminal. */
  predicate IsTerminalWord(w: Word) {
    forall s :: s in w ==> s.Terminal?
  }

  /** Every rule's variable is declared, and every symbol on a right-hand
      side is a declared variable or a declared terminal. */
  predicate WellFormed(g: Grammar) {
    forall r :: r in g.rules ==>
      r.lhs in g.variables &&
      forall s :: s in r.rhs ==> s in g.variables || s in g.terminals
  }

  predicate HasEpsilonRule(g: Grammar) {
    Rule(g.start, []) in g.rules
  }

  /** One rule in Chomsky Normal Form: V -> t, V -> B C, or start -> epsilon. */
  predicate IsCnfRule(g: Grammar, r: Rule) {
    || (|r.rhs| == 1 && r.rhs[0].Terminal?)
    || (|r.rhs| == 2 && r.rhs[0].Variable? && r.rhs[1].Variable?)
    || (r.rhs == [] && r.lhs == g.start)
  }

  /** The whole grammar is in Chomsky Normal Form: every rule has one of
      the three shapes, and when the start variable derives the empty word
      it occurs on no right-hand side. */
  predicate IsInChomskyNormalForm(g: Grammar) {
    && (forall r :: r in g.rules ==> IsCnfRule(g, r))
    && (HasEpsilonRule(g) ==> forall r :: r in g.rules ==> g.start !in r.rhs)
  }

  /** Reference definition: the right-hand sides of the rules for `v`,
      in declaration order. */
  function Expansions(rules: seq<Rule>, v: Symbol): (es: seq<Word>)
    ensures |es| <= |rules|
  {
    if rules == [] then []
    else
      var rest := Expansions(rules[1..], v);
      if rules[0].lhs == v then [rules[0].rhs] + rest else rest
  }

  /** `e` is listed exactly when `v -> e` is one of the rules. */
  lemma {:induction false} ExpansionsMember(rules: seq<Rule>, v: Symbol, e: Word)
    ensures e in Expansions(rules, v) <==> exists r :: r in rules && r.lhs == v && r.rhs == e
  {
    if rules != [] {
      ExpansionsMember(rules[1..], v, e);
      assert forall r :: r in rules <==> r == rules[0] || r in rules[1..];
    }
  }

  type ExpansionMap = map<Symbol, seq<Word>>

  /** Looking a variable up in the map; a variable without rules has no
      expansions. */
  function ExpansionsOf(m: ExpansionMap, v: Symbol): (es: seq<Word>) {
    if v in m then m[v] else []
  }

  /** The grouping of the rules by left-hand side, built by adding the
      rules one after the other and appending each right-hand side to the
      list kept for its variable. */
  function ExpansionMapOf(rules: seq<Rule>): (m: ExpansionMap)
    ensures forall v :: v in m ==> m[v] != []
  {
    if rules == [] then map[]
    else
      var before := ExpansionMapOf(rules[..|rules| - 1]);
      var r := rules[|rules| - 1];
      before[r.lhs := ExpansionsOf(before, r.lhs) + [r.rhs]]
  }

  /** The map has a key for each variable that has a rule, and no other. */
  lemma {:induction false} ExpansionMapKeys(rules: seq<Rule>, v: Symbol)
    ensures v in ExpansionMapOf(rules) <==> exists r :: r in rules && r.lhs == v
  {
    if rules != [] {
      var init := rules[..|rules| - 1];
      ExpansionMapKeys(init, v);
      assert forall x :: x in rules <==> x == rules[|rules| - 1] || x in init;
    }
  }

  /** Adding one rule at the end adds its right-hand side at the end of its
      variable's list. */
  lemma ExpansionsSnoc(rules: seq<Rule>, v: Symbol)
    requires rules != []
    ensures Expansions(rules, v) ==
      Expansions(rules[..|rules| - 1], v) + if rules[|rules| - 1].lhs == v then [rules[|rules| - 1].rhs] else []
  {
    var init, r := rules[..|rules| - 1], rules[|rules| - 1];
    assert rules == init + [r];
    ExpansionsAppend(init, [r], v);
    assert [r][1..] == [];
  }

  /** The filter over a concatenation is the concatenation of the filters. */
  lemma {:induction false} ExpansionsAppend(a: seq<Rule>, b: seq<Rule>, v: Symbol)
    ensures Expansions(a + b, v) == Expansions(a, v) + Expansions(b, v)
  {
    if a == [] {
      assert a + b == b;
    } else {
      assert (a + b)[1..] == a[1..] + b;
      ExpansionsAppend(a[1..], b, v);
    }
  }

  /** The map built from the rules lists, for every variable, exactly the
      right-hand sides of that variable's rules in declaration order. */
  lemma {:induction false} ExpansionMapIsGrouping(rules: seq<Rule>, v: Symbol)
    ensures ExpansionsOf(ExpansionMapOf(rules), v) == Expansions(rules, v)
  {
    if rules != [] {
      ExpansionMapIsGrouping(rules[..|rules| - 1], v);
      ExpansionsSnoc(rules, v);
    }
  }

  /** Corollary used by both parsers: `e` is listed for `v` exactly when
      `v -> e` is a rule of the grammar. */
  lemma ExpansionsOfMember(rules: seq<Rule>, v: Symbol, e: Word)
    ensures e in ExpansionsOf(ExpansionMapOf(rules), v) <==>
            exists r :: r in rules && r.lhs == v && r.rhs == e
  {
    ExpansionMapIsGrouping(rules, v);
    ExpansionsMember(rules, v, e);
  }

  /** A parse tree: a leaf holds one symbol of the word, an inner node a
      variable and its ordered children. */
  datatype ParseTree = Leaf(symbol: Symbol) | Branch(symbol: Symbol, children: seq<ParseTree>)
}
