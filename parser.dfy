/** The brute-force recognizer: from the start variable it grows the tree of
    every sentential form reachable by rewriting one variable occurrence at a
    time, down to depth 2n-1, and collects the nodes at that depth whose word
    is the input.

    The pure functions Grow / Branches / Expand and Matching / MatchingList are
    the reference definitions; the methods RecurseNode and
    RecurseMatchingChildren are the loops of the source, proved to compute
    them. The lemmas relate the tree to rewriting in exactly k steps. */
module Parser {
  import opened ContextFreeGrammar
  import opened Derivations

  /** How a node was obtained from its parent: the variable that was
      rewritten, its position and the right-hand side put in its place. */
  datatype Edge = Edge(parentSymbol: Symbol, replacementIndex: nat, expansion: Word)

  /** A node of the derivation tree. The first level below the root carries
      no edge, as in the source, where the parent symbol of those nodes is
      never set. */
  datatype Node = Node(word: Word, depth: nat, edge: Option<Edge>, children: seq<Node>)

  /** What the source returns as a parse tree: the tree it builds for a
      one-symbol word, or, for longer words, the start variable together
      with the matching node from which it reconstructs the tree. */
  datatype TreeOutput = Built(tree: ParseTree) | Reconstructed(root: Symbol, chosen: Node)

  // ---------------------------------------------------------------------
  // The input gate

  /** Every symbol of `w` is the blank terminal. */
  predicate AllSpaces(w: Word) {
    forall i :: 0 <= i < |w| ==> w[i] == Terminal(' ')
  }

  /** The number of occurrences of `s` in `w`. */
  function Count(w: Word, s: Symbol): (c: nat)
    ensures c <= |w|
    ensures c == |w| <==> forall i :: 0 <= i < |w| ==> w[i] == s
  {
    if w == [] then 0
    else
      assert forall i :: 0 < i < |w| ==> w[i] == w[1..][i - 1];
      (if w[0] == s then 1 else 0) + Count(w[1..], s)
  }

  /** The empty word is accepted for parsing when the start variable has an
      empty expansion; a word made only of blanks is refused; any other word
      is accepted when the grammar is in Chomsky Normal Form. */
  function IsValidInput(g: Grammar, expansionsMap: ExpansionMap, w: Word): (valid: bool)
    requires expansionsMap == ExpansionMapOf(g.rules)
    ensures valid <==> if w == [] then HasEpsilonRule(g) else !AllSpaces(w) && IsInChomskyNormalForm(g)
  {
    ExpansionsOfMember(g.rules, g.start, []);
    if w == [] then [] in ExpansionsOf(expansionsMap, g.start)
    else if Count(w, Terminal(' ')) == |w| then false
    else IsInChomskyNormalForm(g)
  }

  // ---------------------------------------------------------------------
  // The derivation tree

  /** `c` is a child of a node with word `u` at depth `d`: it rewrites one
      variable occurrence of `u` by one of that variable's expansions and
      sits one level deeper. */
  predicate IsChild(m: ExpansionMap, u: Word, d: nat, c: Node) {
    && c.edge.Some?
    && c.edge.value.replacementIndex < |u|
    && c.edge.value.parentSymbol == u[c.edge.value.replacementIndex]
    && c.edge.value.parentSymbol.Variable?
    && c.edge.value.expansion in ExpansionsOf(m, c.edge.value.parentSymbol)
    && c.word == Replace(u, c.edge.value.replacementIndex, c.edge.value.expansion)
    && c.depth == d + 1
  }

  /** The shape every grown tree has: no node is deeper than `maxDepth`,
      nodes at `maxDepth` or with a terminal word have no children, and every
      child is a one-step rewrite of its parent. */
  predicate Grown(m: ExpansionMap, node: Node, maxDepth: nat)
    decreases node
  {
    && node.depth <= maxDepth
    && (node.depth == maxDepth || IsTerminalWord(node.word) ==> node.children == [])
    && forall c :: c in node.children ==> IsChild(m, node.word, node.depth, c) && Grown(m, c, maxDepth)
  }

  /** The node for `word` one level below `depth`, with the subtree of all
      its rewrites down to `maxDepth`. */
  function Grow(m: ExpansionMap, word: Word, depth: nat, maxDepth: nat): (node: Node)
    requires depth < maxDepth
    ensures node.word == word && node.depth == depth + 1 && node.edge == None
    decreases maxDepth - depth, 2, 0
  {
    var d := depth + 1;
    if d == maxDepth || IsTerminalWord(word) then Node(word, d, None, [])
    else Node(word, d, None, Branches(m, word, d, maxDepth, |word|))
  }

  /** The children obtained by rewriting the variables at positions below
      `upTo`, position by position. */
  function Branches(m: ExpansionMap, word: Word, d: nat, maxDepth: nat, upTo: nat): (cs: seq<Node>)
    requires d < maxDepth && upTo <= |word|
    decreases maxDepth - d + 1, 1, upTo
  {
    if upTo == 0 then []
    else
      var i := upTo - 1;
      var before := Branches(m, word, d, maxDepth, i);
      if word[i].Terminal? then before
      else before + Expand(m, word, d, maxDepth, i, ExpansionsOf(m, word[i]))
  }

  /** The children obtained by rewriting the variable at `i` by each of
      `exps` in turn. */
  function Expand(m: ExpansionMap, word: Word, d: nat, maxDepth: nat, i: nat, exps: seq<Word>): (cs: seq<Node>)
    requires d < maxDepth && i < |word|
    ensures |cs| == |exps|
    decreases maxDepth - d + 1, 0, |exps|
  {
    if exps == [] then []
    else
      Expand(m, word, d, maxDepth, i, exps[..|exps| - 1]) + [Rewrite(m, word, d, maxDepth, i, exps[|exps| - 1])]
  }

  /** The child that rewrites position `i` of `word` by `e`, with its edge. */
  function Rewrite(m: ExpansionMap, word: Word, d: nat, maxDepth: nat, i: nat, e: Word): (c: Node)
    requires d < maxDepth && i < |word|
    ensures c.word == Replace(word, i, e) && c.depth == d + 1 && c.edge == Some(Edge(word[i], i, e))
    decreases maxDepth - d + 1, 0, 0
  {
    Grow(m, Replace(word, i, e), d, maxDepth).(edge := Some(Edge(word[i], i, e)))
  }

  // ---------------------------------------------------------------------
  // Collecting the matches

  /** The nodes of the subtree at `node` whose word is `w` and whose depth is
      `D`; the search does not descend below a node that matches. */
  function Matching(node: Node, w: Word, D: nat): (ms: seq<Node>)
    ensures forall p :: 0 <= p < |ms| ==> ms[p].word == w && ms[p].depth == D
    decreases node, 1
  {
    if node.word == w && node.depth == D then [node]
    else MatchingList(node.children, w, D)
  }

  /** The matches below each of `cs`, in order. */
  function MatchingList(cs: seq<Node>, w: Word, D: nat): (ms: seq<Node>)
    ensures forall p :: 0 <= p < |ms| ==> ms[p].word == w && ms[p].depth == D
    decreases cs, 0
  {
    if cs == [] then []
    else MatchingList(cs[..|cs| - 1], w, D) + Matching(cs[|cs| - 1], w, D)
  }

  /** `x` is `node` or a node below it. */
  ghost predicate InTree(x: Node, node: Node)
    decreases node
  {
    x == node || exists c :: c in node.children && InTree(x, c)
  }

  // ---------------------------------------------------------------------
  // The loops of the source

  /** Builds the node for `word` one level below `depth`: unless the node is
      at `maxDepth` or its word is terminal, every variable position is
      rewritten by every expansion of its variable, each rewrite growing its
      own subtree. */
  method RecurseNode(m: ExpansionMap, word: Word, depth: nat, maxDepth: nat) returns (node: Node)
    requires depth < maxDepth
    ensures node == Grow(m, word, depth, maxDepth)
    decreases maxDepth - depth
  {
    var d := depth + 1;
    if d == maxDepth || IsTerminalWord(word) {
      return Node(word, d, None, []);
    }
    var children: seq<Node> := [];
    var replaceIndex := 0;
    while replaceIndex < |word|
      invariant 0 <= replaceIndex <= |word|
      invariant children == Branches(m, word, d, maxDepth, replaceIndex)
    {
      var currentSymbol := word[replaceIndex];
      if currentSymbol.Terminal? {
        replaceIndex := replaceIndex + 1;
        continue;
      }
      var currentExpansions := ExpansionsOf(m, currentSymbol);
      ghost var before := children;
      for j := 0 to |currentExpansions|
        invariant children == before + Expand(m, word, d, maxDepth, replaceIndex, currentExpansions[..j])
      {
        var expansion := currentExpansions[j];
        var parentSymbol := word[replaceIndex];
        var replaced := Replace(word, replaceIndex, expansion);
        var childNode := RecurseNode(m, replaced, d, maxDepth);
        childNode := childNode.(edge := Some(Edge(parentSymbol, replaceIndex, expansion)));
        assert childNode == Rewrite(m, word, d, maxDepth, replaceIndex, expansion);
        assert currentExpansions[..j + 1][..j] == currentExpansions[..j];
        children := children + [childNode];
      }
      assert currentExpansions[..|currentExpansions|] == currentExpansions;
      replaceIndex := replaceIndex + 1;
    }
    node := Node(word, d, None, children);
  }

  /** Gathers the matching nodes of the subtree at `node`. */
  method RecurseMatchingChildren(node: Node, wordToMatch: Word, derivationDepth: nat) returns (matching: seq<Node>)
    ensures matching == Matching(node, wordToMatch, derivationDepth)
    decreases node
  {
    if node.word == wordToMatch && node.depth == derivationDepth {
      return [node];
    }
    matching := [];
    for k := 0 to |node.children|
      invariant matching == MatchingList(node.children[..k], wordToMatch, derivationDepth)
    {
      var found := RecurseMatchingChildren(node.children[k], wordToMatch, derivationDepth);
      assert node.children[..k + 1][..k] == node.children[..k];
      matching := matching + found;
    }
    assert node.children[..|node.children|] == node.children;
  }

  // ---------------------------------------------------------------------
  // The children of a node

  /** An expansion listed for `v` comes from a rule for `v` ... */
  lemma RuleFor(g: Grammar, v: Symbol, e: Word) returns (r: Rule)
    requires e in ExpansionsOf(ExpansionMapOf(g.rules), v)
    ensures r in g.rules && r.lhs == v && r.rhs == e
  {
    ExpansionsOfMember(g.rules, v, e);
    r :| r in g.rules && r.lhs == v && r.rhs == e;
  }

  /** ... and every rule's right-hand side is listed for its variable. */
  lemma ExpansionFor(g: Grammar, r: Rule)
    requires r in g.rules
    ensures r.rhs in ExpansionsOf(ExpansionMapOf(g.rules), r.lhs)
  {
    ExpansionsOfMember(g.rules, r.lhs, r.rhs);
  }

  /** The children for one position are the rewrites by each expansion, in
      order. */
  lemma {:induction false} ExpandAt(m: ExpansionMap, word: Word, d: nat, maxDepth: nat, i: nat, exps: seq<Word>, j: nat)
    requires d < maxDepth && i < |word| && j < |exps|
    ensures Expand(m, word, d, maxDepth, i, exps)[j] == Rewrite(m, word, d, maxDepth, i, exps[j])
    decreases |exps|
  {
    if j < |exps| - 1 {
      ExpandAt(m, word, d, maxDepth, i, exps[..|exps| - 1], j);
    }
  }

  /** Every child rewrites a variable at a position below `upTo` by one of
      its expansions. */
  lemma {:induction false} BranchesWitness(m: ExpansionMap, word: Word, d: nat, maxDepth: nat, upTo: nat, j: nat)
    returns (i: nat, e: Word)
    requires d < maxDepth && upTo <= |word|
    requires j < |Branches(m, word, d, maxDepth, upTo)|
    ensures i < upTo && word[i].Variable? && e in ExpansionsOf(m, word[i])
    ensures Branches(m, word, d, maxDepth, upTo)[j] == Rewrite(m, word, d, maxDepth, i, e)
    decreases upTo
  {
    var before := Branches(m, word, d, maxDepth, upTo - 1);
    var p := upTo - 1;
    if j < |before| {
      i, e := BranchesWitness(m, word, d, maxDepth, upTo - 1, j);
    } else {
      var exps := ExpansionsOf(m, word[p]);
      ExpandAt(m, word, d, maxDepth, p, exps, j - |before|);
      i, e := p, exps[j - |before|];
    }
  }

  /** Conversely, every such rewrite is a child. */
  lemma {:induction false} BranchesIndex(m: ExpansionMap, word: Word, d: nat, maxDepth: nat, upTo: nat, i: nat, e: Word)
    returns (j: nat)
    requires d < maxDepth && upTo <= |word|
    requires i < upTo && word[i].Variable? && e in ExpansionsOf(m, word[i])
    ensures j < |Branches(m, word, d, maxDepth, upTo)|
    ensures Branches(m, word, d, maxDepth, upTo)[j] == Rewrite(m, word, d, maxDepth, i, e)
    decreases upTo
  {
    var before := Branches(m, word, d, maxDepth, upTo - 1);
    if i < upTo - 1 {
      j := BranchesIndex(m, word, d, maxDepth, upTo - 1, i, e);
    } else {
      var exps := ExpansionsOf(m, word[i]);
      var t :| 0 <= t < |exps| && exps[t] == e;
      ExpandAt(m, word, d, maxDepth, i, exps, t);
      j := |before| + t;
    }
  }

  // ---------------------------------------------------------------------
  // The shape of the tree

  /** Every grown tree has the shape that `Grown` describes. */
  lemma {:induction false} GrowShape(m: ExpansionMap, word: Word, depth: nat, maxDepth: nat)
    requires depth < maxDepth
    ensures Grown(m, Grow(m, word, depth, maxDepth), maxDepth)
    decreases maxDepth - depth
  {
    var d := depth + 1;
    var node := Grow(m, word, depth, maxDepth);
    if d < maxDepth && !IsTerminalWord(word) {
      forall c | c in node.children
        ensures IsChild(m, word, d, c) && Grown(m, c, maxDepth)
      {
        var j :| 0 <= j < |node.children| && node.children[j] == c;
        var i, e := BranchesWitness(m, word, d, maxDepth, |word|, j);
        GrowShape(m, Replace(word, i, e), d, maxDepth);
      }
    }
  }

  /** Every variable position and every expansion of its variable is tried:
      the rewrite is among the children. */
  lemma AllRewritesTried(m: ExpansionMap, word: Word, depth: nat, maxDepth: nat, i: nat, e: Word)
    requires depth + 1 < maxDepth && !IsTerminalWord(word)
    requires i < |word| && word[i].Variable? && e in ExpansionsOf(m, word[i])
    ensures Rewrite(m, word, depth + 1, maxDepth, i, e) in Grow(m, word, depth, maxDepth).children
  {
    var j := BranchesIndex(m, word, depth + 1, maxDepth, |word|, i, e);
  }

  /** Below a node that is neither at the depth bound nor terminal, the
      children's words are exactly the one-step rewrites of the node's word. */
  lemma ChildrenAreSteps(g: Grammar, word: Word, depth: nat, maxDepth: nat, v: Word)
    requires depth + 1 < maxDepth && !IsTerminalWord(word)
    ensures (exists c :: c in Grow(ExpansionMapOf(g.rules), word, depth, maxDepth).children && c.word == v)
            <==> Step(g, word, v)
  {
    var m := ExpansionMapOf(g.rules);
    var d := depth + 1;
    var node := Grow(m, word, depth, maxDepth);
    if c :| c in node.children && c.word == v {
      var j :| 0 <= j < |node.children| && node.children[j] == c;
      var i, e := BranchesWitness(m, word, d, maxDepth, |word|, j);
      var r := RuleFor(g, word[i], e);
      StepOn(g, word, i, r);
    }
    if Step(g, word, v) {
      var i, r :| 0 <= i < |word| && r in g.rules && r.lhs == word[i] && v == Replace(word, i, r.rhs);
      ExpansionFor(g, r);
      var j := BranchesIndex(m, word, d, maxDepth, |word|, i, r.rhs);
      assert node.children[j].word == v;
    }
  }

  // ---------------------------------------------------------------------
  // Matches

  /** A match below a list of nodes is a match below one of them ... */
  lemma {:induction false} MatchingListFrom(cs: seq<Node>, w: Word, D: nat, x: Node) returns (j: nat)
    requires x in MatchingList(cs, w, D)
    ensures j < |cs| && x in Matching(cs[j], w, D)
    decreases |cs|
  {
    var init := cs[..|cs| - 1];
    if x in MatchingList(init, w, D) {
      j := MatchingListFrom(init, w, D, x);
    } else {
      j := |cs| - 1;
    }
  }

  /** ... and every match below one of them is found. */
  lemma {:induction false} MatchingListInto(cs: seq<Node>, w: Word, D: nat, j: nat, x: Node)
    requires j < |cs| && x in Matching(cs[j], w, D)
    ensures x in MatchingList(cs, w, D)
    decreases |cs|
  {
    if j < |cs| - 1 {
      MatchingListInto(cs[..|cs| - 1], w, D, j, x);
    }
  }

  /** A list of nodes has matches when one of them has ... */
  lemma {:induction false} MatchingListSome(cs: seq<Node>, w: Word, D: nat) returns (j: nat)
    requires MatchingList(cs, w, D) != []
    ensures j < |cs| && Matching(cs[j], w, D) != []
    decreases |cs|
  {
    var init := cs[..|cs| - 1];
    if MatchingList(init, w, D) != [] {
      j := MatchingListSome(init, w, D);
    } else {
      j := |cs| - 1;
    }
  }

  /** ... and only then. */
  lemma {:induction false} MatchingListOne(cs: seq<Node>, w: Word, D: nat, j: nat)
    requires j < |cs| && Matching(cs[j], w, D) != []
    ensures MatchingList(cs, w, D) != []
    decreases |cs|
  {
    if j < |cs| - 1 {
      MatchingListOne(cs[..|cs| - 1], w, D, j);
    }
  }

  /** In a grown tree every match found is a node of the tree ... */
  lemma {:induction false} MatchingInTree(m: ExpansionMap, node: Node, w: Word, D: nat, x: Node)
    requires Grown(m, node, D) && x in Matching(node, w, D)
    ensures InTree(x, node) && x.word == w && x.depth == D
    decreases node
  {
    if !(node.word == w && node.depth == D) {
      var j := MatchingListFrom(node.children, w, D, x);
      MatchingInTree(m, node.children[j], w, D, x);
    }
  }

  /** ... and every node of the tree with word `w` at depth `D` is found. */
  lemma {:induction false} TreeInMatching(m: ExpansionMap, node: Node, w: Word, D: nat, x: Node)
    requires Grown(m, node, D) && InTree(x, node) && x.word == w && x.depth == D
    ensures x in Matching(node, w, D)
    decreases node
  {
    if node.word == w && node.depth == D {
      assert node.children == [];
    } else {
      var c :| c in node.children && InTree(x, c);
      var j :| 0 <= j < |node.children| && node.children[j] == c;
      TreeInMatching(m, c, w, D, x);
      MatchingListInto(node.children, w, D, j, x);
    }
  }

  /** In a grown tree the search finds exactly the nodes of the tree with
      word `w` at depth `D`. */
  lemma MatchingExact(m: ExpansionMap, node: Node, w: Word, D: nat, x: Node)
    requires Grown(m, node, D)
    ensures x in Matching(node, w, D) <==> InTree(x, node) && x.word == w && x.depth == D
  {
    if x in Matching(node, w, D) {
      MatchingInTree(m, node, w, D, x);
    }
    if InTree(x, node) && x.word == w && x.depth == D {
      TreeInMatching(m, node, w, D, x);
    }
  }

  // ---------------------------------------------------------------------
  // Matches and derivations

  /** Below its own depth a node's matches are its children's. */
  lemma MatchingBelow(node: Node, w: Word, D: nat)
    requires !(node.word == w && node.depth == D)
    ensures Matching(node, w, D) == MatchingList(node.children, w, D)
  {
  }

  /** At the depth bound the grown node matches only its own word. */
  lemma GrowAtBound(m: ExpansionMap, word: Word, depth: nat, D: nat, w: Word)
    requires depth + 1 == D
    ensures Matching(Grow(m, word, depth, D), w, D) != [] <==> word == w
  {
    var node := Grow(m, word, depth, D);
    if word != w {
      assert Matching(node, w, D) == MatchingList([], w, D);
    }
  }

  /** Above the depth bound a terminal word has no children, so no match. */
  lemma GrowTerminal(m: ExpansionMap, word: Word, depth: nat, D: nat, w: Word)
    requires depth + 1 < D && IsTerminalWord(word)
    ensures Matching(Grow(m, word, depth, D), w, D) == []
  {
    MatchingBelow(Grow(m, word, depth, D), w, D);
  }

  /** Above the depth bound a word with a variable has the branches as
      children. */
  lemma GrowInner(m: ExpansionMap, word: Word, depth: nat, D: nat, w: Word)
    requires depth + 1 < D && !IsTerminalWord(word)
    ensures Matching(Grow(m, word, depth, D), w, D) == MatchingList(Branches(m, word, depth + 1, D, |word|), w, D)
  {
    MatchingBelow(Grow(m, word, depth, D), w, D);
  }

  /** The edge set on a rewrite does not change whether it has matches. */
  lemma RewriteMatching(m: ExpansionMap, word: Word, d: nat, D: nat, i: nat, e: Word, w: Word)
    requires d < D && i < |word|
    ensures (Matching(Rewrite(m, word, d, D, i, e), w, D) == []) == (Matching(Grow(m, Replace(word, i, e), d, D), w, D) == [])
  {
    var c := Rewrite(m, word, d, D, i, e);
    var n := Grow(m, Replace(word, i, e), d, D);
    assert c.children == n.children;
    if !(c.word == w && c.depth == D) {
      MatchingBelow(c, w, D);
      MatchingBelow(n, w, D);
    }
  }

  /** A match below the subtree grown from `word` is reached from `word`
      in the `k` steps left to the depth bound ... */
  lemma {:induction false} GrowMatchesSound(g: Grammar, word: Word, depth: nat, D: nat, k: nat, w: Word)
    requires depth < D && k == D - depth - 1
    requires Matching(Grow(ExpansionMapOf(g.rules), word, depth, D), w, D) != []
    ensures StepsTo(g, word, w, k)
    decreases k
  {
    var m := ExpansionMapOf(g.rules);
    if depth + 1 == D {
      GrowAtBound(m, word, depth, D, w);
    } else if IsTerminalWord(word) {
      GrowTerminal(m, word, depth, D, w);
    } else {
      var i, e := MatchingChild(m, word, depth, D, w);
      GrowMatchesSound(g, Replace(word, i, e), depth + 1, D, k - 1, w);
      var r := RuleFor(g, word[i], e);
      RewriteThen(g, word, i, r, w, k - 1);
    }
  }

  /** A match below a node is a match below one of its rewrites. */
  lemma MatchingChild(m: ExpansionMap, word: Word, depth: nat, D: nat, w: Word) returns (i: nat, e: Word)
    requires depth + 1 < D && !IsTerminalWord(word)
    requires Matching(Grow(m, word, depth, D), w, D) != []
    ensures i < |word| && word[i].Variable? && e in ExpansionsOf(m, word[i])
    ensures Matching(Grow(m, Replace(word, i, e), depth + 1, D), w, D) != []
  {
    var d := depth + 1;
    GrowInner(m, word, depth, D, w);
    var cs := Branches(m, word, d, D, |word|);
    var j := MatchingListSome(cs, w, D);
    i, e := BranchesWitness(m, word, d, D, |word|, j);
    RewriteMatching(m, word, d, D, i, e, w);
  }

  /** ... and when `w` is reached from `word` in those `k` steps, the
      subtree holds a match. */
  lemma {:induction false} GrowMatchesComplete(g: Grammar, word: Word, depth: nat, D: nat, k: nat, w: Word)
    requires depth < D && k == D - depth - 1
    requires StepsTo(g, word, w, k)
    ensures Matching(Grow(ExpansionMapOf(g.rules), word, depth, D), w, D) != []
    decreases k, 1
  {
    var m := ExpansionMapOf(g.rules);
    if depth + 1 == D {
      GrowAtBound(m, word, depth, D, w);
    } else if IsTerminalWord(word) {
      StepsFromTerminal(g, word, w, k);
    } else {
      var i, r := FirstRewrite(g, word, w, k - 1);
      RewriteMatches(g, word, depth, D, k, w, i, r);
    }
  }

  /** The inductive step: the first rewrite of the derivation is a child,
      and below it the rest of the derivation is found. */
  lemma {:induction false} RewriteMatches(g: Grammar, word: Word, depth: nat, D: nat, k: nat, w: Word, i: nat, r: Rule)
    requires depth + 1 < D && k == D - depth - 1 && !IsTerminalWord(word)
    requires i < |word| && r in g.rules && r.lhs == word[i] && StepsTo(g, Replace(word, i, r.rhs), w, k - 1)
    ensures Matching(Grow(ExpansionMapOf(g.rules), word, depth, D), w, D) != []
    decreases k, 0
  {
    ExpansionFor(g, r);
    GrowMatchesComplete(g, Replace(word, i, r.rhs), depth + 1, D, k - 1, w);
    ChildMatches(ExpansionMapOf(g.rules), word, depth, D, w, i, r.rhs);
  }

  /** A match below one rewrite is a match below the node. */
  lemma ChildMatches(m: ExpansionMap, word: Word, depth: nat, D: nat, w: Word, i: nat, e: Word)
    requires depth + 1 < D && !IsTerminalWord(word)
    requires i < |word| && word[i].Variable? && e in ExpansionsOf(m, word[i])
    requires Matching(Grow(m, Replace(word, i, e), depth + 1, D), w, D) != []
    ensures Matching(Grow(m, word, depth, D), w, D) != []
  {
    var d := depth + 1;
    GrowInner(m, word, depth, D, w);
    var cs := Branches(m, word, d, D, |word|);
    var j := BranchesIndex(m, word, d, D, |word|, i, e);
    RewriteMatching(m, word, d, D, i, e, w);
    MatchingListOne(cs, w, D, j);
    assert Matching(Grow(m, word, depth, D), w, D) == MatchingList(cs, w, D);
  }

  // ---------------------------------------------------------------------
  // The search from the start variable

  /** The matches found below each start expansion, in order. */
  function Search(m: ExpansionMap, starts: seq<Word>, w: Word, D: nat): (ms: seq<Node>)
    requires 1 <= D
    ensures forall p :: 0 <= p < |ms| ==> ms[p].word == w && ms[p].depth == D
  {
    if starts == [] then []
    else Search(m, starts[..|starts| - 1], w, D) + Matching(Grow(m, starts[|starts| - 1], 0, D), w, D)
  }

  /** The search has matches when the tree of one start expansion has ... */
  lemma {:induction false} SearchSome(m: ExpansionMap, starts: seq<Word>, w: Word, D: nat) returns (j: nat)
    requires 1 <= D && Search(m, starts, w, D) != []
    ensures j < |starts| && Matching(Grow(m, starts[j], 0, D), w, D) != []
    decreases |starts|
  {
    var init := starts[..|starts| - 1];
    if Search(m, init, w, D) != [] {
      j := SearchSome(m, init, w, D);
    } else {
      j := |starts| - 1;
    }
  }

  /** ... and only then. */
  lemma {:induction false} SearchOne(m: ExpansionMap, starts: seq<Word>, w: Word, D: nat, j: nat)
    requires 1 <= D && j < |starts| && Matching(Grow(m, starts[j], 0, D), w, D) != []
    ensures Search(m, starts, w, D) != []
    decreases |starts|
  {
    if j < |starts| - 1 {
      SearchOne(m, starts[..|starts| - 1], w, D, j);
    }
  }

  /** Every match of the search is a derivation from the start variable of
      `D` steps ... */
  lemma StartSearchSound(g: Grammar, w: Word, D: nat)
    requires 1 <= D
    requires Search(ExpansionMapOf(g.rules), ExpansionsOf(ExpansionMapOf(g.rules), g.start), w, D) != []
    ensures StepsTo(g, [g.start], w, D)
  {
    var m := ExpansionMapOf(g.rules);
    var starts := ExpansionsOf(m, g.start);
    var j := SearchSome(m, starts, w, D);
    GrowMatchesSound(g, starts[j], 0, D, D - 1, w);
    var r := RuleFor(g, g.start, starts[j]);
    RuleThen(g, r, w, D - 1);
  }

  /** ... and every such derivation is found. */
  lemma StartSearchComplete(g: Grammar, w: Word, D: nat)
    requires 1 <= D && StepsTo(g, [g.start], w, D)
    ensures Search(ExpansionMapOf(g.rules), ExpansionsOf(ExpansionMapOf(g.rules), g.start), w, D) != []
  {
    var r := FirstRule(g, g.start, w, D - 1);
    var j := StartIndex(g, r);
    GrowMatchesComplete(g, r.rhs, 0, D, D - 1, w);
    SearchOne(ExpansionMapOf(g.rules), ExpansionsOf(ExpansionMapOf(g.rules), g.start), w, D, j);
  }

  /** The right-hand side of a rule for the start variable is one of the
      start expansions. */
  lemma StartIndex(g: Grammar, r: Rule) returns (j: nat)
    requires r in g.rules && r.lhs == g.start
    ensures j < |ExpansionsOf(ExpansionMapOf(g.rules), g.start)|
    ensures ExpansionsOf(ExpansionMapOf(g.rules), g.start)[j] == r.rhs
  {
    var starts := ExpansionsOf(ExpansionMapOf(g.rules), g.start);
    ExpansionsOfMember(g.rules, g.start, r.rhs);
    j :| 0 <= j < |starts| && starts[j] == r.rhs;
  }

  /** The search over the start variable's expansions finds a match exactly
      when `w` is derived from the start variable in `D` steps. */
  lemma StartSearch(g: Grammar, w: Word, D: nat)
    requires 1 <= D
    ensures Search(ExpansionMapOf(g.rules), ExpansionsOf(ExpansionMapOf(g.rules), g.start), w, D) != []
            <==> StepsTo(g, [g.start], w, D)
  {
    var m := ExpansionMapOf(g.rules);
    if Search(m, ExpansionsOf(m, g.start), w, D) != [] {
      StartSearchSound(g, w, D);
    }
    if StepsTo(g, [g.start], w, D) {
      StartSearchComplete(g, w, D);
    }
  }

  // ---------------------------------------------------------------------
  // The one-symbol case

  /** The first of `exps` that is a terminal word equal to `w`, if any. */
  function FirstTerminalMatch(exps: seq<Word>, w: Word): (r: Option<Word>)
    ensures r.Some? <==> IsTerminalWord(w) && w in exps
    ensures r.Some? ==> r.value == w
  {
    if exps == [] then None
    else if IsTerminalWord(exps[0]) && exps[0] == w then Some(exps[0])
    else
      assert w in exps <==> w == exps[0] || w in exps[1..];
      FirstTerminalMatch(exps[1..], w)
  }

  /** The one-symbol branch as written: when no start expansion matches, the
      missing match is dereferenced and the call stops with a null pointer
      fault. */
  function StartMatchAsWritten(g: Grammar, expansionsMap: ExpansionMap, w: Word): (r: Outcome<seq<Node>>)
    requires expansionsMap == ExpansionMapOf(g.rules)
    ensures r.Crash? <==> !(HasRule(g, g.start, w) && IsTerminalWord(w))
    ensures r.Crash? ==> r.fault == NullPointer
  {
    ExpansionsOfMember(g.rules, g.start, w);
    var found := FirstTerminalMatch(ExpansionsOf(expansionsMap, g.start), w);
    if found.None? then Crash(NullPointer)
    else Value([Node(found.value, 1, Some(Edge(g.start, 0, found.value)), [])])
  }

  /** The one-symbol branch as intended: the node for the start expansion
      equal to `w`, or no node at all. */
  function StartMatch(g: Grammar, expansionsMap: ExpansionMap, w: Word): (nodes: seq<Node>)
    requires expansionsMap == ExpansionMapOf(g.rules)
    ensures |nodes| <= 1
    ensures nodes != [] <==> HasRule(g, g.start, w) && IsTerminalWord(w)
    ensures nodes != [] ==> nodes[0].word == w && nodes[0].depth == 1 && nodes[0].edge == Some(Edge(g.start, 0, w))
  {
    ExpansionsOfMember(g.rules, g.start, w);
    var found := FirstTerminalMatch(ExpansionsOf(expansionsMap, g.start), w);
    if found.None? then []
    else [Node(found.value, 1, Some(Edge(g.start, 0, found.value)), [])]
  }

  /** The branch as written fails exactly where the intended one finds no
      node, and agrees with it everywhere else. */
  lemma StartMatchDiscrepancy(g: Grammar, w: Word)
    ensures StartMatchAsWritten(g, ExpansionMapOf(g.rules), w).Crash?
            <==> StartMatch(g, ExpansionMapOf(g.rules), w) == []
    ensures StartMatchAsWritten(g, ExpansionMapOf(g.rules), w).Value?
            ==> StartMatchAsWritten(g, ExpansionMapOf(g.rules), w).value == StartMatch(g, ExpansionMapOf(g.rules), w)
  {
  }

  /** One rewriting step from the start variable reaches exactly the
      right-hand sides of its rules. */
  lemma OneStepFromStart(g: Grammar, w: Word)
    ensures StepsTo(g, [g.start], w, 1) <==> HasRule(g, g.start, w)
  {
    if StepsTo(g, [g.start], w, 1) {
      var r := FirstRule(g, g.start, w, 0);
    }
    if HasRule(g, g.start, w) {
      var r :| r in g.rules && r.lhs == g.start && r.rhs == w;
      RuleStep(g, r);
    }
  }

  // ---------------------------------------------------------------------
  // The recognizer

  /** The matching nodes for a nonempty word: for one symbol the start
      expansion equal to it, otherwise the nodes at depth 2n-1 below every
      start expansion whose word is `w`. */
  method GetComputedDerivations(g: Grammar, expansionsMap: ExpansionMap, w: Word) returns (nodes: seq<Node>)
    requires expansionsMap == ExpansionMapOf(g.rules) && |w| >= 1
    ensures |w| == 1 ==> nodes == StartMatch(g, expansionsMap, w)
    ensures |w| >= 2 ==> nodes == Search(expansionsMap, ExpansionsOf(expansionsMap, g.start), w, 2 * |w| - 1)
  {
    var n := |w|;
    var derivationDepth := 2 * n - 1;
    if n == 1 {
      return StartMatch(g, expansionsMap, w);
    }
    var starts := ExpansionsOf(expansionsMap, g.start);
    nodes := [];
    for j := 0 to |starts|
      invariant nodes == Search(expansionsMap, starts[..j], w, derivationDepth)
    {
      var childDerivation := RecurseNode(expansionsMap, starts[j], 0, derivationDepth);
      var found := RecurseMatchingChildren(childDerivation, w, derivationDepth);
      assert starts[..j + 1][..j] == starts[..j];
      nodes := nodes + found;
    }
    assert starts[..|starts|] == starts;
  }

  /** The parse tree, when there is one: for a one-symbol word the start
      variable over that symbol, for a longer word the start variable with
      the matching node it is rebuilt from. An invalid input has none; the
      valid empty word does not come back. */
  method GenerateParseTree(g: Grammar, w: Word) returns (r: Outcome<Option<TreeOutput>>)
    ensures !IsValidInput(g, ExpansionMapOf(g.rules), w) ==> r == Value(None)
    ensures w == [] && HasEpsilonRule(g) ==> r == Crash(Diverges)
    ensures |w| == 1 && !AllSpaces(w) && IsInChomskyNormalForm(g) ==>
      r == Value(if HasRule(g, g.start, w) && IsTerminalWord(w) then Some(Built(Branch(g.start, [Leaf(w[0])]))) else None)
    ensures |w| >= 2 && !AllSpaces(w) && IsInChomskyNormalForm(g) ==>
      && r.Value?
      && (r.value.Some? <==> StepsTo(g, [g.start], w, 2 * |w| - 1))
      && (r.value.Some? ==> r.value.value.Reconstructed? && r.value.value.root == g.start)
      && (r.value.Some? ==> r.value.value.chosen.word == w && r.value.value.chosen.depth == 2 * |w| - 1)
  {
    var expansionsMap := ExpansionMapOf(g.rules);
    if !IsValidInput(g, expansionsMap, w) {
      return Value(None);
    }
    if w == [] {
      return Crash(Diverges);
    }
    var computedDerivations := GetComputedDerivations(g, expansionsMap, w);
    if |w| >= 2 {
      StartSearch(g, w, 2 * |w| - 1);
    }
    if computedDerivations == [] {
      return Value(None);
    }
    var node := computedDerivations[0];
    if |w| == 1 {
      return Value(Some(Built(Branch(g.start, [Leaf(node.edge.value.expansion[0])]))));
    }
    return Value(Some(Reconstructed(g.start, node)));
  }

  /** A word is in the language when a parse tree comes back. */
  method IsInLanguage(g: Grammar, w: Word) returns (r: Outcome<bool>)
    ensures !IsValidInput(g, ExpansionMapOf(g.rules), w) ==> r == Value(false)
    ensures w == [] && HasEpsilonRule(g) ==> r == Crash(Diverges)
    ensures |w| == 1 && !AllSpaces(w) && IsInChomskyNormalForm(g) ==>
      r == Value(HasRule(g, g.start, w) && IsTerminalWord(w))
    ensures |w| >= 2 && !AllSpaces(w) && IsInChomskyNormalForm(g) ==>
      r == Value(StepsTo(g, [g.start], w, 2 * |w| - 1))
  {
    var tree := GenerateParseTree(g, w);
    if tree.Crash? {
      return Crash(tree.fault);
    }
    return Value(tree.value.Some?);
  }

  // ---------------------------------------------------------------------
  // The child array of a rebuilt tree node

  /** Drops the second slot of a child array when it is empty; an array
      without a second slot is read out of bounds. */
  function ResolveChildArray(a: seq<Option<ParseTree>>): (r: Outcome<seq<Option<ParseTree>>>)
    ensures r.Crash? <==> |a| < 2
    ensures r.Crash? ==> r.fault == IndexOutOfBounds
    ensures r.Value? ==> 1 <= |r.value| <= |a| && r.value == a[..|r.value|]
    ensures r.Value? ==> (|r.value| == 1 <==> a[1].None?)
    ensures r.Value? && a[1].Some? ==> r.value == a
  {
    if |a| < 2 then Crash(IndexOutOfBounds)
    else if a[1].None? then Value([a[0]])
    else Value(a)
  }

  /** On the two-slot arrays built for a node's children, resolving keeps
      the first slot and leaves no empty slot after it. */
  lemma ResolveTwoSlots(a: seq<Option<ParseTree>>)
    requires |a| == 2
    ensures ResolveChildArray(a).Value?
    ensures ResolveChildArray(a).value[0] == a[0]
    ensures forall p :: 1 <= p < |ResolveChildArray(a).value| ==> ResolveChildArray(a).value[p].Some?
  {
  }
}
