/** The CYK recognizer: a table with one cell per span [i, j] of the input
    (1-indexed, inclusive) holding the variables that derive that span,
    filled first from the rules V -> t on the diagonal, then from the rules
    V -> B C by increasing span length. */
module CYKParser {
  import opened ContextFreeGrammar
  import opened Derivations

  /** A cell of the table: null until a first variable is recorded in it. */
  type Cell = Option<Word>

  /** The position of the first occurrence of `s` in `w`, or -1. */
  function IndexOfFirst(w: Word, s: Symbol): (r: int)
    ensures -1 <= r < |w|
    ensures r == -1 <==> s !in w
    ensures r >= 0 ==> w[r] == s && s !in w[..r]
  {
    if w == [] then -1
    else if w[0] == s then 0
    else
      var t := IndexOfFirst(w[1..], s);
      assert forall x :: x in w <==> x == w[0] || x in w[1..];
      if t == -1 then -1
      else
        assert w[..t + 1] == [w[0]] + w[1..][..t];
        t + 1
  }

  /** Appending a symbol keeps the first position of every symbol already
      present. */
  lemma {:induction false} IndexOfFirstAppend(w: Word, v: Symbol, x: Symbol)
    requires x in w
    ensures IndexOfFirst(w + [v], x) == IndexOfFirst(w, x)
  {
    if w[0] != x {
      assert (w + [v])[1..] == w[1..] + [v];
      IndexOfFirstAppend(w[1..], v, x);
    }
  }

  /** The test the table loops make on a cell: it is not null and holds `v`. */
  predicate Occurs(cell: Cell, v: Symbol) {
    cell.Some? && IndexOfFirst(cell.value, v) > -1
  }

  function ConcatSymbolToWord(s: Symbol, w: Word): (r: Word)
    ensures |r| == |w| + 1 && r[..|w|] == w && r[|w|] == s
  {
    w + [s]
  }

  /** Recording `v` in a cell: a new one-symbol word in a null cell, otherwise
      the cell's word with `v` appended. The cell only grows at its end, so
      every variable already present keeps its first position. */
  function Record(cell: Cell, v: Symbol): (r: Cell)
    ensures r.Some?
    ensures cell.None? ==> r.value == [v]
    ensures cell.Some? ==> |r.value| == |cell.value| + 1 && r.value[..|cell.value|] == cell.value
    ensures forall x :: Occurs(r, x) <==> Occurs(cell, x) || x == v
    ensures forall x :: Occurs(cell, x) ==> IndexOfFirst(r.value, x) == IndexOfFirst(cell.value, x)
  {
    if cell.None? then Some([v])
    else
      var r := ConcatSymbolToWord(v, cell.value);
      assert r == cell.value + [v];
      assert forall x :: x in r <==> x in cell.value || x == v;
      forall x | x in cell.value
        ensures IndexOfFirst(r, x) == IndexOfFirst(cell.value, x)
      {
        IndexOfFirstAppend(cell.value, v, x);
      }
      Some(r)
  }

  /** The rules whose right-hand side has length `len`. */
  function RulesOfLength(rules: seq<Rule>, len: nat): (r: seq<Rule>)
    ensures forall x :: x in r <==> x in rules && |x.rhs| == len
  {
    if rules == [] then []
    else
      assert forall x :: x in rules <==> x == rules[0] || x in rules[1..];
      (if |rules[0].rhs| == len then [rules[0]] else []) + RulesOfLength(rules[1..], len)
  }

  /** The input gate: the empty word passes when the start variable has the
      expansion epsilon, any other word when the grammar is in Chomsky Normal
      Form. */
  function IsValidInput(g: Grammar, expansionsMap: ExpansionMap, w: Word): (valid: bool)
    requires expansionsMap == ExpansionMapOf(g.rules)
    ensures valid <==> if w == [] then HasEpsilonRule(g) else IsInChomskyNormalForm(g)
  {
    ExpansionsOfMember(g.rules, g.start, []);
    if w == [] then [] in ExpansionsOf(expansionsMap, g.start)
    else IsInChomskyNormalForm(g)
  }

  /** The table cell for the span [i, j] holds exactly the variables that
      derive `w[i-1..j]`. */
  ghost predicate Means(g: Grammar, w: Word, cell: Cell, i: nat, j: nat)
    requires 1 <= i <= j <= |w|
  {
    forall v :: Occurs(cell, v) <==> Derives(g, v, w[i - 1..j])
  }

  /** Some binary rule v -> B C has B in `left` and C in `right`. */
  ghost predicate Combines(g: Grammar, left: Cell, right: Cell, v: Symbol) {
    exists r :: r in g.rules && |r.rhs| == 2 && r.lhs == v && Occurs(left, r.rhs[0]) && Occurs(right, r.rhs[1])
  }

  /** Only cells of spans 1 <= i <= j <= n are ever written. */
  ghost predicate OutsideNull(table: array2<Cell>, n: nat)
    reads table
  {
    forall a, b :: 0 <= a < table.Length0 && 0 <= b < table.Length1 && !(1 <= a <= b <= n) ==>
      table[a, b] == None
  }

  /** The unit pass: cell [i, i] receives, in rule order, the variable of
      every rule V -> w[i-1]. */
  method UnitPass(g: Grammar, w: Word, table: array2<Cell>)
    requires table.Length0 == 3 * |w| && table.Length1 == 3 * |w|
    requires forall a, b :: 0 <= a < table.Length0 && 0 <= b < table.Length1 ==> table[a, b] == None
    modifies table
    ensures forall a, b :: 0 <= a < table.Length0 && 0 <= b < table.Length1 && !(1 <= a == b <= |w|) ==>
      table[a, b] == None
    ensures forall i :: 1 <= i <= |w| ==> Means(g, w, table[i, i], i, i)
  {
    var n := |w|;
    var oneLengthRules := RulesOfLength(g.rules, 1);
    for i := 1 to n + 1
      invariant forall a, b :: 0 <= a < table.Length0 && 0 <= b < table.Length1 && !(1 <= a == b < i) ==>
        table[a, b] == None
      invariant forall a :: 1 <= a < i ==> Means(g, w, table[a, a], a, a)
    {
      var wi := w[i - 1];
      for m := 0 to |oneLengthRules|
        invariant forall a, b :: 0 <= a < table.Length0 && 0 <= b < table.Length1 && !(1 <= a == b < i) && (a, b) != (i, i) ==>
          table[a, b] == None
        invariant forall a :: 1 <= a < i ==> Means(g, w, table[a, a], a, a)
        invariant forall v :: Occurs(table[i, i], v) <==> YieldsUpTo(oneLengthRules, m, wi, v)
      {
        var rule := oneLengthRules[m];
        assert rule in oneLengthRules;
        var b := rule.rhs[0];
        if wi == b {
          table[i, i] := Record(table[i, i], rule.lhs);
        }
      }
      YieldsByList(g, oneLengthRules, wi);
      assert w[i - 1..i] == [wi];
    }
  }

  /** Some unit rule among the first `m` of `rules` turns `v` into `t`. */
  ghost predicate YieldsUpTo(rules: seq<Rule>, m: nat, t: Symbol, v: Symbol)
    requires m <= |rules|
  {
    m > 0 &&
      (|| YieldsUpTo(rules, m - 1, t, v)
       || (|rules[m - 1].rhs| == 1 && rules[m - 1].lhs == v && rules[m - 1].rhs[0] == t))
  }

  /** The rule that `YieldsUpTo` found, by its index. */
  lemma {:induction false} YieldsUpToIndex(rules: seq<Rule>, m: nat, t: Symbol, v: Symbol)
    requires m <= |rules|
    ensures YieldsUpTo(rules, m, t, v) <==>
      exists q :: 0 <= q < m && |rules[q].rhs| == 1 && rules[q].lhs == v && rules[q].rhs[0] == t
  {
    if m > 0 {
      YieldsUpToIndex(rules, m - 1, t, v);
    }
  }

  /** Going through the whole list of unit rules finds exactly the
      variables with a rule `v -> t`. */
  lemma YieldsByList(g: Grammar, rules: seq<Rule>, t: Symbol)
    requires forall x :: x in rules <==> x in g.rules && |x.rhs| == 1
    ensures forall v :: YieldsUpTo(rules, |rules|, t, v) <==> HasRule(g, v, [t])
  {
    forall v | HasRule(g, v, [t])
      ensures YieldsUpTo(rules, |rules|, t, v)
    {
      YieldsUpToIndex(rules, |rules|, t, v);
      var r :| r in g.rules && r.lhs == v && r.rhs == [t];
      assert r in rules;
      var q :| 0 <= q < |rules| && rules[q] == r;
    }
    forall v | YieldsUpTo(rules, |rules|, t, v)
      ensures HasRule(g, v, [t])
    {
      YieldsUpToIndex(rules, |rules|, t, v);
      var q :| 0 <= q < |rules| && |rules[q].rhs| == 1 && rules[q].lhs == v && rules[q].rhs[0] == t;
      assert rules[q] in rules;
      assert rules[q].rhs == [t];
    }
  }

  /** The rule loop at one split point k of the span [i, j]: every rule
      v -> B C with B in cell [i, k] and C in cell [k+1, j] appends v to cell
      [i, j]. The test reads cell [k+1, j] only once cell [i, k] is known to
      be non-null, so the spans that run past the input are never read out of
      bounds and never written. */
  method CombineAt(g: Grammar, twoLengthRules: seq<Rule>, table: array2<Cell>, n: nat, i: nat, k: nat, j: nat)
    requires forall x :: x in twoLengthRules <==> x in g.rules && |x.rhs| == 2
    requires 1 <= i <= k < j && k < table.Length1 && i < table.Length0
    requires i <= n ==> j < table.Length1 && j <= n + n
    requires table.Length0 == table.Length1 && n + n < table.Length0
    requires OutsideNull(table, n)
    modifies table
    ensures forall a, b :: 0 <= a < table.Length0 && 0 <= b < table.Length1 && (a, b) != (i, j) ==>
      table[a, b] == old(table[a, b])
    ensures j > n ==> forall a, b :: 0 <= a < table.Length0 && 0 <= b < table.Length1 ==>
      table[a, b] == old(table[a, b])
    ensures OutsideNull(table, n)
    ensures j <= n ==> forall v :: Occurs(table[i, j], v) <==>
      Occurs(old(table[i, j]), v) || Combines(g, table[i, k], table[k + 1, j], v)
    ensures j <= n && old(table[i, j]).Some? ==>
      table[i, j].Some? && old(table[i, j]).value <= table[i, j].value
  {
    for m := 0 to |twoLengthRules|
      invariant forall a, b :: 0 <= a < table.Length0 && 0 <= b < table.Length1 && (a, b) != (i, j) ==>
        table[a, b] == old(table[a, b])
      invariant j > n ==> forall a, b :: 0 <= a < table.Length0 && 0 <= b < table.Length1 ==>
        table[a, b] == old(table[a, b])
      invariant OutsideNull(table, n)
      invariant j <= n ==> forall v :: Occurs(table[i, j], v) <==>
        Occurs(old(table[i, j]), v) || CombinesUpTo(twoLengthRules, m, table[i, k], table[k + 1, j], v)
      invariant j <= n && old(table[i, j]).Some? ==>
        table[i, j].Some? && old(table[i, j]).value <= table[i, j].value
    {
      var rule := twoLengthRules[m];
      assert rule in twoLengthRules;
      assert |rule.rhs| == 2;
      var b := rule.rhs[0];
      var c := rule.rhs[1];
      if table[i, k].Some? && IndexOfFirst(table[i, k].value, b) > -1 &&
         table[k + 1, j].Some? && IndexOfFirst(table[k + 1, j].value, c) > -1
      {
        table[i, j] := Record(table[i, j], rule.lhs);
      }
    }
    if j <= n {
      CombinesByList(g, twoLengthRules, table[i, k], table[k + 1, j]);
    }
  }

  /** Some binary rule among the first `m` of `rules` puts `v` over the two cells. */
  ghost predicate CombinesUpTo(rules: seq<Rule>, m: nat, left: Cell, right: Cell, v: Symbol)
    requires m <= |rules|
  {
    m > 0 &&
      (|| CombinesUpTo(rules, m - 1, left, right, v)
       || (&& |rules[m - 1].rhs| == 2 && rules[m - 1].lhs == v
           && Occurs(left, rules[m - 1].rhs[0]) && Occurs(right, rules[m - 1].rhs[1])))
  }

  /** The rule that `CombinesUpTo` found, by its index. */
  lemma {:induction false} CombinesUpToIndex(rules: seq<Rule>, m: nat, left: Cell, right: Cell, v: Symbol)
    requires m <= |rules|
    ensures CombinesUpTo(rules, m, left, right, v) <==>
      exists q :: 0 <= q < m && |rules[q].rhs| == 2 && rules[q].lhs == v &&
        Occurs(left, rules[q].rhs[0]) && Occurs(right, rules[q].rhs[1])
  {
    if m > 0 {
      CombinesUpToIndex(rules, m - 1, left, right, v);
    }
  }

  /** Going through the whole list of binary rules finds exactly the
      variables the grammar combines over the two cells. */
  lemma CombinesByList(g: Grammar, rules: seq<Rule>, left: Cell, right: Cell)
    requires forall x :: x in rules <==> x in g.rules && |x.rhs| == 2
    ensures forall v :: CombinesUpTo(rules, |rules|, left, right, v) <==> Combines(g, left, right, v)
  {
    forall v | Combines(g, left, right, v)
      ensures CombinesUpTo(rules, |rules|, left, right, v)
    {
      CombinesUpToIndex(rules, |rules|, left, right, v);
      var r :| r in g.rules && |r.rhs| == 2 && r.lhs == v && Occurs(left, r.rhs[0]) && Occurs(right, r.rhs[1]);
      assert r in rules;
      var q :| 0 <= q < |rules| && rules[q] == r;
    }
    forall v | CombinesUpTo(rules, |rules|, left, right, v)
      ensures Combines(g, left, right, v)
    {
      CombinesUpToIndex(rules, |rules|, left, right, v);
      var q :| 0 <= q < |rules| && |rules[q].rhs| == 2 && rules[q].lhs == v &&
        Occurs(left, rules[q].rhs[0]) && Occurs(right, rules[q].rhs[1]);
      assert rules[q] in rules;
    }
  }

  /** Slicing the span [i, j] at split point k. */
  lemma SliceAt(w: Word, i: nat, k: nat, j: nat)
    requires 1 <= i <= k < j <= |w|
    ensures w[i - 1..j][..k - i + 1] == w[i - 1..k]
    ensures w[i - 1..j][k - i + 1..] == w[k..j]
  {
  }

  /** The span [i, j] (1-indexed) is derived from v exactly when some split
      point i <= k < j and some rule v -> B C have B deriving [i, k] and C
      deriving [k+1, j]. */
  lemma SpanMeaning(g: Grammar, w: Word, v: Symbol, i: nat, j: nat)
    requires 1 <= i < j <= |w|
    ensures Derives(g, v, w[i - 1..j]) <==>
      exists k, r :: i <= k < j && r in g.rules && |r.rhs| == 2 && r.lhs == v &&
        Derives(g, r.rhs[0], w[i - 1..k]) && Derives(g, r.rhs[1], w[k..j])
  {
    if Derives(g, v, w[i - 1..j]) {
      SpanSplitFound(g, w, v, i, j);
    }
    if exists k, r :: i <= k < j && r in g.rules && |r.rhs| == 2 && r.lhs == v &&
        Derives(g, r.rhs[0], w[i - 1..k]) && Derives(g, r.rhs[1], w[k..j])
    {
      var k, r :| i <= k < j && r in g.rules && |r.rhs| == 2 && r.lhs == v &&
        Derives(g, r.rhs[0], w[i - 1..k]) && Derives(g, r.rhs[1], w[k..j]);
      SpanSplitUsed(g, w, v, i, k, j, r);
    }
  }

  lemma SpanSplitFound(g: Grammar, w: Word, v: Symbol, i: nat, j: nat)
    requires 1 <= i < j <= |w| && Derives(g, v, w[i - 1..j])
    ensures exists k, r ::
      i <= k < j && r in g.rules && |r.rhs| == 2 && r.lhs == v &&
      Derives(g, r.rhs[0], w[i - 1..k]) && Derives(g, r.rhs[1], w[k..j])
  {
    var u := w[i - 1..j];
    var s, r :| 1 <= s < |u| && r in g.rules && r.lhs == v && |r.rhs| == 2 &&
      Derives(g, r.rhs[0], u[..s]) && Derives(g, r.rhs[1], u[s..]);
    SliceAt(w, i, i - 1 + s, j);
  }

  lemma SpanSplitUsed(g: Grammar, w: Word, v: Symbol, i: nat, k: nat, j: nat, r: Rule)
    requires 1 <= i <= k < j <= |w|
    requires r in g.rules && |r.rhs| == 2 && r.lhs == v
    requires Derives(g, r.rhs[0], w[i - 1..k]) && Derives(g, r.rhs[1], w[k..j])
    ensures Derives(g, v, w[i - 1..j])
  {
    SliceAt(w, i, k, j);
    var u := w[i - 1..j];
    var s := k - i + 1;
    assert 1 <= s < |u| && Derives(g, r.rhs[0], u[..s]) && Derives(g, r.rhs[1], u[s..]);
  }

  /** Once every split point has been tried, cell [i, j] holds exactly the
      variables that derive the span, provided every shorter cell does. */
  lemma SpanCell(g: Grammar, w: Word, table: array2<Cell>, i: nat, j: nat)
    requires 1 <= i < j <= |w| && j < table.Length0 && j < table.Length1
    requires forall k :: i <= k < j ==> Means(g, w, table[i, k], i, k) && Means(g, w, table[k + 1, j], k + 1, j)
    requires forall v :: Occurs(table[i, j], v) <==> exists k :: i <= k < j && Combines(g, table[i, k], table[k + 1, j], v)
    ensures Means(g, w, table[i, j], i, j)
  {
    forall v
      ensures Occurs(table[i, j], v) <==> Derives(g, v, w[i - 1..j])
    {
      SpanMeaning(g, w, v, i, j);
      if Occurs(table[i, j], v) {
        var k :| i <= k < j && Combines(g, table[i, k], table[k + 1, j], v);
        CellSound(g, w, table[i, k], table[k + 1, j], v, i, k, j);
      }
      if Derives(g, v, w[i - 1..j]) {
        var k, r :| i <= k < j && r in g.rules && |r.rhs| == 2 && r.lhs == v &&
          Derives(g, r.rhs[0], w[i - 1..k]) && Derives(g, r.rhs[1], w[k..j]);
        CellComplete(g, w, table[i, k], table[k + 1, j], v, i, k, j, r);
      }
    }
  }

  lemma CellSound(g: Grammar, w: Word, left: Cell, right: Cell, v: Symbol, i: nat, k: nat, j: nat)
    requires 1 <= i <= k < j <= |w|
    requires Means(g, w, left, i, k) && Means(g, w, right, k + 1, j)
    requires Combines(g, left, right, v)
    ensures Derives(g, v, w[i - 1..j])
  {
    var r :| r in g.rules && |r.rhs| == 2 && r.lhs == v && Occurs(left, r.rhs[0]) && Occurs(right, r.rhs[1]);
    SpanSplitUsed(g, w, v, i, k, j, r);
  }

  lemma CellComplete(g: Grammar, w: Word, left: Cell, right: Cell, v: Symbol, i: nat, k: nat, j: nat, r: Rule)
    requires 1 <= i <= k < j <= |w|
    requires Means(g, w, left, i, k) && Means(g, w, right, k + 1, j)
    requires r in g.rules && |r.rhs| == 2 && r.lhs == v
    requires Derives(g, r.rhs[0], w[i - 1..k]) && Derives(g, r.rhs[1], w[k..j])
    ensures Combines(g, left, right, v)
  {
    assert Occurs(left, r.rhs[0]) && Occurs(right, r.rhs[1]);
  }

  /** One span [i, i+l-1] of the binary pass: the split points k = i .. j-1 in
      increasing order. With every shorter span already final, the cell ends
      up holding exactly the variables that derive the span; a span that runs
      past the input leaves the table as it was. */
  method FillSpan(g: Grammar, w: Word, twoLengthRules: seq<Rule>, table: array2<Cell>, l: nat, i: nat)
    requires forall x :: x in twoLengthRules <==> x in g.rules && |x.rhs| == 2
    requires 2 <= l <= |w| && 1 <= i <= |w| + l + 1
    requires table.Length0 == 3 * |w| && table.Length1 == 3 * |w|
    requires OutsideNull(table, |w|)
    requires forall a, b :: 1 <= a <= b <= |w| && b - a + 1 < l ==> Means(g, w, table[a, b], a, b)
    requires i + l - 1 <= |w| ==> table[i, i + l - 1] == None
    modifies table
    ensures forall a, b :: 0 <= a < table.Length0 && 0 <= b < table.Length1 && (a, b) != (i, i + l - 1) ==>
      table[a, b] == old(table[a, b])
    ensures i + l - 1 > |w| ==> forall a, b :: 0 <= a < table.Length0 && 0 <= b < table.Length1 ==>
      table[a, b] == old(table[a, b])
    ensures OutsideNull(table, |w|)
    ensures i + l - 1 <= |w| ==> Means(g, w, table[i, i + l - 1], i, i + l - 1)
  {
    var n := |w|;
    var j := i + l - 1;
    for k := i to j
      invariant forall a, b :: 0 <= a < table.Length0 && 0 <= b < table.Length1 && (a, b) != (i, j) ==>
        table[a, b] == old(table[a, b])
      invariant j > n ==> forall a, b :: 0 <= a < table.Length0 && 0 <= b < table.Length1 ==>
        table[a, b] == old(table[a, b])
      invariant OutsideNull(table, n)
      invariant j <= n ==> forall v :: Occurs(table[i, j], v) <==>
        exists k' :: i <= k' < k && Combines(g, table[i, k'], table[k' + 1, j], v)
    {
      CombineAt(g, twoLengthRules, table, n, i, k, j);
    }
    if j <= n {
      SpanCell(g, w, table, i, j);
    }
  }

  /** The binary pass: span lengths l = 2 .. n in increasing order, and for
      each the start indices i = 1 .. n+l+1. Every span of length l is final
      once iteration l is over and is not written again. */
  method BinaryPass(g: Grammar, w: Word, table: array2<Cell>)
    requires table.Length0 == 3 * |w| && table.Length1 == 3 * |w|
    requires OutsideNull(table, |w|)
    requires forall a :: 1 <= a <= |w| ==> Means(g, w, table[a, a], a, a)
    requires forall a, b :: 1 <= a < b <= |w| ==> table[a, b] == None
    modifies table
    ensures OutsideNull(table, |w|)
    ensures forall a, b :: 1 <= a <= b <= |w| ==> Means(g, w, table[a, b], a, b)
  {
    var n := |w|;
    var twoLengthRules := RulesOfLength(g.rules, 2);
    var l := 2;
    while l <= n
      invariant 2 <= l && (n >= 1 ==> l <= n + 1)
      invariant OutsideNull(table, n)
      invariant forall a, b :: 1 <= a <= b <= n && b - a + 1 < l ==> Means(g, w, table[a, b], a, b)
      invariant forall a, b :: 1 <= a <= b <= n && b - a + 1 >= l ==> table[a, b] == None
    {
      for i := 1 to n + l + 2
        invariant OutsideNull(table, n)
        invariant forall a, b :: 1 <= a <= b <= n && (b - a + 1 < l || (b - a + 1 == l && a < i)) ==>
          Means(g, w, table[a, b], a, b)
        invariant forall a, b :: 1 <= a <= b <= n && (b - a + 1 > l || (b - a + 1 == l && a >= i)) ==>
          table[a, b] == None
      {
        FillSpan(g, w, twoLengthRules, table, l, i);
      }
      l := l + 1;
    }
  }

  /** The CYK membership test. An input the gate rejects is not in the
      language. The empty word that passes the gate reads cell [1][0] of a
      0 x 0 table and stops with an index fault. Any other word is accepted
      exactly when the start variable derives it. */
  method IsInLanguage(g: Grammar, w: Word) returns (r: Outcome<bool>)
    ensures !IsValidInput(g, ExpansionMapOf(g.rules), w) ==> r == Value(false)
    ensures IsValidInput(g, ExpansionMapOf(g.rules), w) && w == [] ==> r == Crash(IndexOutOfBounds)
    ensures IsValidInput(g, ExpansionMapOf(g.rules), w) && w != [] ==> r == Value(Derives(g, g.start, w))
  {
    var expansionsMap := ExpansionMapOf(g.rules);
    if !IsValidInput(g, expansionsMap, w) {
      return Value(false);
    }
    var n := |w|;
    var table := new Cell[3 * n, 3 * n]((_, _) => None);
    UnitPass(g, w, table);
    BinaryPass(g, w, table);
    if table.Length0 <= 1 || table.Length1 <= n {
      return Crash(IndexOutOfBounds);
    }
    assert Means(g, w, table[1, n], 1, n);
    assert w[0..n] == w;
    assert Occurs(table[1, n], g.start) <==> Derives(g, g.start, w);
    r := Value(table[1, n].Some? && IndexOfFirst(table[1, n].value, g.start) > -1);
  }

  /** The CYK parser builds no trees: after the gate it returns null either way. */
  function GenerateParseTree(g: Grammar, w: Word): (t: Option<ParseTree>)
    ensures t == None
  {
    var expansionsMap := ExpansionMapOf(g.rules);
    if !IsValidInput(g, expansionsMap, w) then None
    else None
  }
}
