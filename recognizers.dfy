/** The two recognizers side by side: on a grammar in Chomsky Normal Form
    and a non-empty word of terminals, the table-filling parser and the
    derivation-tree parser give the same answer, except that the tree parser
    turns down a word made of blanks before looking at the grammar. */
module Recognizers {
  import opened ContextFreeGrammar
  import opened Derivations
  import CYKParser
  import Parser

  /** For a single symbol, a derivation is one rule. */
  lemma DerivesOneSymbol(g: Grammar, w: Word)
    requires IsInChomskyNormalForm(g)
    requires |w| == 1
    ensures Derives(g, g.start, w) <==> HasRule(g, g.start, w) && IsTerminalWord(w)
  {
    if HasRule(g, g.start, w) {
      var r :| r in g.rules && r.lhs == g.start && r.rhs == w;
      assert IsCnfRule(g, r);
      assert forall s :: s in w ==> s == w[0];
    }
  }

  /** Both parsers run on the same grammar and word. */
  method Agree(g: Grammar, w: Word) returns (cyk: Outcome<bool>, brute: Outcome<bool>)
    requires IsInChomskyNormalForm(g)
    requires |w| >= 1
    ensures cyk == Value(Derives(g, g.start, w))
    ensures Parser.AllSpaces(w) ==> brute == Value(false)
    ensures !Parser.AllSpaces(w) && IsTerminalWord(w) ==> brute == cyk
  {
    cyk := CYKParser.IsInLanguage(g, w);
    brute := Parser.IsInLanguage(g, w);
    if |w| == 1 {
      DerivesOneSymbol(g, w);
    } else if IsTerminalWord(w) {
      DerivesIffSteps(g, w);
    }
  }
}
