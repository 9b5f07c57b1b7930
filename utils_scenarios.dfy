/** Concrete inputs for `trim` and `trimAll`, derived from the general lemmas
    of module Utils. */
module UtilsScenarios {
  import opened Utils

  /** Both outer runs of spaces go. */
  lemma TrimPaddedWord()
    ensures Trim("  hello  ") == "hello"
  {
    assert "  " + "hello" + "  " == "  hello  ";
    TrimUnique("  ", "hello", "  ");
  }

  /** The empty string trims to itself. */
  lemma TrimEmptyString()
    ensures Trim("") == ""
  {
    TrimEmptyIffAllWs("");
  }

  /** Without the `m` flag an interior line break is not an anchor: only the
      outer space and tab are removed. */
  lemma TrimKeepsInteriorLineBreak()
    ensures Trim(" a\nb\t") == "a\nb"
  {
    assert " " + "a\nb" + "\t" == " a\nb\t";
    TrimUnique(" ", "a\nb", "\t");
  }

  /** Whitespace of every kind is removed from everywhere in the string. */
  lemma TrimAllMixedWhitespace()
    ensures TrimAll("a b\tc\n") == "abc"
  {
    TrimAllIsRemoveWs("a b\tc\n");
    RemoveWsMixedWhitespace();
  }

  /** The `/\s/g` replace alone on the same input, one pair at a time. */
  lemma RemoveWsMixedWhitespace()
    ensures RemoveWs("a b\tc\n") == "abc"
  {
    assert "a b\tc\n" == "a " + "b\t" + "c\n";
    RemoveWsAppend("a " + "b\t", "c\n");
    RemoveWsAppend("a ", "b\t");
    RemoveWsPair('a', ' ');
    RemoveWsPair('b', '\t');
    RemoveWsPair('c', '\n');
  }

  /** A non-whitespace character followed by a whitespace one keeps only
      the first. */
  lemma RemoveWsPair(c: char, w: char)
    requires !IsWs(c) && IsWs(w)
    ensures RemoveWs([c, w]) == [c]
  {
    assert [c, w][1..] == [w];
    assert [w][1..] == [];
  }

  /** A blank string loses everything. */
  lemma TrimAllBlank()
    ensures TrimAll("   ") == ""
  {
    TrimAllIsRemoveWs("   ");
    RemoveWsOfAllWs("   ");
  }
}
