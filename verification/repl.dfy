/** The REPL's input normaliser. */
module Repl {
  import opened Strings

  /**
    `cleanInput`: lower-case the line, then split it around runs of
    whitespace. Every word is non-empty, free of whitespace and lower-case.
   */
  function CleanInput(text: string): (words: seq<string>)
    ensures forall w :: w in words ==> IsWord(w) && NoUpper(w)
  {
    FieldsNoUpper(ToLower(text));
    Fields(ToLower(text))
  }

  /** A blank line (empty or only whitespace), and only a blank line, yields no words. */
  lemma CleanInputBlank(text: string)
    ensures CleanInput(text) == [] <==> AllSpace(text)
  {
  }

  /**
    The words keep their input order: laid out between the whitespace gaps
    of the lower-cased line, they rebuild it exactly.
   */
  lemma CleanInputLayout(text: string)
    ensures Separators(Gaps(ToLower(text)))
    ensures Interleave(CleanInput(text), Gaps(ToLower(text))) == ToLower(text)
  {
    FieldsDecompose(ToLower(text));
  }

  /** The words glued together are the lower-cased line without its whitespace. */
  lemma CleanInputConcat(text: string)
    ensures Concat(CleanInput(text)) == RemoveSpaces(ToLower(text))
  {
    FieldsConcat(ToLower(text));
  }

  /** Cleaning the words joined by single spaces gives the same words. */
  lemma CleanInputIdempotent(text: string)
    ensures CleanInput(Join(CleanInput(text), " ")) == CleanInput(text)
  {
    var words := CleanInput(text);
    JoinNoUpper(words, " ");
    ToLowerOfLower(Join(words, " "));
    FieldsOfJoin(words);
  }

  /** First case of the REPL's unit test: surrounding and repeated spaces are dropped. */
  lemma CleanInputSpacedWords()
    ensures CleanInput("  hello  world  ") == ["hello", "world"]
  {
    SpacedLineLowered();
    SpacedLineLayout();
    FieldsOfLayout(["hello", "world"], ["  ", "  ", "  "]);
  }

  /** Second case of the REPL's unit test: mixed-case names come out lower-case. */
  lemma CleanInputMixedCase()
    ensures CleanInput("  Charmander Bulbasaur PIKACHU  ") == ["charmander", "bulbasaur", "pikachu"]
  {
    MixedLineLowered();
    MixedLineLayout();
    FieldsOfLayout(["charmander", "bulbasaur", "pikachu"], ["  ", " ", " ", "  "]);
  }

  lemma SpacedLineLowered()
    ensures ToLower("  hello  world  ") == "  hello  world  "
  {
  }

  lemma SpacedLineLayout()
    ensures Interleave(["hello", "world"], ["  ", "  ", "  "]) == "  hello  world  "
  {
  }

  lemma MixedLineLowered()
    ensures ToLower("  Charmander Bulbasaur PIKACHU  ") == "  charmander bulbasaur pikachu  "
  {
    var line := "  Charmander Bulbasaur PIKACHU  ";
    var lowered := "  charmander bulbasaur pikachu  ";
    assert forall i :: 0 <= i < |line| ==> LowerChar(line[i]) == lowered[i];
  }

  lemma MixedLineLayout()
    ensures Interleave(["charmander", "bulbasaur", "pikachu"], ["  ", " ", " ", "  "]) == "  charmander bulbasaur pikachu  "
  {
  }
}
