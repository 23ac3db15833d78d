/** Worked examples of the title key and of the duplicate check, on
    concrete titles. */
module Examples {
  import opened Text
  import opened Tasks
  import opened Store

  /** A tab between two words becomes one space. */
  lemma NormalizedTabExample(s: string)
    requires s == "a\tb"
    ensures Normalized(s) == "a b"
  {
    assert AllWhitespace(s[1..2]) by { assert s[1..2][0] == '\t'; }
    NormalizedTwoWords(s, 1, 2);
  }

  /** Leading and trailing spaces go, and a tab between words becomes one
      space. */
  lemma NormalizedTrimExample(s: string)
    requires s == "  a\tb  "
    ensures Normalized(s) == "a b"
  {
    assert AllWhitespace(s[..2]) && AllWhitespace(s[5..]) by {
      assert s[..2] == s[5..] == "  ";
    }
    NormalizedSurrounded(s, 2, 5);
    NormalizedTabExample(s[2..5]);
  }

  /** Repeated inner whitespace collapses and letters are lower-cased. */
  lemma NormalizedSpacingExample(s: string)
    requires s == "buy   MILK"
    ensures Normalized(s) == "buy milk"
  {
    NormalizedTwoWords(s, 3, 6);
  }

  /** A title already in canonical form keys to its lower-case spelling. */
  lemma NormalizedCaseExample(t: string)
    requires t == "Buy milk"
    ensures Normalized(t) == "buy milk"
  {
    NormalizedTwoWords(t, 3, 4);
  }

  /** "buy   MILK" is refused as a duplicate of "Buy milk". */
  lemma DuplicateExample(tasks: seq<Task>, id: Uuid, title: string)
    requires tasks == [Task(id, "Buy milk", false)] && title == "buy   MILK"
    ensures HasDuplicate(tasks, title)
  {
    NormalizedSpacingExample(title);
    NormalizedCaseExample(tasks[0].title);
  }
}
