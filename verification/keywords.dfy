/** The reserved words a generated binding name must avoid: keywords and contextual
    keywords of the target language that are legal identifiers by shape but would
    change the meaning of the program if used as a binding. */
module Keywords {

  /** The fixed list, 26 words of two to four characters. */
  const ReservedWords: set<string> := {
    "as", "do", "if", "in", "is", "of",
    "any", "for", "get", "let", "new", "out", "set", "try", "var",
    "case", "else", "enum", "from", "meta", "null", "this", "true", "type", "void", "with"
  }

  /** The check the mangler applies to each candidate. A one-character candidate is
      accepted without consulting the list; the list decides everything else. */
  predicate IsKeyword(s: string)
  {
    if |s| == 1 then false else s in ReservedWords
  }

  /** Every reserved word is between two and four characters long. */
  lemma ReservedWordLengths(w: string)
    requires w in ReservedWords
    ensures 2 <= |w| <= 4
  {
  }

  /** Skipping the list lookup for one-character names is only a shortcut: the filter
      accepts exactly the names outside the list. */
  lemma ShortcutIsSafe(s: string)
    ensures IsKeyword(s) <==> s in ReservedWords
  {
    if |s| == 1 && s in ReservedWords {
      ReservedWordLengths(s);
    }
  }

  /** A name of at most one character is never rejected. */
  lemma ShortNamesAccepted(s: string)
    requires |s| <= 1
    ensures !IsKeyword(s)
  {
    if s in ReservedWords {
      ReservedWordLengths(s);
    }
  }

  /** The list has at most 26 entries; this bounds how many candidates the mangler can skip. */
  lemma ReservedWordCount()
    ensures |ReservedWords| <= 26
  {
  }

  /** Any collection of names the filter rejects has at most 26 members. */
  lemma KeywordSetIsSmall(s: set<string>)
    requires forall w :: w in s ==> IsKeyword(w)
    ensures |s| <= 26
  {
    assert s <= ReservedWords;
    assert ReservedWords == s + (ReservedWords - s);
    ReservedWordCount();
  }
}
