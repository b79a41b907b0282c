/** Concrete lookups over a one-entry knowledge base about opening hours. */
module Scenarios {
  import opened Wrappers
  import opened Text
  import opened KnowledgeBase
  import opened KnowledgeBaseProperties

  const HoursEntry := Entry(Some(["opening hours", "hours"]), Some("We are open 9-5."))

  /** A query without the letter 'r', in either case, matches neither keyword. */
  lemma NoLetterRNoMatch(query: string)
    requires forall i :: 0 <= i < |query| ==> query[i] != 'r' && query[i] != 'R'
    ensures Answer([HoursEntry], "I don't know", query) == Some("I don't know")
  {
    var lq := Lower(query);
    var kws := KeywordsOf(HoursEntry);
    assert kws == ["opening hours", "hours"];
    assert 'r' !in lq;
    assert Lower(kws[0])[11] == LowerChar(kws[0][11]) == 'r';
    assert Lower(kws[1])[3] == LowerChar(kws[1][3]) == 'r';
    MissingCharBlocksSubstring(Lower(kws[0]), lq, 'r');
    MissingCharBlocksSubstring(Lower(kws[1]), lq, 'r');
    assert !AnyKeywordHits(kws, lq);
    assert NoneMatch([HoursEntry], lq);
  }

  /** The query contains the keyword phrase at position 14. */
  lemma QueryContainsPhrase(q: string)
    requires q == "What are your opening hours?"
    ensures IsSubstring("opening hours", q)
  {
    assert q[14..27] == "opening hours";
    assert OccursAt("opening hours", q, 14);
    SubstringIffOccurs("opening hours", q);
  }

  /** A query that contains a keyword phrase gets that entry's answer. */
  lemma KeywordPhraseInQuery()
    ensures Answer([HoursEntry], "I don't know", "What are your opening hours?") == Some("We are open 9-5.")
  {
    var q := "What are your opening hours?";
    QueryContainsPhrase(q);
    assert KeywordsOf(HoursEntry)[0] == "opening hours";
    VerbatimKeywordMatches(HoursEntry, 0, q);
    assert IsFirstMatch([HoursEntry], Lower(q), 0);
  }

  /**
   * A query that shares only a word fragment with the keywords ("open" of
   * "opening") gets the default: the lookup tests whole keywords as substrings.
   */
  lemma WordFragmentIsNoMatch()
    ensures Answer([HoursEntry], "I don't know", "When do you open") == Some("I don't know")
  {
    var q := "When do you open";
    assert forall i :: 0 <= i < |q| ==> q[i] != 'r' && q[i] != 'R';
    NoLetterRNoMatch(q);
  }

  /** The empty query contains no non-empty keyword, so it gets the default. */
  lemma EmptyQueryGetsDefault()
    ensures Answer([HoursEntry], "I don't know", "") == Some("I don't know")
  {
  }
}
