/** Properties of the keyword lookup and of loading, stated over the specification functions. */
module KnowledgeBaseProperties {
  import opened Wrappers
  import opened Text
  import opened KnowledgeBase

  /** The query is lowered before any comparison, so its case never matters. */
  lemma CaseInsensitive(entries: seq<Entry>, d: string, query: string)
    ensures Answer(entries, d, query) == Answer(entries, d, Lower(query))
  {
    LowerIdempotent(query);
  }

  /** A keyword that appears verbatim in the query makes its entry match, whatever the letters' case. */
  lemma VerbatimKeywordMatches(e: Entry, k: nat, query: string)
    requires k < |KeywordsOf(e)|
    requires IsSubstring(KeywordsOf(e)[k], query)
    ensures Matches(e, Lower(query))
  {
    SubstringSurvivesLower(KeywordsOf(e)[k], query);
  }

  /** Once an entry of `prefix` matches, the entries after `prefix` make no difference to the first match. */
  lemma {:induction false} FirstMatchIgnoresLaterEntries(prefix: seq<Entry>, rest: seq<Entry>, lq: string)
    requires exists i :: 0 <= i < |prefix| && Matches(prefix[i], lq)
    ensures FirstMatch(prefix + rest, lq) == FirstMatch(prefix, lq)
  {
    var all := prefix + rest;
    assert all != [] && all[0] == prefix[0];
    if !Matches(prefix[0], lq) {
      var i :| 0 <= i < |prefix| && Matches(prefix[i], lq);
      assert Matches(prefix[1..][i - 1], lq);
      assert all[1..] == prefix[1..] + rest;
      FirstMatchIgnoresLaterEntries(prefix[1..], rest, lq);
    }
  }

  /**
   * Earlier entries take precedence: once an entry of `prefix` matches,
   * neither the later entries nor the default response affect the answer.
   */
  lemma EarlierEntriesTakePrecedence(prefix: seq<Entry>, rest: seq<Entry>, d1: string, d2: string, query: string)
    requires exists i :: 0 <= i < |prefix| && Matches(prefix[i], Lower(query))
    ensures Answer(prefix + rest, d1, query) == Answer(prefix, d2, query)
  {
    FirstMatchIgnoresLaterEntries(prefix, rest, Lower(query));
  }

  /** Entries of `prefix` that do not match are passed over: the answer is the one that `rest` alone gives. */
  lemma {:induction false} NonMatchingEntriesAreTransparent(prefix: seq<Entry>, rest: seq<Entry>, d: string, query: string)
    requires NoneMatch(prefix, Lower(query))
    ensures Answer(prefix + rest, d, query) == Answer(rest, d, query)
  {
    var lq := Lower(query);
    match FirstMatch(rest, lq)
    case None =>
      forall j | 0 <= j < |prefix + rest| ensures !Matches((prefix + rest)[j], lq) {
        if j >= |prefix| {
          assert (prefix + rest)[j] == rest[j - |prefix|];
        }
      }
    case Some(i) =>
      assert (prefix + rest)[|prefix| + i] == rest[i];
      assert IsFirstMatch(prefix + rest, lq, |prefix| + i) by {
        forall j | 0 <= j < |prefix| + i ensures !Matches((prefix + rest)[j], lq) {
          if j >= |prefix| {
            assert (prefix + rest)[j] == rest[j - |prefix|];
          }
        }
      }
  }

  /** An entry without keywords never matches: `any` over an empty list is false. */
  lemma EntryWithoutKeywordsNeverMatches(e: Entry, lq: string)
    requires KeywordsOf(e) == []
    ensures !Matches(e, lq)
  {
  }

  /** The entries that have at least one keyword, in their original order; every such entry is kept. */
  function WithKeywords(entries: seq<Entry>): (r: seq<Entry>)
    ensures |r| <= |entries|
    ensures forall j :: 0 <= j < |r| ==> KeywordsOf(r[j]) != [] && r[j] in entries
    ensures forall e :: e in entries && KeywordsOf(e) != [] ==> e in r
  {
    if entries == [] then []
    else if KeywordsOf(entries[0]) == [] then WithKeywords(entries[1..])
    else [entries[0]] + WithKeywords(entries[1..])
  }

  /** Dropping the entries without keywords, say at load time, never changes an answer. */
  lemma {:induction false} DroppingKeywordlessEntriesKeepsAnswers(entries: seq<Entry>, d: string, query: string)
    ensures Answer(WithKeywords(entries), d, query) == Answer(entries, d, query)
  {
    if entries != [] {
      var lq := Lower(query);
      DroppingKeywordlessEntriesKeepsAnswers(entries[1..], d, query);
      assert entries == [entries[0]] + entries[1..];
      if KeywordsOf(entries[0]) == [] {
        NonMatchingEntriesAreTransparent([entries[0]], entries[1..], d, query);
      } else if Matches(entries[0], lq) {
        EarlierEntriesTakePrecedence([entries[0]], WithKeywords(entries[1..]), d, d, query);
        EarlierEntriesTakePrecedence([entries[0]], entries[1..], d, d, query);
      } else {
        NonMatchingEntriesAreTransparent([entries[0]], WithKeywords(entries[1..]), d, query);
        NonMatchingEntriesAreTransparent([entries[0]], entries[1..], d, query);
      }
    }
  }

  /** A keyword that is the empty string occurs in every query, so its entry always matches. */
  lemma EmptyKeywordAlwaysMatches(e: Entry, k: nat, lq: string)
    requires k < |KeywordsOf(e)| && KeywordsOf(e)[k] == ""
    ensures Matches(e, lq)
  {
  }

  /** A definition that cannot be read, or is not an object, leaves no questions and the built-in response. */
  lemma FailedLoadFallsBack(src: Source)
    requires src.Unreadable? || src.document.NonObject?
    ensures LoadedQuestions(src) == [] && LoadedDefault(src) == FallbackResponse
  {
  }

  /** After a failed load every query is answered with the built-in response. */
  lemma FailedLoadAnswersFallback(src: Source, query: string)
    requires src.Unreadable? || src.document.NonObject?
    ensures Answer(LoadedQuestions(src), LoadedDefault(src), query) == Some(FallbackResponse)
  {
  }

  /** A definition without a `default_response` key gets the built-in response. */
  lemma MissingDefaultFallsBack(questions: Option<seq<Entry>>)
    ensures LoadedDefault(Parsed(Object(questions, None))) == FallbackResponse
  {
  }

  /** A definition without a `questions` key gets no questions, so it always answers its default. */
  lemma MissingQuestionsAnswersDefault(defaultResponse: Option<string>, query: string)
    ensures LoadedQuestions(Parsed(Object(None, defaultResponse))) == []
    ensures Answer(LoadedQuestions(Parsed(Object(None, defaultResponse))), LoadedDefault(Parsed(Object(None, defaultResponse))), query)
         == Some(defaultResponse.GetOr(FallbackResponse))
  {
  }
}
