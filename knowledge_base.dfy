/**
 * The keyword knowledge base of the chatbot: a list of question entries, each
 * a list of keyword phrases and an answer, plus a default response. A query is
 * answered by the first entry, in list order, one of whose lowered keywords
 * occurs in the lowered query; when none does, the default response is given.
 */
module KnowledgeBase {
  import opened Wrappers
  import opened Text

  /** One `{keywords, answer}` record; either field may be absent from the definition. */
  datatype Entry = Entry(keywords: Option<seq<string>>, answer: Option<string>)

  /** The parsed JSON document: a top-level object with its two optional keys, or any other JSON value. */
  datatype Document =
    | Object(questions: Option<seq<Entry>>, defaultResponse: Option<string>)
    | NonObject

  /** What opening and parsing the definition file produced. */
  datatype Source = Unreadable | Parsed(document: Document)

  /** The built-in response used when the definition gives none. */
  const FallbackResponse: string := "I'm sorry, I don't have information about that."

  /** The keyword list of an entry, read as empty when the entry has none. */
  function KeywordsOf(e: Entry): (r: seq<string>)
    ensures e.keywords.Some? ==> r == e.keywords.value
    ensures r == [] || e.keywords == Some(r)
  {
    e.keywords.GetOr([])
  }

  /** True when some keyword of the list, once lowered, occurs in the lowered query `lq`. */
  function AnyKeywordHits(keywords: seq<string>, lq: string): (r: bool)
    ensures r <==> exists k :: 0 <= k < |keywords| && IsSubstring(Lower(keywords[k]), lq)
  {
    if keywords == [] then false
    else IsSubstring(Lower(keywords[0]), lq) || AnyKeywordHits(keywords[1..], lq)
  }

  /** Entry `e` answers the lowered query `lq`. */
  predicate Matches(e: Entry, lq: string)
    ensures Matches(e, lq) <==>
      exists k :: 0 <= k < |KeywordsOf(e)| && IsSubstring(Lower(KeywordsOf(e)[k]), lq)
    ensures Matches(e, lq) ==> e.keywords.Some? && e.keywords.value != []
  {
    AnyKeywordHits(KeywordsOf(e), lq)
  }

  /** Entry `i` is the first entry that answers `lq`. */
  predicate IsFirstMatch(entries: seq<Entry>, lq: string, i: nat) {
    i < |entries| && Matches(entries[i], lq) &&
    forall j :: 0 <= j < i ==> !Matches(entries[j], lq)
  }

  /** No entry answers `lq`. */
  predicate NoneMatch(entries: seq<Entry>, lq: string) {
    forall j :: 0 <= j < |entries| ==> !Matches(entries[j], lq)
  }

  /** The index of the first entry that answers `lq`, if there is one. */
  function FirstMatch(entries: seq<Entry>, lq: string): (r: Option<nat>)
    ensures r.Some? ==> IsFirstMatch(entries, lq, r.value)
    ensures r.None? <==> NoneMatch(entries, lq)
  {
    if entries == [] then None
    else if Matches(entries[0], lq) then Some(0)
    else match FirstMatch(entries[1..], lq)
      case None => None
      case Some(i) => Some(i + 1)
  }

  /**
   * What `get_answer` returns for `query` over `entries` with default `d`.
   * `None` stands for the `None` that `qa_pair.get('answer')` gives on an entry without an answer.
   */
  function Answer(entries: seq<Entry>, d: string, query: string): (r: Option<string>)
    ensures forall i: nat :: IsFirstMatch(entries, Lower(query), i) ==> r == entries[i].answer
    ensures NoneMatch(entries, Lower(query)) ==> r == Some(d)
    ensures r == Some(d) || exists i :: 0 <= i < |entries| && r == entries[i].answer
  {
    match FirstMatch(entries, Lower(query))
    case Some(i) => entries[i].answer
    case None => Some(d)
  }

  /**
   * The questions that loading `src` leaves in the knowledge base: those under
   * the `questions` key of an object, and none otherwise.
   */
  function LoadedQuestions(src: Source): (r: seq<Entry>)
    ensures src.Parsed? && src.document.Object? && src.document.questions.Some? ==>
              r == src.document.questions.value
    ensures r != [] ==> src.Parsed? && src.document.Object? && src.document.questions == Some(r)
  {
    match src
    case Parsed(Object(questions, _)) => questions.GetOr([])
    case _ => []
  }

  /**
   * The default response that loading `src` leaves in the knowledge base: the
   * `default_response` of an object when it has one, the built-in response otherwise.
   */
  function LoadedDefault(src: Source): (r: string)
    ensures src.Parsed? && src.document.Object? && src.document.defaultResponse.Some? ==>
              r == src.document.defaultResponse.value
    ensures r == FallbackResponse ||
            (src.Parsed? && src.document.Object? && src.document.defaultResponse == Some(r))
  {
    match src
    case Parsed(Object(_, defaultResponse)) => defaultResponse.GetOr(FallbackResponse)
    case _ => FallbackResponse
  }

  class KnowledgeBase {
    var kbPath: string
    var kbData: Option<Document>
    var questions: seq<Entry>
    var defaultResponse: string

    /**
     * Builds the knowledge base for the definition at `kbPath`, whose reading
     * and parsing produced `src`.
     */
    constructor (kbPath: string, src: Source)
      ensures this.kbPath == kbPath
      ensures kbData == if src.Parsed? then Some(src.document) else None
      ensures questions == LoadedQuestions(src)
      ensures defaultResponse == LoadedDefault(src)
    {
      this.kbPath := kbPath;
      kbData := None;
      questions := [];
      defaultResponse := FallbackResponse;
      new;
      LoadKnowledgeBase(src);
    }

    /**
     * Reloads the fields from `src`. A document that is not an object is
     * stored, but the failing lookup of its keys sends loading to the fallback.
     */
    method LoadKnowledgeBase(src: Source)
      modifies this
      ensures kbPath == old(kbPath)
      ensures kbData == if src.Parsed? then Some(src.document) else old(kbData)
      ensures questions == LoadedQuestions(src)
      ensures defaultResponse == LoadedDefault(src)
      ensures src.Unreadable? || src.document.NonObject? ==>
                questions == [] && defaultResponse == FallbackResponse
    {
      match src
      case Unreadable =>
        questions := [];
        defaultResponse := FallbackResponse;
      case Parsed(document) =>
        kbData := Some(document);
        match document
        case NonObject =>
          questions := [];
          defaultResponse := FallbackResponse;
        case Object(qs, dr) =>
          questions := qs.GetOr([]);
          defaultResponse := dr.GetOr(FallbackResponse);
    }

    /**
     * The answer of the first entry one of whose lowered keywords occurs in
     * the lowered `query`, or the default response when there is none.
     */
    method GetAnswer(query: string) returns (r: Option<string>)
      ensures r == Answer(questions, defaultResponse, query)
      ensures forall i: nat :: IsFirstMatch(questions, Lower(query), i) ==> r == questions[i].answer
      ensures NoneMatch(questions, Lower(query)) ==> r == Some(defaultResponse)
    {
      var q := Lower(query);
      var i := 0;
      while i < |questions|
        invariant 0 <= i <= |questions|
        invariant forall j :: 0 <= j < i ==> !Matches(questions[j], q)
      {
        var keywords := KeywordsOf(questions[i]);
        var hit := false;
        var k := 0;
        while k < |keywords| && !hit
          invariant 0 <= k <= |keywords|
          invariant hit <==> exists m :: 0 <= m < k && IsSubstring(Lower(keywords[m]), q)
        {
          hit := IsSubstring(Lower(keywords[k]), q);
          k := k + 1;
        }
        if hit {
          assert IsFirstMatch(questions, q, i);
          return questions[i].answer;
        }
        i := i + 1;
      }
      return Some(defaultResponse);
    }
  }
}
