# Keyword knowledge base of a bilingual chatbot

This project models the knowledge base of a small Arabic/English chatbot and proves properties of that model. The knowledge base is the `KnowledgeBase` class in `chatbot_mvp/knowledge_base.py`. It holds an ordered list of question entries and a default response. Each entry is a `{keywords, answer}` record.

- **Loading.** `load_knowledge_base` reads a JSON definition. It takes `questions` (default: empty list) and `default_response` (default: the built-in literal "I'm sorry, I don't have information about that."). If anything fails, it uses an empty list and that literal.
- **Lookup.** `get_answer` lowers the query. It then walks the entries in order and returns the `answer` of the first entry that has a lowered keyword occurring as a substring of the lowered query. If no entry matches, it returns `default_response`.

Modules:

- `Wrappers` (`wrappers.dfy`): `Option`, which stands for Python's `None` and for `dict.get` with a default.
- `Text` (`text.dfy`): the two string builtins the lookup uses, `str.lower()` (as ASCII case folding) and `k in s` (substring). `SubstringIffOccurs` shows the recursive substring test equals "occurs at some position".
- `KnowledgeBase` (`knowledge_base.dfy`): the entry and definition datatypes, and the specification functions `FirstMatch` and `Answer`. It also holds the class `KnowledgeBase`. Its constructor and `LoadKnowledgeBase` set the fields. `GetAnswer` is the lookup loop, proved equal to `Answer`.
- `KnowledgeBaseProperties` (`knowledge_base_properties.dfy`): lemmas about the lookup and about loading.
- `Scenarios` (`scenarios.dfy`): concrete lookups over a one-entry knowledge base about opening hours.

File reading and JSON parsing are inputs to the model. The constructor and `LoadKnowledgeBase` take a `Source`, which has one of three forms:
- `Unreadable`: opening the file or parsing it raised.
- `Parsed(NonObject)`: the JSON value is not an object, so `.get` raises after `kb_data` has been assigned.
- `Parsed(Object(questions, defaultResponse))`: each of the two keys is present or absent.

An entry's `keywords` and `answer` are both optional. A missing `keywords` acts as `[]` (line 45). A missing `answer` makes `get_answer` return `None` (line 49). So the lookup returns `Option<string>`.

Two consequences of the code are worth noting. A keyword matches only as a whole substring of the query, so a word fragment does not count: the query "When do you open" does not match the keywords "opening hours" and "hours" and gets the default response (`Scenarios.WordFragmentIsNoMatch`). An empty query is not treated specially, and an entry with the empty string as a keyword matches every query, the empty one included (`KnowledgeBaseProperties.EmptyKeywordAlwaysMatches`).

## Model

| member | source | states |
|---|---|---|
| `Text.LowerChar` | chatbot_mvp/knowledge_base.py:41 | folding one character gives no upper-case ASCII letter; non-upper-case characters are kept; 'A'..'Z' move to 'a'..'z' |
| `Text.Lower` | chatbot_mvp/knowledge_base.py:41 | `str.lower()` keeps the length and leaves no upper-case ASCII letter |
| `Text.LowerIdempotent` | chatbot_mvp/knowledge_base.py:41 | lowering twice equals lowering once |
| `Text.IsSubstring` | chatbot_mvp/knowledge_base.py:48 | `k in s` as a recursive test: it holds whenever `k` is a prefix of `s`, and only when `k` is no longer than `s` |
| `Text.SubstringIffOccurs` | chatbot_mvp/knowledge_base.py:48 | the recursive `k in s` holds exactly when `k` occurs in `s` at some position (both directions) |
| `Text.EmptyIsSubstring` | chatbot_mvp/knowledge_base.py:48 | the empty string is in every string |
| `Text.SubstringSurvivesLower` | chatbot_mvp/knowledge_base.py:48 | if `k` occurs in `s`, then `k.lower()` occurs in `s.lower()` |
| `Text.MissingCharBlocksSubstring` | chatbot_mvp/knowledge_base.py:48 | a string containing a character that `s` lacks is not in `s` |
| `KnowledgeBase.AnyKeywordHits` | chatbot_mvp/knowledge_base.py:48 | the `any(...)` test is true exactly when some keyword, lowered, occurs in the lowered query |
| `KnowledgeBase.KeywordsOf` | chatbot_mvp/knowledge_base.py:45 | an entry's keyword list is the stored list when the key is present; otherwise it is empty |
| `KnowledgeBase.Matches` | chatbot_mvp/knowledge_base.py:48 | an entry matches exactly when one of its keywords, lowered, occurs in the lowered query; a matching entry has a non-empty keyword list |
| `KnowledgeBase.FirstMatch` | chatbot_mvp/knowledge_base.py:44-49 | returns the index of an entry that matches and is preceded only by entries that do not; returns none exactly when no entry matches |
| `KnowledgeBase.Answer` | chatbot_mvp/knowledge_base.py:41-52 | the answer of the first entry matching the lowered query; exactly the default when none matches; always the default or some entry's answer |
| `KnowledgeBase.LoadedQuestions` | chatbot_mvp/knowledge_base.py:21-28 | an object with a `questions` key yields that list; questions are non-empty only when they come from that key, so a missing key, an unreadable file or a non-object yields `[]` |
| `KnowledgeBase.LoadedDefault` | chatbot_mvp/knowledge_base.py:21-28 | an object with a `default_response` key yields that string; in every other case the result is the built-in literal |
| `KnowledgeBase.KnowledgeBase.constructor` | chatbot_mvp/knowledge_base.py:5-13 | stores the path, then loads: `kb_data` is set only for a parsed document, and the questions and default are those loading yields |
| `KnowledgeBase.KnowledgeBase.LoadKnowledgeBase` | chatbot_mvp/knowledge_base.py:15-28 | sets questions to the `questions` key or `[]` and the default to `default_response` or the literal; an unreadable or non-object definition gives `[]` and the literal; `kb_data` changes only when parsing succeeded; the path is unchanged |
| `KnowledgeBase.KnowledgeBase.GetAnswer` | chatbot_mvp/knowledge_base.py:30-52 | the loop returns `Answer` of the current fields: the first matching entry's answer, or exactly `default_response` when no entry matches |
| `KnowledgeBaseProperties.CaseInsensitive` | chatbot_mvp/knowledge_base.py:41-48 | the answer for `q` equals the answer for `q.lower()` |
| `KnowledgeBaseProperties.VerbatimKeywordMatches` | chatbot_mvp/knowledge_base.py:41-48 | an entry matches any query that contains one of its keywords verbatim |
| `KnowledgeBaseProperties.FirstMatchIgnoresLaterEntries` | chatbot_mvp/knowledge_base.py:44-49 | once an entry of a prefix matches, appending entries does not change the first match |
| `KnowledgeBaseProperties.EarlierEntriesTakePrecedence` | chatbot_mvp/knowledge_base.py:44-52 | once an entry of a prefix matches, neither later entries nor the default response affect the answer |
| `KnowledgeBaseProperties.NonMatchingEntriesAreTransparent` | chatbot_mvp/knowledge_base.py:44-52 | a prefix of entries none of which matches does not change the answer the remaining entries give |
| `KnowledgeBaseProperties.EntryWithoutKeywordsNeverMatches` | chatbot_mvp/knowledge_base.py:45-48 | an entry with a missing or empty `keywords` list never matches |
| `KnowledgeBaseProperties.WithKeywords` | chatbot_mvp/knowledge_base.py:45-48 | dropping the entries without keywords keeps exactly the entries of the list that have keywords (both directions of membership) and never lengthens it |
| `KnowledgeBaseProperties.DroppingKeywordlessEntriesKeepsAnswers` | chatbot_mvp/knowledge_base.py:44-52 | removing the entries without keywords never changes any answer |
| `KnowledgeBaseProperties.EmptyKeywordAlwaysMatches` | chatbot_mvp/knowledge_base.py:48 | an entry with the empty string as a keyword matches every query |
| `KnowledgeBaseProperties.FailedLoadFallsBack` | chatbot_mvp/knowledge_base.py:24-28 | an unreadable or non-object definition leaves no questions and the built-in literal |
| `KnowledgeBaseProperties.FailedLoadAnswersFallback` | chatbot_mvp/knowledge_base.py:24-28 | after a failed load, every query is answered with the built-in literal |
| `KnowledgeBaseProperties.MissingDefaultFallsBack` | chatbot_mvp/knowledge_base.py:22-23 | a definition without `default_response` gets the built-in literal |
| `KnowledgeBaseProperties.MissingQuestionsAnswersDefault` | chatbot_mvp/knowledge_base.py:21-23 | a definition without `questions` gets no questions and answers every query with its default |
| `Scenarios.NoLetterRNoMatch` | chatbot_mvp/knowledge_base.py:44-52 | over the opening-hours entry, any query without the letter r gets the default |
| `Scenarios.KeywordPhraseInQuery` | chatbot_mvp/knowledge_base.py:44-49 | "What are your opening hours?" gets the entry's answer |
| `Scenarios.WordFragmentIsNoMatch` | chatbot_mvp/knowledge_base.py:44-52 | "When do you open" gets the default: a word fragment is not a keyword match |
| `Scenarios.EmptyQueryGetsDefault` | chatbot_mvp/knowledge_base.py:41-52 | the empty query gets the default when no keyword is empty |

## Left out

- Text.Lower: folds only the ASCII letters 'A'..'Z'; full Unicode `str.lower()` (other scripts, characters whose lower form is longer) is not modelled.
- Building the file path (`os.path.join`, `os.path.dirname`), opening the file and `json.load` are I/O. The constructor takes the resolved path and the outcome of reading and parsing as parameters.
- The `print` of the loading error is output only and is not modelled.
- JSON values of an unexpected type under a known key are not modelled: `questions` that is not a list, an entry that is not an object, `keywords` that is a string, or a `default_response` or `answer` that is not a string. The model types these as lists of entries, lists of strings and strings.
- `chatbot_mvp/app.py` (the Streamlit interface and `handle_query`) is not part of this model. It only orchestrates detection, translation and the lookup.
- `chatbot_mvp/translator.py` is not part of this model. It makes network calls to a translation service and retries with sleeps.
- `chatbot_mvp/detector.py` is not part of this model. It wraps an external language-detection library.
