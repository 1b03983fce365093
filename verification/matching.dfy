/** `MatchDocument`: which words of a query a document contains.

    The sequential form looks every word up with a presence check first.
    The parallel form parses the query without sorting, looks words up with
    `.at`, which throws `out_of_range` for a word that is not a key of the
    inverted index, and sorts and deduplicates the matches afterwards.
 */
module Matching {
  import opened Errors
  import Tokenizer
  import Index
  import WordOrder
  import Q = Query

  datatype Match = Match(words: seq<string>, status: Index.Status)

  /** The document is listed under `w` in the inverted index. */
  predicate Contains(s: Index.Server, w: string, id: int) {
    w in s.wordToDocumentFreqs && id in s.wordToDocumentFreqs[w]
  }

  /** The minus-word loop: is the document listed under any of `words`?
      A word that is not an index key is skipped. */
  function AnyContains(s: Index.Server, words: seq<string>, id: int): (r: bool)
    ensures r <==> exists w :: w in words && Contains(s, w, id)
  {
    if words == [] then false
    else Contains(s, words[0], id) || AnyContains(s, words[1..], id)
  }

  /** The plus-word loop: the words the document is listed under, in
      query order. */
  function Matched(s: Index.Server, words: seq<string>, id: int): (r: seq<string>)
    ensures forall w :: w in r <==> w in words && Contains(s, w, id)
    ensures WordOrder.StrictlySorted(words) ==> WordOrder.StrictlySorted(r)
  {
    WordOrder.Filter(words, w => Contains(s, w, id))
  }

  /** The sequential `MatchDocument` (and its sequential-policy overload). */
  function MatchDocument(s: Index.Server, rawQuery: string, id: int): (r: Result<Match>)
    ensures r.Err? <==>
      (id < 0 || id !in s.documents || Q.ParseQuery(s.stopWords, rawQuery, false).Err?)
    ensures (id < 0 || id !in s.documents) ==> r == Err(OutOfRange)
    ensures r.Err? && id >= 0 && id in s.documents ==> r.error == InvalidArgument
    ensures r.Ok? ==> r.value.status == s.documents[id].status
    ensures r.Ok? ==> WordOrder.StrictlySorted(r.value.words)
  {
    if id < 0 || id !in s.documents then Err(OutOfRange)
    else
      match Q.ParseQuery(s.stopWords, rawQuery, false)
      case Err(e) => Err(e)
      case Ok(q) =>
        if AnyContains(s, q.minus, id) then Ok(Match([], s.documents[id].status))
        else Ok(Match(Matched(s, q.plus, id), s.documents[id].status))
  }

  /** The matched words in terms of the query text: nothing if some `-w`
      token names a word the document contains, otherwise exactly the
      plus tokens the document contains.  Under the index invariant,
      "contains" is membership in the document's word frequencies. */
  lemma MatchDocumentWords(s: Index.Server, rawQuery: string, id: int)
    requires MatchDocument(s, rawQuery, id).Ok?
    ensures var tokens := Tokenizer.SplitIntoWordsView(rawQuery);
      var r := MatchDocument(s, rawQuery, id).value;
      var excluded := exists w :: [Q.Minus] + w in tokens && w !in s.stopWords && Contains(s, w, id);
      && (excluded ==> r.words == [])
      && (!excluded ==> forall w :: w in r.words <==>
            w in tokens && w !in s.stopWords && !Q.HasMinus(w) && Contains(s, w, id))
    ensures Index.Valid(s) ==> forall w :: Contains(s, w, id) <==> w in Index.GetWordFrequencies(s, id)
  {
    Q.ParseQueryWords(s.stopWords, rawQuery, false);
  }

  // ---------------------------------------------------------------------
  // The parallel policy
  // ---------------------------------------------------------------------

  /** `any_of` over the minus-words with `.at(word).count(id)`, taken left
      to right: a word that is not an index key throws unless an earlier
      word already answered true. */
  function AnyContainsAt(s: Index.Server, words: seq<string>, id: int): (r: Result<bool>)
    ensures r.Err? ==> r.error == OutOfRange
    ensures r == Ok(true) <==>
      exists i :: 0 <= i < |words| && Contains(s, words[i], id) &&
        (forall j :: 0 <= j < i ==> words[j] in s.wordToDocumentFreqs)
    ensures (forall w :: w in words ==> w in s.wordToDocumentFreqs) ==> r == Ok(AnyContains(s, words, id))
    ensures r == Ok(false) ==> forall w :: w in words ==> w in s.wordToDocumentFreqs
  {
    if words == [] then Ok(false)
    else if words[0] !in s.wordToDocumentFreqs then Err(OutOfRange)
    else if id in s.wordToDocumentFreqs[words[0]] then Ok(true)
    else
      var rest := AnyContainsAt(s, words[1..], id);
      assert forall i :: 0 < i < |words| ==> words[i] == words[1..][i - 1];
      assert rest == Ok(true) ==>
        (exists i :: 1 <= i < |words| && Contains(s, words[i], id) &&
          (forall j :: 0 <= j < i ==> words[j] in s.wordToDocumentFreqs));
      rest
  }

  /** `copy_if` over the plus-words with `.at(word).count(id)`: every word
      is looked up, so any word that is not an index key throws. */
  function MatchedAt(s: Index.Server, words: seq<string>, id: int): (r: Result<seq<string>>)
    ensures r.Err? ==> r.error == OutOfRange
    ensures r.Ok? <==> forall w :: w in words ==> w in s.wordToDocumentFreqs
    ensures r.Ok? ==> r.value == Matched(s, words, id)
  {
    if words == [] then Ok([])
    else if words[0] !in s.wordToDocumentFreqs then Err(OutOfRange)
    else
      match MatchedAt(s, words[1..], id)
      case Err(e) => Err(e)
      case Ok(rest) =>
        assert words == [words[0]] + words[1..];
        if id in s.wordToDocumentFreqs[words[0]] then Ok([words[0]] + rest) else Ok(rest)
  }

  /** `MatchDocument` with the parallel policy. */
  function MatchDocumentPar(s: Index.Server, rawQuery: string, id: int): (r: Result<Match>)
    ensures (id < 0 || id !in s.documents) ==> r == Err(OutOfRange)
    ensures 0 <= id && id in s.documents && Q.ParseQuery(s.stopWords, rawQuery, true).Err? ==>
      r == Err(InvalidArgument)
    ensures r.Err? ==> r.error == OutOfRange || Q.ParseQuery(s.stopWords, rawQuery, true).Err?
    ensures r.Ok? ==> r.value.status == s.documents[id].status
    ensures r.Ok? ==> WordOrder.StrictlySorted(r.value.words)
  {
    if id < 0 || id !in s.documents then Err(OutOfRange)
    else
      match Q.ParseQuery(s.stopWords, rawQuery, true)
      case Err(e) => Err(e)
      case Ok(q) =>
        match AnyContainsAt(s, q.minus, id)
        case Err(e) => Err(e)
        case Ok(excluded) =>
          if excluded then Ok(Match([], s.documents[id].status))
          else
            match MatchedAt(s, q.plus, id)
            case Err(e) => Err(e)
            case Ok(words) => Ok(Match(WordOrder.SortUnique(words), s.documents[id].status))
  }

  /** Every word of the query is a key of the inverted index. */
  predicate AllKnown(s: Index.Server, q: Q.Query) {
    (forall w :: w in q.plus ==> w in s.wordToDocumentFreqs) && (forall w :: w in q.minus ==> w in s.wordToDocumentFreqs)
  }

  /** When every query word is an index key the parallel form answers as
      the sequential one does. */
  lemma MatchDocumentParAgrees(s: Index.Server, rawQuery: string, id: int)
    requires Q.ParseQuery(s.stopWords, rawQuery, true).Ok? ==>
      AllKnown(s, Q.ParseQuery(s.stopWords, rawQuery, true).value)
    ensures MatchDocumentPar(s, rawQuery, id) == MatchDocument(s, rawQuery, id)
  {
    Q.ParseQuerySorted(s.stopWords, rawQuery);
    if id >= 0 && id in s.documents && Q.ParseQuery(s.stopWords, rawQuery, true).Ok? {
      var raw := Q.ParseQuery(s.stopWords, rawQuery, true).value;
      var sorted := Q.ParseQuery(s.stopWords, rawQuery, false).value;
      assert AnyContains(s, raw.minus, id) == AnyContains(s, sorted.minus, id);
      if !AnyContains(s, raw.minus, id) {
        var m := Matched(s, raw.plus, id);
        WordOrder.SortedUnique(WordOrder.SortUnique(m), Matched(s, sorted.plus, id));
      }
    }
  }

  /** When no minus-word hits the document, a query word missing from the
      inverted index makes the parallel form throw `out_of_range`, where
      the sequential form just skips the word. */
  lemma MatchDocumentParThrows(s: Index.Server, rawQuery: string, id: int)
    requires id >= 0 && id in s.documents
    requires Q.ParseQuery(s.stopWords, rawQuery, true).Ok?
    requires !AnyContains(s, Q.ParseQuery(s.stopWords, rawQuery, true).value.minus, id)
    requires !AllKnown(s, Q.ParseQuery(s.stopWords, rawQuery, true).value)
    ensures MatchDocumentPar(s, rawQuery, id) == Err(OutOfRange)
    ensures MatchDocument(s, rawQuery, id).Ok?
  {
    Q.ParseQuerySorted(s.stopWords, rawQuery);
    var raw := Q.ParseQuery(s.stopWords, rawQuery, true).value;
    var any := AnyContainsAt(s, raw.minus, id);
    assert any != Ok(true);
    if any == Ok(false) {
      assert !(forall w :: w in raw.plus ==> w in s.wordToDocumentFreqs);
      assert MatchedAt(s, raw.plus, id).Err?;
    }
  }
}
