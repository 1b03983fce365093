/** The index store of `SearchServer`: the documents, the inverted index
    word -> (document -> term frequency), its mirror document -> (word ->
    term frequency), the set of live ids, and the operations that build and
    tear them down (`search_server.cpp`, `search_server.h`).

    Term frequencies are `real` (the source uses `double`); words are owned
    strings rather than `string_view`s into the stored texts.
 */
module Index {
  import opened Errors
  import Tokenizer
  import MapSum

  datatype Status = Actual | Irrelevant | Banned | Removed

  datatype DocumentData = DocumentData(rating: int, status: Status, text: string)

  datatype Server = Server(
    stopWords: set<string>,
    wordToDocumentFreqs: map<string, map<int, real>>,
    docToWordFreq: map<int, map<string, real>>,
    documents: map<int, DocumentData>,
    documentIds: set<int>)

  /** The state after a mutating call, and the exception it threw, if any.
      The state is not always the one before the call: `AddDocument` can
      throw after it has stored the document record. */
  datatype Mutation = Mutation(server: Server, raised: Option<Error>)

  // ---------------------------------------------------------------------
  // The representation invariant
  // ---------------------------------------------------------------------

  /** The two index maps are mirror images: a (word, document) pair is in
      one exactly when it is in the other, with the same frequency. */
  ghost predicate Mirror(index: map<string, map<int, real>>, reverse: map<int, map<string, real>>) {
    && (forall w, d :: w in index && d in index[w] ==>
          d in reverse && w in reverse[d] && reverse[d][w] == index[w][d])
    && (forall d, w :: d in reverse && w in reverse[d] ==> w in index && d in index[w])
  }

  /** What every state the server reaches satisfies.  `documents` may hold
      an id that `documentIds` lacks (a failed `AddDocument`), and a live id
      may have no reverse entry (a document of stop words only). */
  ghost predicate Valid(s: Server) {
    && Mirror(s.wordToDocumentFreqs, s.docToWordFreq)
    && s.docToWordFreq.Keys <= s.documentIds
    && s.documentIds <= s.documents.Keys
    && (forall d :: d in s.documents ==> d >= 0)
    && (forall w :: w in s.stopWords ==> w != [] && IsValidWord(w))
  }

  // ---------------------------------------------------------------------
  // Words
  // ---------------------------------------------------------------------

  /** `IsValidWord`: no character in [0, 32). */
  function IsValidWord(word: string): (r: bool)
    ensures r <==> forall i :: 0 <= i < |word| ==> word[i] >= ' '
  {
    word == [] || (word[0] >= ' ' && IsValidWord(word[1..]))
  }

  /** `IsStopWord`: membership in the stop-word set. */
  function IsStopWord(stopWords: set<string>, word: string): bool {
    word in stopWords
  }

  /** The loop of `SplitIntoWordsNoStop` over `tokens`: an invalid token
      throws, a stop word is skipped, any other token is kept. */
  function KeepNonStop(stopWords: set<string>, tokens: seq<string>): (r: Result<seq<string>>)
    ensures r.Ok? <==> forall i :: 0 <= i < |tokens| ==> IsValidWord(tokens[i])
    ensures r.Err? ==> r.error == InvalidArgument
    ensures r.Ok? ==> forall w :: multiset(r.value)[w] == (if w in stopWords then 0 else multiset(tokens)[w])
  {
    if tokens == [] then Ok([])
    else if !IsValidWord(tokens[0]) then Err(InvalidArgument)
    else
      var rest := KeepNonStop(stopWords, tokens[1..]);
      assert tokens == [tokens[0]] + tokens[1..];
      if rest.Err? then Err(InvalidArgument)
      else if IsStopWord(stopWords, tokens[0]) then Ok(rest.value)
      else Ok([tokens[0]] + rest.value)
  }

  /** `SplitIntoWordsNoStop`: the tokens of `text` that are not stop words;
      throws `invalid_argument` if any token is invalid. */
  function SplitIntoWordsNoStop(stopWords: set<string>, text: string): (r: Result<seq<string>>)
    ensures r.Ok? <==> forall w :: w in Tokenizer.SplitIntoWordsView(text) ==> IsValidWord(w)
    ensures r.Err? ==> r.error == InvalidArgument
    ensures r.Ok? ==> forall w ::
      multiset(r.value)[w] == (if w in stopWords then 0 else multiset(Tokenizer.SplitIntoWordsView(text))[w])
  {
    var tokens := Tokenizer.SplitIntoWordsView(text);
    assert (forall i :: 0 <= i < |tokens| ==> IsValidWord(tokens[i])) <==> (forall w :: w in tokens ==> IsValidWord(w));
    KeepNonStop(stopWords, tokens)
  }

  // ---------------------------------------------------------------------
  // Construction
  // ---------------------------------------------------------------------

  /** `MakeUniqueNonEmptyStrings` (declared in a header that is not part of
      this model): the distinct non-empty strings. */
  function MakeUniqueNonEmptyStrings(words: seq<string>): set<string> {
    set w | w in words && w != []
  }

  /** The stop-word constructor: throws `invalid_argument` if a stop word
      has a control character. */
  function NewServer(stopWords: seq<string>): (r: Result<Server>)
    ensures r.Ok? <==> forall i :: 0 <= i < |stopWords| && stopWords[i] != [] ==> IsValidWord(stopWords[i])
    ensures r.Err? ==> r.error == InvalidArgument
    ensures r.Ok? ==> Valid(r.value) && r.value.documents == map[] && r.value.documentIds == {}
    ensures r.Ok? ==> r.value.wordToDocumentFreqs == map[] && r.value.docToWordFreq == map[]
    ensures r.Ok? ==> forall w :: w in r.value.stopWords <==> w in stopWords && w != []
  {
    var stop := MakeUniqueNonEmptyStrings(stopWords);
    if forall w | w in stop :: IsValidWord(w) then Ok(Server(stop, map[], map[], map[], {}))
    else Err(InvalidArgument)
  }

  /** The constructor from one string of space-separated stop words. */
  function NewServerFromText(stopWordsText: string): (r: Result<Server>)
    ensures r.Ok? <==> forall w :: w in Tokenizer.SplitIntoWords(stopWordsText) ==> IsValidWord(w)
    ensures r.Ok? ==> forall w :: w in r.value.stopWords <==> w in Tokenizer.SplitIntoWords(stopWordsText)
  {
    NewServer(Tokenizer.SplitIntoWords(stopWordsText))
  }

  // ---------------------------------------------------------------------
  // Ratings
  // ---------------------------------------------------------------------

  function Sum(xs: seq<int>): int {
    if xs == [] then 0 else xs[0] + Sum(xs[1..])
  }

  /** C++ `/` on `int`: the quotient truncated toward zero (Dafny's `/` is
      Euclidean and rounds a negative quotient down instead). */
  function TruncDiv(a: int, b: int): int
    requires b > 0
  {
    if a >= 0 then a / b else -((-a) / b)
  }

  /** `ComputeAverageRating`: 0 for no ratings, else the sum divided by the
      count, truncated toward zero. */
  function ComputeAverageRating(ratings: seq<int>): (r: int)
    ensures ratings == [] ==> r == 0
    ensures ratings != [] && Sum(ratings) >= 0 ==>
      0 <= r * |ratings| <= Sum(ratings) < r * |ratings| + |ratings|
    ensures ratings != [] && Sum(ratings) < 0 ==>
      r * |ratings| - |ratings| < Sum(ratings) <= r * |ratings| <= 0
  {
    if ratings == [] then 0 else TruncDiv(Sum(ratings), |ratings|)
  }

  // ---------------------------------------------------------------------
  // Adding a document
  // ---------------------------------------------------------------------

  /** `1.0 / words.size()`.  With no words the source divides by zero, but
      the quotient is then never used; 0 stands in for it. */
  function InvWordCount(n: nat): real {
    if n == 0 then 0.0 else 1.0 / (n as real)
  }

  /** `m[k] += x` on a map of doubles (a missing entry starts at 0). */
  function AddAt<K>(m: map<K, real>, k: K, x: real): (r: map<K, real>)
    ensures r.Keys == m.Keys + {k}
    ensures r[k] == (if k in m then m[k] else 0.0) + x
    ensures forall j :: j in m && j != k ==> r[j] == m[j]
  {
    m[k := (if k in m then m[k] else 0.0) + x]
  }

  /** The reverse entry of `id`, or the empty map. */
  function Row(s: Server, id: int): map<string, real> {
    if id in s.docToWordFreq then s.docToWordFreq[id] else map[]
  }

  /** The posting list of `word`, or the empty map. */
  function Posting(s: Server, word: string): map<int, real> {
    if word in s.wordToDocumentFreqs then s.wordToDocumentFreqs[word] else map[]
  }

  /** One iteration of the indexing loop:
      `word_to_document_freqs_[word][id] += inv` and
      `doc_to_word_freq[id][word] += inv`. */
  function Bump(s: Server, id: int, word: string, inv: real): (r: Server)
    ensures r.stopWords == s.stopWords && r.documents == s.documents && r.documentIds == s.documentIds
    ensures Mirror(s.wordToDocumentFreqs, s.docToWordFreq) ==> Mirror(r.wordToDocumentFreqs, r.docToWordFreq)
    ensures Row(r, id) == AddAt(Row(s, id), word, inv) && id in r.docToWordFreq
    ensures forall d :: d != id ==> Row(r, d) == Row(s, d) && (d in r.docToWordFreq <==> d in s.docToWordFreq)
    ensures Posting(r, word) == AddAt(Posting(s, word), id, inv) && word in r.wordToDocumentFreqs
    ensures forall w :: w != word ==> Posting(r, w) == Posting(s, w) && (w in r.wordToDocumentFreqs <==> w in s.wordToDocumentFreqs)
  {
    var r := s.(wordToDocumentFreqs := s.wordToDocumentFreqs[word := AddAt(Posting(s, word), id, inv)],
                docToWordFreq := s.docToWordFreq[id := AddAt(Row(s, id), word, inv)]);
    BumpMirror(s, id, word, inv, r);
    r
  }

  lemma BumpMirror(s: Server, id: int, word: string, inv: real, r: Server)
    requires r == s.(wordToDocumentFreqs := s.wordToDocumentFreqs[word := AddAt(Posting(s, word), id, inv)],
                     docToWordFreq := s.docToWordFreq[id := AddAt(Row(s, id), word, inv)])
    ensures Mirror(s.wordToDocumentFreqs, s.docToWordFreq) ==> Mirror(r.wordToDocumentFreqs, r.docToWordFreq)
  {
    if Mirror(s.wordToDocumentFreqs, s.docToWordFreq) {
      var W, D := r.wordToDocumentFreqs, r.docToWordFreq;
      forall w, d | w in W && d in W[w]
        ensures d in D && w in D[d] && D[d][w] == W[w][d]
      {
        if w != word && d != id {
          assert d in s.wordToDocumentFreqs[w];
        } else if w != word {
          assert d in s.wordToDocumentFreqs[w];
          assert w in Row(s, id);
        } else if d != id {
          assert d in Posting(s, word);
        }
      }
      forall d, w | d in D && w in D[d]
        ensures w in W && d in W[w]
      {
        if w != word && d != id {
          assert w in s.docToWordFreq[d];
        } else if d == id && w != word {
          assert w in Row(s, id);
        } else if d != id {
          assert w in s.docToWordFreq[d];
        }
      }
    }
  }

  /** The indexing loop of `AddDocument` over the kept words. */
  function IndexWords(s: Server, id: int, words: seq<string>, inv: real): (r: Server)
    ensures r.stopWords == s.stopWords && r.documents == s.documents && r.documentIds == s.documentIds
    ensures Mirror(s.wordToDocumentFreqs, s.docToWordFreq) ==> Mirror(r.wordToDocumentFreqs, r.docToWordFreq)
    decreases |words|
  {
    if words == [] then s else IndexWords(Bump(s, id, words[0], inv), id, words[1..], inv)
  }

  /** `m[w] += inv` for each `w` of `words` in turn: each occurrence of a
      word adds `inv` to its entry. */
  function AddWords(m: map<string, real>, words: seq<string>, inv: real): map<string, real>
    decreases |words|
  {
    if words == [] then m else AddWords(AddAt(m, words[0], inv), words[1..], inv)
  }

  /** Each occurrence of a word adds `inv` to its entry. */
  lemma {:induction false} AddWordsValues(m: map<string, real>, words: seq<string>, inv: real)
    ensures forall w :: w in AddWords(m, words, inv) <==> w in m || w in words
    ensures forall w :: w in AddWords(m, words, inv) ==>
      AddWords(m, words, inv)[w] == (if w in m then m[w] else 0.0) + Times(multiset(words)[w], inv)
    decreases |words|
  {
    if words != [] {
      var m' := AddAt(m, words[0], inv);
      AddWordsValues(m', words[1..], inv);
      AddWordsStep(m, words, inv, m', AddWords(m', words[1..], inv));
    }
  }

  lemma AddWordsStep(m: map<string, real>, words: seq<string>, inv: real, m': map<string, real>, r: map<string, real>)
    requires words != [] && m' == AddAt(m, words[0], inv)
    requires forall w :: w in r <==> w in m' || w in words[1..]
    requires forall w :: w in r ==>
      r[w] == (if w in m' then m'[w] else 0.0) + Times(multiset(words[1..])[w], inv)
    ensures forall w :: w in r <==> w in m || w in words
    ensures forall w :: w in r ==>
      r[w] == (if w in m then m[w] else 0.0) + Times(multiset(words)[w], inv)
  {
    assert words == [words[0]] + words[1..];
    forall w | w in r
      ensures r[w] == (if w in m then m[w] else 0.0) + Times(multiset(words)[w], inv)
    {
      AddWordsStepAt(m, words, inv, m', r, w);
    }
  }

  lemma AddWordsStepAt(m: map<string, real>, words: seq<string>, inv: real, m': map<string, real>, r: map<string, real>, w: string)
    requires words != [] && m' == AddAt(m, words[0], inv)
    requires w in r
    requires r[w] == (if w in m' then m'[w] else 0.0) + Times(multiset(words[1..])[w], inv)
    ensures r[w] == (if w in m then m[w] else 0.0) + Times(multiset(words)[w], inv)
  {
    assert words == [words[0]] + words[1..];
    var c := multiset(words[1..])[w];
    if w == words[0] {
      assert multiset(words)[w] == c + 1;
      assert Times(c + 1, inv) == inv + Times(c, inv);
    } else {
      assert multiset(words)[w] == c;
    }
  }

  /** The reverse entry of `id` after indexing is the old one with the
      words added. */
  lemma {:induction false} IndexWordsRow(s: Server, id: int, words: seq<string>, inv: real)
    ensures Row(IndexWords(s, id, words, inv), id) == AddWords(Row(s, id), words, inv)
    ensures id in IndexWords(s, id, words, inv).docToWordFreq <==> id in s.docToWordFreq || words != []
    decreases |words|
  {
    if words != [] {
      IndexWordsRow(Bump(s, id, words[0], inv), id, words[1..], inv);
    }
  }

  /** The indexing loop leaves every other document's entries alone and
      adds the indexed words as keys of the inverted index. */
  lemma {:induction false} IndexWordsOthers(s: Server, id: int, words: seq<string>, inv: real)
    ensures var r := IndexWords(s, id, words, inv);
      && (forall d :: d != id ==> Row(r, d) == Row(s, d) && (d in r.docToWordFreq <==> d in s.docToWordFreq))
      && (forall w :: w in r.wordToDocumentFreqs <==> w in s.wordToDocumentFreqs || w in words)
      && (forall w, d :: d != id ==> (d in Posting(r, w) <==> d in Posting(s, w)))
      && (forall w, d :: d != id && d in Posting(s, w) ==> Posting(r, w)[d] == Posting(s, w)[d])
    decreases |words|
  {
    if words != [] {
      var b := Bump(s, id, words[0], inv);
      IndexWordsOthers(b, id, words[1..], inv);
    }
  }

  /** `k` copies of `x` added up. */
  function Times(k: nat, x: real): real {
    if k == 0 then 0.0 else x + Times(k - 1, x)
  }

  lemma {:induction false} TimesIsProduct(k: nat, x: real)
    ensures Times(k, x) == (k as real) * x
  {
    if k > 0 {
      TimesIsProduct(k - 1, x);
      assert (k as real) * x == ((k - 1) as real) * x + x;
    }
  }

  /** Adding `inv` once per word grows the sum of the entries by
      `|words|` times `inv`. */
  lemma {:induction false} AddWordsSum(m: map<string, real>, words: seq<string>, inv: real)
    ensures MapSum.SumValues(AddWords(m, words, inv)) == MapSum.SumValues(m) + Times(|words|, inv)
    decreases |words|
  {
    if words != [] {
      var m' := AddAt(m, words[0], inv);
      SumAddAt(m, words[0], inv);
      AddWordsSum(m', words[1..], inv);
    }
  }

  lemma SumAddAt(m: map<string, real>, w: string, inv: real)
    ensures MapSum.SumValues(AddAt(m, w, inv)) == MapSum.SumValues(m) + inv
  {
    MapSum.SumUpdate(m, w, (if w in m then m[w] else 0.0) + inv);
  }

  /** `AddDocument`.  The record is stored BEFORE the text is tokenized, so
      an invalid word throws `invalid_argument` with the record already in
      `documents` but the id not in `documentIds`. */
  function AddDocument(s: Server, id: int, text: string, status: Status, ratings: seq<int>): (m: Mutation)
    ensures id < 0 || id in s.documents ==> m == Mutation(s, Some(InvalidArgument))
    ensures m.raised == None <==>
      && id >= 0 && id !in s.documents
      && forall w :: w in Tokenizer.SplitIntoWordsView(text) ==> IsValidWord(w)
    ensures m.raised != None ==> m.raised == Some(InvalidArgument)
    ensures id >= 0 && id !in s.documents ==>
      && m.server.documents == s.documents[id := DocumentData(ComputeAverageRating(ratings), status, text)]
      && m.server.documentIds == (if m.raised == None then s.documentIds + {id} else s.documentIds)
      && m.server.stopWords == s.stopWords
    ensures m.raised != None ==>
      m.server.wordToDocumentFreqs == s.wordToDocumentFreqs && m.server.docToWordFreq == s.docToWordFreq
    ensures Valid(s) ==> Valid(m.server)
  {
    if id < 0 then Mutation(s, Some(InvalidArgument))
    else if id in s.documents then Mutation(s, Some(InvalidArgument))
    else
      var stored := s.(documents := s.documents[id := DocumentData(ComputeAverageRating(ratings), status, text)]);
      match SplitIntoWordsNoStop(s.stopWords, text)
      case Err(e) => Mutation(stored, Some(e))
      case Ok(words) =>
        var inv := InvWordCount(|words|);
        var indexed := IndexWords(stored, id, words, inv);
        var r := indexed.(documentIds := indexed.documentIds + {id});
        AddKeepsValid(s, stored, id, words, inv, r);
        Mutation(r, None)
  }

  lemma AddKeepsValid(s: Server, stored: Server, id: int, words: seq<string>, inv: real, r: Server)
    requires id >= 0 && id !in s.documents
    requires stored.stopWords == s.stopWords && stored.wordToDocumentFreqs == s.wordToDocumentFreqs
    requires stored.docToWordFreq == s.docToWordFreq && stored.documentIds == s.documentIds
    requires id in stored.documents && stored.documents == s.documents[id := stored.documents[id]]
    requires r == IndexWords(stored, id, words, inv).(documentIds := s.documentIds + {id})
    ensures Valid(s) ==> Valid(r)
  {
    if Valid(s) {
      IndexWordsOthers(stored, id, words, inv);
      forall d | d in r.docToWordFreq
        ensures d in r.documentIds
      {
        if d != id {
          assert d in s.docToWordFreq;
        }
      }
    }
  }

  /** The share of each word in a successfully added document: its count
      among the kept words over the number of kept words. */
  function TermFrequency(words: seq<string>, w: string): real {
    (multiset(words)[w] as real) * InvWordCount(|words|)
  }

  /** The reverse entry a fresh document gets from the indexing loop: one
      key per kept word, with its term frequency, summing to 1. */
  lemma FreshRow(stored: Server, id: int, words: seq<string>)
    requires id !in stored.docToWordFreq
    ensures var f := Row(IndexWords(stored, id, words, InvWordCount(|words|)), id);
      && (forall w :: w in f <==> w in words)
      && (forall w :: w in f ==> f[w] == TermFrequency(words, w))
      && (words != [] ==> MapSum.SumValues(f) == 1.0)
  {
    IndexWordsRow(stored, id, words, InvWordCount(|words|));
    FreshValues(words);
    if words != [] {
      FreshSum(words);
    }
  }

  lemma FreshValues(words: seq<string>)
    ensures var f := AddWords(map[], words, InvWordCount(|words|));
      && (forall w :: w in f <==> w in words)
      && (forall w :: w in f ==> f[w] == TermFrequency(words, w))
  {
    var inv := InvWordCount(|words|);
    var empty: map<string, real> := map[];
    var f := AddWords(empty, words, inv);
    AddWordsValues(empty, words, inv);
    forall w | w in f
      ensures f[w] == TermFrequency(words, w)
    {
      assert w !in empty;
      FreshValue(words, w, f[w]);
    }
  }

  /** A slot filled from empty by one addition of `1 / |words|` per
      occurrence of `w` holds the term frequency of `w`. */
  lemma FreshValue(words: seq<string>, w: string, v: real)
    requires v == 0.0 + Times(multiset(words)[w], InvWordCount(|words|))
    ensures v == TermFrequency(words, w)
  {
    TimesIsProduct(multiset(words)[w], InvWordCount(|words|));
  }

  lemma FreshSum(words: seq<string>)
    requires words != []
    ensures MapSum.SumValues(AddWords(map[], words, InvWordCount(|words|))) == 1.0
  {
    var n := |words|;
    var inv := 1.0 / (n as real);
    AddWordsSum(map[], words, inv);
    TimesIsProduct(n, inv);
    var empty: map<string, real> := map[];
    assert MapSum.SumValues(empty) == 0.0;
    assert (n as real) * inv == 1.0;
  }

  /** After a successful `AddDocument`, the document's word frequencies
      hold exactly its non-stop words, each with its term frequency; the
      inverted index agrees; and the frequencies add up to 1 unless the
      document had no non-stop words. */
  lemma AddDocumentFrequencies(s: Server, id: int, text: string, status: Status, ratings: seq<int>)
    requires Valid(s)
    requires AddDocument(s, id, text, status, ratings).raised == None
    ensures SplitIntoWordsNoStop(s.stopWords, text).Ok?
    ensures var after := AddDocument(s, id, text, status, ratings).server;
      var words := SplitIntoWordsNoStop(s.stopWords, text).value;
      var f := GetWordFrequencies(after, id);
      && (forall w :: w in f <==> w in words)
      && (forall w :: w in f ==> f[w] == TermFrequency(words, w) && after.wordToDocumentFreqs[w][id] == f[w])
      && (words != [] ==> MapSum.SumValues(f) == 1.0)
      && (words == [] ==> id !in after.docToWordFreq)
  {
    var words := SplitIntoWordsNoStop(s.stopWords, text).value;
    var stored := s.(documents := s.documents[id := DocumentData(ComputeAverageRating(ratings), status, text)]);
    var indexed := IndexWords(stored, id, words, InvWordCount(|words|));
    assert AddDocument(s, id, text, status, ratings).server == indexed.(documentIds := s.documentIds + {id});
    FreshRow(stored, id, words);
    IndexWordsRow(stored, id, words, InvWordCount(|words|));
  }

  /** A failed `AddDocument` on a fresh id still counts the document and
      keeps its record, but never makes it live: `RemoveDocument` ignores
      it, and adding the id again is refused. */
  lemma AddDocumentPartial(s: Server, id: int, text: string, status: Status, ratings: seq<int>,
                           text': string, status': Status, ratings': seq<int>)
    requires Valid(s)
    requires id >= 0 && id !in s.documents
    requires exists w :: w in Tokenizer.SplitIntoWordsView(text) && !IsValidWord(w)
    ensures var m := AddDocument(s, id, text, status, ratings);
      && m.raised == Some(InvalidArgument)
      && GetDocumentCount(m.server) == GetDocumentCount(s) + 1
      && id in m.server.documents && id !in m.server.documentIds
      && RemoveDocument(m.server, id) == Mutation(m.server, None)
      && AddDocument(m.server, id, text', status', ratings') == Mutation(m.server, Some(InvalidArgument))
  {
    var m := AddDocument(s, id, text, status, ratings);
    assert m.server.documents.Keys == s.documents.Keys + {id};
  }

  /** A document made only of stop words is added without error but gets
      no reverse entry, so removing it throws `out_of_range` and changes
      nothing. */
  lemma StopWordsOnlyDocument(s: Server, id: int, text: string, status: Status, ratings: seq<int>)
    requires Valid(s) && id >= 0 && id !in s.documents
    requires forall w :: w in Tokenizer.SplitIntoWordsView(text) ==> IsValidWord(w) && w in s.stopWords
    ensures var m := AddDocument(s, id, text, status, ratings);
      && m.raised == None
      && id in m.server.documentIds
      && GetWordFrequencies(m.server, id) == map[]
      && RemoveDocument(m.server, id) == Mutation(m.server, Some(OutOfRange))
  {
    var m := AddDocument(s, id, text, status, ratings);
    assert m.raised == None;
    AddDocumentFrequencies(s, id, text, status, ratings);
    var tokens := Tokenizer.SplitIntoWordsView(text);
    var words := SplitIntoWordsNoStop(s.stopWords, text).value;
    forall w
      ensures multiset(words)[w] == 0
    {
      if w !in s.stopWords {
        assert w !in tokens;
      }
    }
    assert multiset(words) == multiset{};
    assert words == [];
    assert id in m.server.documentIds && id !in m.server.docToWordFreq;
  }

  // ---------------------------------------------------------------------
  // Lookups
  // ---------------------------------------------------------------------

  /** `GetDocumentCount`: every stored record, live or left behind by a
      failed `AddDocument`, so never fewer than the live ids. */
  function GetDocumentCount(s: Server): (r: nat)
    ensures Valid(s) ==> |s.documentIds| <= r
  {
    SubsetCard(s.documentIds, s.documents.Keys);
    |s.documents|
  }

  lemma {:induction false} SubsetCard<T>(a: set<T>, b: set<T>)
    ensures a <= b ==> |a| <= |b|
    decreases |a|
  {
    if a != {} && a <= b {
      var x :| x in a;
      SubsetCard(a - {x}, b - {x});
    }
  }

  /** `GetWordFrequencies`: the reverse entry, or the empty map. */
  function GetWordFrequencies(s: Server, id: int): (r: map<string, real>)
    ensures id !in s.docToWordFreq ==> r == map[]
    ensures Valid(s) ==> forall w :: w in r <==> w in s.wordToDocumentFreqs && id in s.wordToDocumentFreqs[w]
    ensures Valid(s) ==> forall w :: w in r ==> r[w] == s.wordToDocumentFreqs[w][id]
  {
    Row(s, id)
  }

  // ---------------------------------------------------------------------
  // Removing a document
  // ---------------------------------------------------------------------

  /** The removal loop: `word_to_document_freqs_[word].erase(id)` for every
      word of the reverse entry.  `operator[]` creates a missing key, and an
      emptied posting list stays as a key.  Each word touches its own key,
      so the loop is written as one map comprehension. */
  function EraseFromPostings(index: map<string, map<int, real>>, words: set<string>, id: int)
    : (r: map<string, map<int, real>>)
    ensures r.Keys == index.Keys + words
    ensures forall w :: w in words ==> id !in r[w]
    ensures forall w, d :: w in r && d != id ==>
      (d in r[w] <==> w in index && d in index[w])
    ensures forall w, d :: w in r && d != id && d in r[w] ==> r[w][d] == index[w][d]
    ensures forall w :: w in index && w !in words ==> r[w] == index[w]
  {
    map w | w in index.Keys + words ::
      if w in words then (if w in index then index[w] else map[]) - {id} else index[w]
  }

  /** `RemoveDocument` (and its sequential-policy overload): a no-op for an
      id that is not live; `.at` throws `out_of_range` for a live id that
      never got a reverse entry. */
  function RemoveDocument(s: Server, id: int): (m: Mutation)
    ensures id !in s.documentIds ==> m == Mutation(s, None)
    ensures id in s.documentIds && id !in s.docToWordFreq ==> m == Mutation(s, Some(OutOfRange))
    ensures id in s.documentIds && id in s.docToWordFreq ==>
      && m.raised == None
      && m.server.documents == s.documents - {id}
      && m.server.documentIds == s.documentIds - {id}
      && m.server.docToWordFreq == s.docToWordFreq - {id}
      && m.server.stopWords == s.stopWords
    ensures Valid(s) ==> Valid(m.server)
  {
    if id !in s.documentIds then Mutation(s, None)
    else if id !in s.docToWordFreq then Mutation(s, Some(OutOfRange))
    else
      var row := s.docToWordFreq[id];
      var r := Server(s.stopWords, EraseFromPostings(s.wordToDocumentFreqs, row.Keys, id),
                      s.docToWordFreq - {id}, s.documents - {id}, s.documentIds - {id});
      RemoveKeepsValid(s, id, r);
      Mutation(r, None)
  }

  lemma RemoveKeepsValid(s: Server, id: int, r: Server)
    requires id in s.docToWordFreq
    requires r == Server(s.stopWords, EraseFromPostings(s.wordToDocumentFreqs, s.docToWordFreq[id].Keys, id),
                         s.docToWordFreq - {id}, s.documents - {id}, s.documentIds - {id})
    ensures Valid(s) ==> Valid(r)
  {
    if Valid(s) {
      var W, D := r.wordToDocumentFreqs, r.docToWordFreq;
      forall w, d | w in W && d in W[w]
        ensures d in D && w in D[d] && D[d][w] == W[w][d]
      {
        if w in s.docToWordFreq[id] {
          assert d != id;
        }
        assert d in s.wordToDocumentFreqs[w];
      }
      forall d, w | d in D && w in D[d]
        ensures w in W && d in W[w]
      {
        assert w in s.docToWordFreq[d];
      }
    }
  }

  /** A successful removal takes the document out of every posting list
      and every other structure. */
  lemma RemoveDocumentClears(s: Server, id: int)
    requires Valid(s) && id in s.docToWordFreq
    ensures var r := RemoveDocument(s, id).server;
      && (forall w :: id !in Posting(r, w))
      && GetWordFrequencies(r, id) == map[]
      && id !in r.documents && id !in r.documentIds
      && GetDocumentCount(r) == GetDocumentCount(s) - 1
  {
    ErasedEverywhere(s, id);
  }

  /** A successful removal leaves the other documents' entries as they
      were, and keeps emptied posting lists as keys. */
  lemma RemoveDocumentKeepsOthers(s: Server, id: int)
    requires Valid(s) && id in s.docToWordFreq
    ensures var r := RemoveDocument(s, id).server;
      && r.wordToDocumentFreqs.Keys == s.wordToDocumentFreqs.Keys
      && (forall d :: d != id ==> GetWordFrequencies(r, d) == GetWordFrequencies(s, d))
      && (forall w, d :: d != id ==> (d in Posting(r, w) <==> d in Posting(s, w)))
      && (forall w, d :: d != id && d in Posting(s, w) ==> Posting(r, w)[d] == Posting(s, w)[d])
  {
    var row := s.docToWordFreq[id];
    assert forall w :: w in row ==> w in s.wordToDocumentFreqs;
  }

  /** No posting list keeps the removed id: the listed words lose it
      explicitly, and by the mirror invariant no other word had it. */
  lemma ErasedEverywhere(s: Server, id: int)
    requires Valid(s) && id in s.docToWordFreq
    ensures forall w :: w in EraseFromPostings(s.wordToDocumentFreqs, s.docToWordFreq[id].Keys, id) ==>
      id !in EraseFromPostings(s.wordToDocumentFreqs, s.docToWordFreq[id].Keys, id)[w]
  {
    var row := s.docToWordFreq[id];
    var index := EraseFromPostings(s.wordToDocumentFreqs, row.Keys, id);
    forall w | w in index
      ensures id !in index[w]
    {
      if w !in row {
        assert index[w] == s.wordToDocumentFreqs[w];
      }
    }
  }

  /** Adding a document and removing it again gives back the documents,
      the live ids, the reverse index and every posting list; only the
      keys of posting lists the document introduced remain, now empty. */
  lemma AddThenRemove(s: Server, id: int, text: string, status: Status, ratings: seq<int>)
    requires Valid(s)
    requires AddDocument(s, id, text, status, ratings).raised == None
    requires SplitIntoWordsNoStop(s.stopWords, text).value != []
    ensures var added := AddDocument(s, id, text, status, ratings).server;
      var m := RemoveDocument(added, id);
      && m.raised == None
      && m.server.documents == s.documents
      && m.server.documentIds == s.documentIds
      && m.server.docToWordFreq == s.docToWordFreq
      && (forall w :: Posting(m.server, w) == Posting(s, w))
  {
    var added := AddDocument(s, id, text, status, ratings).server;
    var words := SplitIntoWordsNoStop(s.stopWords, text).value;
    var stored := s.(documents := s.documents[id := DocumentData(ComputeAverageRating(ratings), status, text)]);
    assert added == IndexWords(stored, id, words, InvWordCount(|words|)).(documentIds := s.documentIds + {id});
    RemoveAfterIndex(s, stored, id, words, added);
  }

  lemma RemoveAfterIndex(s: Server, stored: Server, id: int, words: seq<string>, added: Server)
    requires Valid(s) && id >= 0 && id !in s.documents && words != []
    requires stored == s.(documents := stored.documents) && id in stored.documents
    requires stored.documents == s.documents[id := stored.documents[id]]
    requires added == IndexWords(stored, id, words, InvWordCount(|words|)).(documentIds := s.documentIds + {id})
    requires Valid(added)
    ensures var m := RemoveDocument(added, id);
      && m.raised == None
      && m.server.documents == s.documents
      && m.server.documentIds == s.documentIds
      && m.server.docToWordFreq == s.docToWordFreq
      && (forall w :: Posting(m.server, w) == Posting(s, w))
  {
    var indexed := IndexWords(stored, id, words, InvWordCount(|words|));
    IndexWordsRow(stored, id, words, InvWordCount(|words|));
    IndexWordsOthers(stored, id, words, InvWordCount(|words|));
    assert id in added.docToWordFreq;
    assert added.documents.Keys == s.documents.Keys + {id};
    IndexedOthers(s, stored, indexed, added, id);
    RemoveRestores(s, added, id);
  }

  /** Indexing `id` leaves the entries of every other document as in `s`. */
  lemma IndexedOthers(s: Server, stored: Server, indexed: Server, added: Server, id: int)
    requires stored.wordToDocumentFreqs == s.wordToDocumentFreqs && stored.docToWordFreq == s.docToWordFreq
    requires added.wordToDocumentFreqs == indexed.wordToDocumentFreqs && added.docToWordFreq == indexed.docToWordFreq
    requires forall d :: d != id ==> Row(indexed, d) == Row(stored, d) && (d in indexed.docToWordFreq <==> d in stored.docToWordFreq)
    requires forall w, d :: d != id ==> (d in Posting(indexed, w) <==> d in Posting(stored, w))
    requires forall w, d :: d != id && d in Posting(stored, w) ==> Posting(indexed, w)[d] == Posting(stored, w)[d]
    ensures forall d :: d != id ==> Row(added, d) == Row(s, d) && (d in added.docToWordFreq <==> d in s.docToWordFreq)
    ensures forall w, d :: d != id ==> (d in Posting(added, w) <==> d in Posting(s, w))
    ensures forall w, d :: d != id && d in Posting(s, w) ==> Posting(added, w)[d] == Posting(s, w)[d]
  {
    forall d | d != id
      ensures Row(added, d) == Row(s, d) && (d in added.docToWordFreq <==> d in s.docToWordFreq)
    {
      assert Row(added, d) == Row(indexed, d) && Row(stored, d) == Row(s, d);
    }
    forall w, d | d != id
      ensures d in Posting(added, w) <==> d in Posting(s, w)
      ensures d in Posting(s, w) ==> Posting(added, w)[d] == Posting(s, w)[d]
    {
      assert Posting(added, w) == Posting(indexed, w) && Posting(stored, w) == Posting(s, w);
    }
  }

  /** Removing `id` from a state that differs from `s` only by the entries
      of `id` gives back `s`, up to emptied posting lists. */
  lemma RemoveRestores(s: Server, added: Server, id: int)
    requires Valid(s) && Valid(added)
    requires id !in s.documents && id in added.docToWordFreq
    requires added.documents.Keys == s.documents.Keys + {id}
    requires forall d :: d in s.documents ==> added.documents[d] == s.documents[d]
    requires added.documentIds == s.documentIds + {id}
    requires forall d :: d != id ==> Row(added, d) == Row(s, d) && (d in added.docToWordFreq <==> d in s.docToWordFreq)
    requires forall w, d :: d != id ==> (d in Posting(added, w) <==> d in Posting(s, w))
    requires forall w, d :: d != id && d in Posting(s, w) ==> Posting(added, w)[d] == Posting(s, w)[d]
    ensures var m := RemoveDocument(added, id);
      && m.raised == None
      && m.server.documents == s.documents
      && m.server.documentIds == s.documentIds
      && m.server.docToWordFreq == s.docToWordFreq
      && (forall w :: Posting(m.server, w) == Posting(s, w))
  {
    assert id !in s.docToWordFreq;
    assert id in added.documentIds;
    forall d | d in s.documents
      ensures added.documents[d] == s.documents[d]
    {
    }
    MinusRestores(s.documents, added.documents, id);
    forall d
      ensures d in added.docToWordFreq <==> d in s.docToWordFreq || d == id
      ensures d in s.docToWordFreq ==> added.docToWordFreq[d] == s.docToWordFreq[d]
    {
      if d != id {
        assert Row(added, d) == Row(s, d);
      }
    }
    assert added.docToWordFreq.Keys == s.docToWordFreq.Keys + {id};
    MinusRestores(s.docToWordFreq, added.docToWordFreq, id);
    RemoveRestoresPostings(s, added, id);
  }

  /** Taking back the one key `k` that `b` adds to `a` gives `a`. */
  lemma MinusRestores<K, V>(a: map<K, V>, b: map<K, V>, k: K)
    requires k !in a && b.Keys == a.Keys + {k}
    requires forall j :: j in a ==> b[j] == a[j]
    ensures b - {k} == a
  {
    assert (b - {k}).Keys == a.Keys;
  }

  lemma RemoveRestoresPostings(s: Server, added: Server, id: int)
    requires Valid(s) && Valid(added)
    requires id !in s.docToWordFreq && id in added.docToWordFreq
    requires forall w, d :: d != id ==> (d in Posting(added, w) <==> d in Posting(s, w))
    requires forall w, d :: d != id && d in Posting(s, w) ==> Posting(added, w)[d] == Posting(s, w)[d]
    ensures forall w :: Posting(RemoveDocument(added, id).server, w) == Posting(s, w)
  {
    RemoveDocumentClears(added, id);
    RemoveDocumentKeepsOthers(added, id);
    var r := RemoveDocument(added, id).server;
    forall w
      ensures Posting(r, w) == Posting(s, w)
    {
      SamePosting(s, r, id, w);
    }
  }

  /** Two posting lists that agree away from `id` and both lack `id` are
      the same. */
  lemma SamePosting(s: Server, r: Server, id: int, w: string)
    requires Valid(s) && id !in s.docToWordFreq
    requires id !in Posting(r, w)
    requires forall d :: d != id ==> (d in Posting(r, w) <==> d in Posting(s, w))
    requires forall d :: d != id && d in Posting(s, w) ==> Posting(r, w)[d] == Posting(s, w)[d]
    ensures Posting(r, w) == Posting(s, w)
  {
    assert id !in Posting(s, w);
    forall d
      ensures d in Posting(r, w) <==> d in Posting(s, w)
      ensures d in Posting(r, w) ==> Posting(r, w)[d] == Posting(s, w)[d]
    {
    }
  }

  /** `RemoveDocument` with the parallel policy: the same steps, with
      `.at(word)` in place of `operator[]` inside the per-word loop, so a
      word missing from the index would throw. */
  function RemoveDocumentPar(s: Server, id: int): (m: Mutation)
    ensures id !in s.documentIds ==> m == Mutation(s, None)
    ensures m.raised != None ==> m.server == s && m.raised == Some(OutOfRange)
    ensures m.raised != None <==>
      (id in s.documentIds &&
       (id !in s.docToWordFreq || exists w :: w in s.docToWordFreq[id] && w !in s.wordToDocumentFreqs))
  {
    if id !in s.documentIds then Mutation(s, None)
    else if id !in s.docToWordFreq then Mutation(s, Some(OutOfRange))
    else
      var row := s.docToWordFreq[id];
      if !(row.Keys <= s.wordToDocumentFreqs.Keys) then Mutation(s, Some(OutOfRange))
      else
        var index := map w | w in s.wordToDocumentFreqs ::
          if w in row then s.wordToDocumentFreqs[w] - {id} else s.wordToDocumentFreqs[w];
        Mutation(Server(s.stopWords, index, s.docToWordFreq - {id}, s.documents - {id}, s.documentIds - {id}), None)
  }

  /** Under the invariant every word of a reverse entry is a key of the
      inverted index, so `.at(word)` never throws and the parallel removal
      does exactly what the sequential one does. */
  lemma RemoveDocumentParAgrees(s: Server, id: int)
    requires Valid(s)
    ensures RemoveDocumentPar(s, id) == RemoveDocument(s, id)
  {
    if id in s.documentIds && id in s.docToWordFreq {
      var row := s.docToWordFreq[id];
      assert row.Keys <= s.wordToDocumentFreqs.Keys;
      var erased := EraseFromPostings(s.wordToDocumentFreqs, row.Keys, id);
      var index := map w | w in s.wordToDocumentFreqs ::
        if w in row then s.wordToDocumentFreqs[w] - {id} else s.wordToDocumentFreqs[w];
      assert erased.Keys == index.Keys;
      assert erased == index;
    }
  }
}
