/** Relevance ranking: `FindAllDocuments` (sequential and parallel),
    `ComputeWordInverseDocumentFreq` and the `FindTopDocuments` overloads
    (`search_server.h`, `search_server.cpp`).

    A document's relevance is the sum, over the plus-words it contains, of
    its term frequency for the word times the word's inverse document
    frequency.  Only documents the caller's predicate accepts take part,
    and the sequential form drops every document containing a minus-word.

    The inverse document frequency is `log(N / n)` in the source (N the
    number of stored documents, n the size of the word's posting list); it
    is a parameter `idf` here, applied to `(N, n)`.
 */
module Relevance {
  import opened Errors
  import Index
  import Q = Query
  import Matching
  import Sharded

  const MaxResultDocumentCount: nat := 5

  datatype Document = Document(id: int, relevance: real, rating: int)

  datatype Policy = Seq | Par

  /** The caller's filter, applied to (id, status, rating). */
  type DocumentPredicate = (int, Index.Status, int) -> bool

  /** Stands for `log(N / n)`, applied to `(N, n)`. */
  type InverseFrequency = (nat, nat) -> real

  /** Every document listed in a posting list is stored, so the
      `documents_.at(id)` lookups in the ranking loops do not throw.  Every
      reachable state satisfies it. */
  ghost predicate PostingsKnown(s: Index.Server) {
    forall w, d :: w in s.wordToDocumentFreqs && d in s.wordToDocumentFreqs[w] ==> d in s.documents
  }

  lemma ValidPostingsKnown(s: Index.Server)
    requires Index.Valid(s)
    ensures PostingsKnown(s)
  {
    forall w, d | w in s.wordToDocumentFreqs && d in s.wordToDocumentFreqs[w]
      ensures d in s.documents
    {
      assert d in s.docToWordFreq;
    }
  }

  // ---------------------------------------------------------------------
  // Iterating a std::map<int, _> in key order
  // ---------------------------------------------------------------------

  predicate Increasing(ids: seq<int>) {
    forall i, j :: 0 <= i < j < |ids| ==> ids[i] < ids[j]
  }

  predicate IsMin(ids: set<int>, m: int) {
    m in ids && forall x :: x in ids ==> m <= x
  }

  lemma HasElement(ids: set<int>)
    requires ids != {}
    ensures exists y :: y in ids
  {
    if forall y :: y !in ids {
      assert false;
    }
  }

  lemma {:induction false} MinExists(ids: set<int>)
    requires ids != {}
    ensures exists m :: IsMin(ids, m)
    decreases |ids|
  {
    HasElement(ids);
    var y :| y in ids;
    if ids != {y} {
      MinExists(ids - {y});
      var m :| IsMin(ids - {y}, m);
      var lo := if y < m then y else m;
      forall x | x in ids
        ensures lo <= x
      {
        if x != y {
          assert x in ids - {y};
        }
      }
      assert IsMin(ids, lo);
    } else {
      assert forall x :: x in ids ==> x == y;
      assert IsMin(ids, y);
    }
  }

  /** The keys of a map in increasing order, the order in which a range
      `for` visits a `std::map<int, _>`. */
  function SortedIds(ids: set<int>): (r: seq<int>)
    ensures Increasing(r)
    ensures forall d :: d in r <==> d in ids
    ensures |r| == |ids|
    decreases |ids|
  {
    if ids == {} then []
    else
      MinExists(ids);
      var m :| IsMin(ids, m);
      var rest := SortedIds(ids - {m});
      assert forall d :: d in rest ==> m < d;
      [m] + rest
  }

  // ---------------------------------------------------------------------
  // Shared pieces
  // ---------------------------------------------------------------------

  /** `ComputeWordInverseDocumentFreq`: `.at(word)` throws for a word that
      is not an index key; the callers check first. */
  function ComputeWordInverseDocumentFreq(s: Index.Server, word: string, idf: InverseFrequency): (r: Result<real>)
    ensures r.Ok? <==> word in s.wordToDocumentFreqs
    ensures r.Err? ==> r.error == OutOfRange
    ensures r.Ok? ==> r.value == idf(|s.documents|, |s.wordToDocumentFreqs[word]|)
  {
    if word !in s.wordToDocumentFreqs then Err(OutOfRange)
    else Ok(idf(Index.GetDocumentCount(s), |s.wordToDocumentFreqs[word]|))
  }

  /** The predicate applied to a stored document. */
  predicate Passes(s: Index.Server, pred: DocumentPredicate, d: int)
    requires d in s.documents
  {
    pred(d, s.documents[d].status, s.documents[d].rating)
  }

  /** Document `d` contains `w` and the predicate accepts it. */
  predicate Hit(s: Index.Server, pred: DocumentPredicate, w: string, d: int) {
    Matching.Contains(s, w, d) && d in s.documents && Passes(s, pred, d)
  }

  /** What word `w` adds to the relevance of document `d` (reference
      definition). */
  function Contribution(s: Index.Server, pred: DocumentPredicate, idf: InverseFrequency, w: string, d: int): real {
    if Hit(s, pred, w, d) then
      s.wordToDocumentFreqs[w][d] * idf(|s.documents|, |s.wordToDocumentFreqs[w]|)
    else 0.0
  }

  /** The relevance of `d` for the plus-words `words` (reference
      definition): the contributions summed word by word. */
  function RelevanceOf(s: Index.Server, pred: DocumentPredicate, idf: InverseFrequency, words: seq<string>, d: int): real {
    if words == [] then 0.0
    else Contribution(s, pred, idf, words[0], d) + RelevanceOf(s, pred, idf, words[1..], d)
  }

  /** The results for `ids`, in that order, with the rating looked up by
      `.at`. */
  function Emit(s: Index.Server, rel: map<int, real>, ids: seq<int>): (r: seq<Document>)
    requires forall i :: 0 <= i < |ids| ==> ids[i] in rel && ids[i] in s.documents
    ensures |r| == |ids|
    ensures forall i :: 0 <= i < |ids| ==>
      r[i] == Document(ids[i], rel[ids[i]], s.documents[ids[i]].rating)
  {
    if ids == [] then [] else [Document(ids[0], rel[ids[0]], s.documents[ids[0]].rating)] + Emit(s, rel, ids[1..])
  }

  /** The results in increasing id order, as the range `for` over the
      accumulated `std::map<int, double>` emits them. */
  function Output(s: Index.Server, rel: map<int, real>): (r: seq<Document>)
    requires rel.Keys <= s.documents.Keys
    ensures forall doc :: doc in r <==>
      doc.id in rel && doc.relevance == rel[doc.id] && doc.rating == s.documents[doc.id].rating
  {
    var ids := SortedIds(rel.Keys);
    var r := Emit(s, rel, ids);
    OutputHas(s, rel, ids, r);
    r
  }

  lemma OutputOrdered(s: Index.Server, rel: map<int, real>)
    requires rel.Keys <= s.documents.Keys
    ensures var r := Output(s, rel);
      forall i, j :: 0 <= i < j < |r| ==> r[i].id < r[j].id
  {
    var ids := SortedIds(rel.Keys);
    EmitOrdered(s, rel, ids);
    assert Output(s, rel) == Emit(s, rel, ids);
  }

  /** Emitting an increasing id list yields documents in increasing id
      order. */
  lemma EmitOrdered(s: Index.Server, rel: map<int, real>, ids: seq<int>)
    requires forall i :: 0 <= i < |ids| ==> ids[i] in rel && ids[i] in s.documents
    requires Increasing(ids)
    ensures var r := Emit(s, rel, ids);
      forall i, j :: 0 <= i < j < |r| ==> r[i].id < r[j].id
  {
    IdsFollow(Emit(s, rel, ids), ids);
  }

  /** Documents whose ids are, position by position, an increasing list
      are in increasing id order. */
  lemma IdsFollow(r: seq<Document>, ids: seq<int>)
    requires Increasing(ids) && |r| == |ids|
    requires forall i :: 0 <= i < |r| ==> r[i].id == ids[i]
    ensures forall i, j :: 0 <= i < j < |r| ==> r[i].id < r[j].id
  {
    forall i, j | 0 <= i < j < |r|
      ensures r[i].id < r[j].id
    {
      assert r[i].id == ids[i] && r[j].id == ids[j];
    }
  }

  lemma OutputHas(s: Index.Server, rel: map<int, real>, ids: seq<int>, r: seq<Document>)
    requires forall d :: d in ids <==> d in rel
    requires rel.Keys <= s.documents.Keys
    requires |r| == |ids|
    requires forall i :: 0 <= i < |ids| ==>
      ids[i] in rel && r[i] == Document(ids[i], rel[ids[i]], s.documents[ids[i]].rating)
    ensures forall doc :: doc in r <==>
      doc.id in rel && doc.relevance == rel[doc.id] && doc.rating == s.documents[doc.id].rating
  {
    forall doc: Document
      ensures doc in r <==> doc.id in rel && doc.relevance == rel[doc.id] && doc.rating == s.documents[doc.id].rating
    {
      if doc.id in rel && doc.relevance == rel[doc.id] && doc.rating == s.documents[doc.id].rating {
        var i :| 0 <= i < |ids| && ids[i] == doc.id;
        assert r[i] == doc;
      }
    }
  }

  // ---------------------------------------------------------------------
  // FindAllDocuments, sequential
  // ---------------------------------------------------------------------

  /** The amount `term_freq * x` that the posting list `tf` adds to
      document `d`, as a function of `d`. */
  function ShareOf(tf: map<int, real>, x: real): int -> real {
    d => if d in tf then tf[d] * x else 0.0
  }

  /** The inner loop over a posting list, visited in `ids` order:
      `document_to_relevance[id] += amount(id)` for every document the
      predicate accepts. */
  function AddPostings(s: Index.Server, pred: DocumentPredicate, amount: int -> real,
                       rel: map<int, real>, ids: seq<int>): map<int, real>
    requires forall i :: 0 <= i < |ids| ==> ids[i] in s.documents
    decreases |ids|
  {
    if ids == [] then rel
    else
      var d := ids[0];
      var rel' := if Passes(s, pred, d) then Index.AddAt(rel, d, amount(d)) else rel;
      AddPostings(s, pred, amount, rel', ids[1..])
  }

  /** The posting list of `w` in id order, with every id a stored document. */
  function PostingIds(s: Index.Server, w: string): (r: seq<int>)
    requires PostingsKnown(s) && w in s.wordToDocumentFreqs
    ensures Increasing(r)
    ensures forall d :: d in r <==> d in s.wordToDocumentFreqs[w]
    ensures forall i :: 0 <= i < |r| ==> r[i] in s.documents
  {
    SortedIds(s.wordToDocumentFreqs[w].Keys)
  }

  /** One iteration of the plus-word loop: a word that is not an index key
      is skipped, otherwise its posting list is added in id order. */
  function AddWord(s: Index.Server, pred: DocumentPredicate, idf: InverseFrequency,
                   rel: map<int, real>, w: string): map<int, real>
    requires PostingsKnown(s)
  {
    if w !in s.wordToDocumentFreqs then rel
    else
      var x := ComputeWordInverseDocumentFreq(s, w, idf).value;
      AddPostings(s, pred, ShareOf(s.wordToDocumentFreqs[w], x), rel, PostingIds(s, w))
  }

  /** The loop over the plus-words. */
  function AccumulatePlus(s: Index.Server, pred: DocumentPredicate, idf: InverseFrequency,
                          rel: map<int, real>, words: seq<string>): map<int, real>
    requires PostingsKnown(s)
    decreases |words|
  {
    if words == [] then rel
    else AccumulatePlus(s, pred, idf, AddWord(s, pred, idf, rel, words[0]), words[1..])
  }

  /** Every document listed under `w`. */
  function Listed(s: Index.Server, w: string): set<int> {
    if w in s.wordToDocumentFreqs then s.wordToDocumentFreqs[w].Keys else {}
  }

  /** The loop over the minus-words: every document listed under a
      minus-word is erased. */
  function RemoveMinus(s: Index.Server, rel: map<int, real>, words: seq<string>): (r: map<int, real>)
    ensures forall d :: d in r <==> d in rel && !exists w :: w in words && Matching.Contains(s, w, d)
    ensures forall d :: d in r ==> r[d] == rel[d]
    decreases |words|
  {
    if words == [] then rel
    else
      var r := RemoveMinus(s, rel - Listed(s, words[0]), words[1..]);
      assert words == [words[0]] + words[1..];
      assert forall d :: d in Listed(s, words[0]) <==> Matching.Contains(s, words[0], d);
      r
  }

  /** The minus-word loop changes nothing when no minus-word is in any
      accumulated document. */
  lemma RemoveMinusNothing(s: Index.Server, rel: map<int, real>, words: seq<string>)
    requires forall d, w :: d in rel && w in words ==> !Matching.Contains(s, w, d)
    ensures RemoveMinus(s, rel, words) == rel
  {
    var r := RemoveMinus(s, rel, words);
    assert r.Keys == rel.Keys;
  }

  /** Accumulating over a list of distinct posting ids adds each accepted
      document's amount exactly once. */
  lemma {:induction false} AddPostingsValues(s: Index.Server, pred: DocumentPredicate, amount: int -> real,
                                             rel: map<int, real>, ids: seq<int>)
    requires forall i :: 0 <= i < |ids| ==> ids[i] in s.documents
    requires Increasing(ids)
    ensures var r := AddPostings(s, pred, amount, rel, ids);
      && (forall d :: d in r <==> d in rel || (d in ids && Passes(s, pred, d)))
      && (forall d :: d in r ==>
            r[d] == (if d in rel then rel[d] else 0.0) +
                    (if d in ids && Passes(s, pred, d) then amount(d) else 0.0))
    decreases |ids|
  {
    if ids != [] {
      var d0 := ids[0];
      var rel' := if Passes(s, pred, d0) then Index.AddAt(rel, d0, amount(d0)) else rel;
      AddPostingsValues(s, pred, amount, rel', ids[1..]);
      var r := AddPostings(s, pred, amount, rel', ids[1..]);
      assert r == AddPostings(s, pred, amount, rel, ids);
      assert d0 !in ids[1..];
      forall d
        ensures d in r <==> d in rel || (d in ids && Passes(s, pred, d))
        ensures d in r ==>
          r[d] == (if d in rel then rel[d] else 0.0) +
                  (if d in ids && Passes(s, pred, d) then amount(d) else 0.0)
      {
        assert d in ids <==> d == d0 || d in ids[1..];
      }
    }
  }

  /** On the posting list of `w`, the amount `ShareOf` adds is the
      reference contribution. */
  lemma ShareIsContribution(s: Index.Server, pred: DocumentPredicate, idf: InverseFrequency, w: string, d: int)
    requires PostingsKnown(s) && w in s.wordToDocumentFreqs
    ensures d in PostingIds(s, w) && Passes(s, pred, d) <==> Hit(s, pred, w, d)
    ensures Hit(s, pred, w, d) ==>
      ShareOf(s.wordToDocumentFreqs[w], ComputeWordInverseDocumentFreq(s, w, idf).value)(d) == Contribution(s, pred, idf, w, d)
  {
    assert d in PostingIds(s, w) <==> d in s.wordToDocumentFreqs[w];
    if Hit(s, pred, w, d) {
      HitShare(s, pred, idf, w, d);
    }
  }

  /** For a hit, the amount `ShareOf` adds is the term frequency times the
      inverse document frequency, which is the contribution. */
  lemma HitShare(s: Index.Server, pred: DocumentPredicate, idf: InverseFrequency, w: string, d: int)
    requires Hit(s, pred, w, d)
    ensures ShareOf(s.wordToDocumentFreqs[w], ComputeWordInverseDocumentFreq(s, w, idf).value)(d) ==
      Contribution(s, pred, idf, w, d)
  {
    var tf := s.wordToDocumentFreqs[w];
    var x := ComputeWordInverseDocumentFreq(s, w, idf).value;
    assert x == idf(|s.documents|, |tf|);
    assert ShareOf(tf, x)(d) == tf[d] * x;
  }

  /** One plus-word's effect on the accumulated relevances. */
  lemma AddWordValues(s: Index.Server, pred: DocumentPredicate, idf: InverseFrequency, rel: map<int, real>, w: string)
    requires PostingsKnown(s)
    ensures var r := AddWord(s, pred, idf, rel, w);
      && (forall d :: d in r <==> d in rel || Hit(s, pred, w, d))
      && (forall d :: d in r ==> r[d] == (if d in rel then rel[d] else 0.0) + Contribution(s, pred, idf, w, d))
  {
    if w in s.wordToDocumentFreqs {
      var x := ComputeWordInverseDocumentFreq(s, w, idf).value;
      var amount := ShareOf(s.wordToDocumentFreqs[w], x);
      var ids := PostingIds(s, w);
      AddPostingsValues(s, pred, amount, rel, ids);
      var r := AddPostings(s, pred, amount, rel, ids);
      assert r == AddWord(s, pred, idf, rel, w);
      forall d
        ensures d in r <==> d in rel || Hit(s, pred, w, d)
        ensures d in r ==> r[d] == (if d in rel then rel[d] else 0.0) + Contribution(s, pred, idf, w, d)
      {
        ShareIsContribution(s, pred, idf, w, d);
      }
    }
  }

  /** The accumulated relevance of each document is its reference
      relevance, and exactly the documents some plus-word hits get one. */
  lemma {:induction false} AccumulatePlusValues(s: Index.Server, pred: DocumentPredicate, idf: InverseFrequency,
                                                rel: map<int, real>, words: seq<string>)
    requires PostingsKnown(s)
    ensures var r := AccumulatePlus(s, pred, idf, rel, words);
      && (forall d :: d in r <==> d in rel || exists w :: w in words && Hit(s, pred, w, d))
      && (forall d :: d in r ==> r[d] == (if d in rel then rel[d] else 0.0) + RelevanceOf(s, pred, idf, words, d))
    decreases |words|
  {
    if words != [] {
      var w := words[0];
      var rel' := AddWord(s, pred, idf, rel, w);
      AddWordValues(s, pred, idf, rel, w);
      AccumulatePlusValues(s, pred, idf, rel', words[1..]);
      var r := AccumulatePlus(s, pred, idf, rel', words[1..]);
      assert r == AccumulatePlus(s, pred, idf, rel, words);
      forall d
        ensures d in r <==> d in rel || exists v :: v in words && Hit(s, pred, v, d)
        ensures d in r ==> r[d] == (if d in rel then rel[d] else 0.0) + RelevanceOf(s, pred, idf, words, d)
      {
        assert forall v :: v in words <==> v == w || v in words[1..];
        assert RelevanceOf(s, pred, idf, words, d) ==
               Contribution(s, pred, idf, w, d) + RelevanceOf(s, pred, idf, words[1..], d);
      }
    }
  }

  lemma AccumulateKnown(s: Index.Server, pred: DocumentPredicate, idf: InverseFrequency,
                        rel: map<int, real>, words: seq<string>)
    requires PostingsKnown(s) && rel.Keys <= s.documents.Keys
    ensures AccumulatePlus(s, pred, idf, rel, words).Keys <= s.documents.Keys
  {
    var r := AccumulatePlus(s, pred, idf, rel, words);
    AccumulatePlusValues(s, pred, idf, rel, words);
    forall d | d in r
      ensures d in s.documents
    {
      if d !in rel {
        var w :| w in words && Hit(s, pred, w, d);
      }
    }
  }

  /** The sequential `FindAllDocuments`: stored documents with their
      stored ratings, in increasing id order. */
  function FindAllDocuments(s: Index.Server, q: Q.Query, pred: DocumentPredicate, idf: InverseFrequency): (r: seq<Document>)
    requires PostingsKnown(s)
    ensures forall i :: 0 <= i < |r| ==> r[i].id in s.documents && r[i].rating == s.documents[r[i].id].rating
    ensures forall i, j :: 0 <= i < j < |r| ==> r[i].id < r[j].id
  {
    var plus := AccumulatePlus(s, pred, idf, map[], q.plus);
    AccumulateKnown(s, pred, idf, map[], q.plus);
    var rel := RemoveMinus(s, plus, q.minus);
    OutputOrdered(s, rel);
    Output(s, rel)
  }

  /** A document is found exactly when the predicate accepts it, some
      plus-word hits it and no minus-word does; its relevance is the
      reference relevance and its rating the stored one. */
  lemma FindAllDocumentsFinds(s: Index.Server, q: Q.Query, pred: DocumentPredicate, idf: InverseFrequency, doc: Document)
    requires PostingsKnown(s)
    ensures doc in FindAllDocuments(s, q, pred, idf) <==>
      && (exists w :: w in q.plus && Hit(s, pred, w, doc.id))
      && !(exists w :: w in q.minus && Matching.Contains(s, w, doc.id))
      && doc.relevance == RelevanceOf(s, pred, idf, q.plus, doc.id)
      && doc.rating == s.documents[doc.id].rating
  {
    var plus := AccumulatePlus(s, pred, idf, map[], q.plus);
    AccumulatePlusValues(s, pred, idf, map[], q.plus);
    AccumulateKnown(s, pred, idf, map[], q.plus);
    var rel := RemoveMinus(s, plus, q.minus);
    assert FindAllDocuments(s, q, pred, idf) == Output(s, rel);
  }

  /** The results come in increasing id order. */
  lemma FindAllDocumentsOrdered(s: Index.Server, q: Q.Query, pred: DocumentPredicate, idf: InverseFrequency)
    requires PostingsKnown(s)
    ensures var r := FindAllDocuments(s, q, pred, idf);
      forall i, j :: 0 <= i < j < |r| ==> r[i].id < r[j].id
  {
    var plus := AccumulatePlus(s, pred, idf, map[], q.plus);
    AccumulateKnown(s, pred, idf, map[], q.plus);
    OutputOrdered(s, RemoveMinus(s, plus, q.minus));
  }

  // ---------------------------------------------------------------------
  // FindAllDocuments, parallel
  // ---------------------------------------------------------------------

  /** The removal loop of the parallel form over one posting list. */
  function ParRemoveIds(cm: Sharded.ConcurrentMap, ids: seq<int>): (r: Sharded.ConcurrentMap)
    requires |cm.parts| > 0
    ensures |r.parts| == |cm.parts|
    ensures Sharded.WellSharded(cm) && Sharded.BuildOrdinaryMap(cm) == map[] ==> r == cm
    decreases |ids|
  {
    if ids == [] then cm else ParRemoveIds(Sharded.Remove(cm, ids[0]), ids[1..])
  }

  /** The parallel form's loop over the minus-words, in list order. */
  function ParRemoveMinus(s: Index.Server, cm: Sharded.ConcurrentMap, words: seq<string>): (r: Sharded.ConcurrentMap)
    requires |cm.parts| == |s.wordToDocumentFreqs|
    ensures |r.parts| == |cm.parts|
    ensures Sharded.WellSharded(cm) && Sharded.BuildOrdinaryMap(cm) == map[] ==> r == cm
    decreases |words|
  {
    if words == [] then cm
    else
      var w := words[0];
      var cm' := if w !in s.wordToDocumentFreqs then cm
                 else ParRemoveIds(cm, SortedIds(Listed(s, w)));
      ParRemoveMinus(s, cm', words[1..])
  }

  /** The accumulation loop of the parallel form over one posting list:
      `document_to_relevance[id].ref_to_value += amount(id)`. */
  function ParAddPostings(s: Index.Server, pred: DocumentPredicate, amount: int -> real,
                          cm: Sharded.ConcurrentMap, ids: seq<int>): (r: Sharded.ConcurrentMap)
    requires |cm.parts| > 0
    requires forall i :: 0 <= i < |ids| ==> ids[i] in s.documents
    ensures |r.parts| == |cm.parts|
    decreases |ids|
  {
    if ids == [] then cm
    else
      var d := ids[0];
      var cm' := if Passes(s, pred, d) then Sharded.AddTo(cm, d, amount(d)) else cm;
      ParAddPostings(s, pred, amount, cm', ids[1..])
  }

  /** The sharded accumulation builds the same map as the plain one. */
  lemma {:induction false} ParAddPostingsBuild(s: Index.Server, pred: DocumentPredicate, amount: int -> real,
                                               cm: Sharded.ConcurrentMap, ids: seq<int>)
    requires |cm.parts| > 0
    requires forall i :: 0 <= i < |ids| ==> ids[i] in s.documents
    requires Sharded.WellSharded(cm)
    ensures Sharded.WellSharded(ParAddPostings(s, pred, amount, cm, ids))
    ensures Sharded.BuildOrdinaryMap(ParAddPostings(s, pred, amount, cm, ids)) ==
      AddPostings(s, pred, amount, Sharded.BuildOrdinaryMap(cm), ids)
    decreases |ids|
  {
    if ids != [] {
      var d := ids[0];
      var m := Sharded.BuildOrdinaryMap(cm);
      if Passes(s, pred, d) {
        var cm' := Sharded.AddTo(cm, d, amount(d));
        var m' := Index.AddAt(m, d, amount(d));
        AddToBuild(cm, d, amount(d));
        ParAddPostingsBuild(s, pred, amount, cm', ids[1..]);
        assert ParAddPostings(s, pred, amount, cm, ids) == ParAddPostings(s, pred, amount, cm', ids[1..]);
        assert AddPostings(s, pred, amount, m, ids) == AddPostings(s, pred, amount, m', ids[1..]);
      } else {
        ParAddPostingsBuild(s, pred, amount, cm, ids[1..]);
        assert ParAddPostings(s, pred, amount, cm, ids) == ParAddPostings(s, pred, amount, cm, ids[1..]);
        assert AddPostings(s, pred, amount, m, ids) == AddPostings(s, pred, amount, m, ids[1..]);
      }
    }
  }

  /** One sharded `+=` is one `+=` on the built map. */
  lemma AddToBuild(cm: Sharded.ConcurrentMap, d: int, a: real)
    requires |cm.parts| > 0 && Sharded.WellSharded(cm)
    ensures Sharded.WellSharded(Sharded.AddTo(cm, d, a))
    ensures Sharded.BuildOrdinaryMap(Sharded.AddTo(cm, d, a)) == Index.AddAt(Sharded.BuildOrdinaryMap(cm), d, a)
  {
  }

  /** The parallel form's loop over the plus-words, in list order. */
  function ParAccumulate(s: Index.Server, pred: DocumentPredicate, idf: InverseFrequency,
                         cm: Sharded.ConcurrentMap, words: seq<string>): (r: Sharded.ConcurrentMap)
    requires PostingsKnown(s) && |cm.parts| == |s.wordToDocumentFreqs|
    ensures |r.parts| == |cm.parts|
    decreases |words|
  {
    if words == [] then cm
    else
      var w := words[0];
      var cm' :=
        if w !in s.wordToDocumentFreqs then cm
        else
          var x := ComputeWordInverseDocumentFreq(s, w, idf).value;
          ParAddPostings(s, pred, ShareOf(s.wordToDocumentFreqs[w], x), cm, PostingIds(s, w));
      ParAccumulate(s, pred, idf, cm', words[1..])
  }

  lemma {:induction false} ParAccumulateBuild(s: Index.Server, pred: DocumentPredicate, idf: InverseFrequency,
                                              cm: Sharded.ConcurrentMap, words: seq<string>)
    requires PostingsKnown(s) && |cm.parts| == |s.wordToDocumentFreqs|
    requires Sharded.WellSharded(cm)
    ensures Sharded.WellSharded(ParAccumulate(s, pred, idf, cm, words))
    ensures Sharded.BuildOrdinaryMap(ParAccumulate(s, pred, idf, cm, words)) ==
      AccumulatePlus(s, pred, idf, Sharded.BuildOrdinaryMap(cm), words)
    decreases |words|
  {
    if words != [] {
      var w := words[0];
      if w in s.wordToDocumentFreqs {
        var x := ComputeWordInverseDocumentFreq(s, w, idf).value;
        var amount := ShareOf(s.wordToDocumentFreqs[w], x);
        var ids := PostingIds(s, w);
        ParAddPostingsBuild(s, pred, amount, cm, ids);
        ParAccumulateBuild(s, pred, idf, ParAddPostings(s, pred, amount, cm, ids), words[1..]);
      } else {
        ParAccumulateBuild(s, pred, idf, cm, words[1..]);
      }
    }
  }

  /** The parallel `FindAllDocuments`: one shard per index word, minus-word
      removals first (on the still empty map), then the plus-words. */
  function FindAllDocumentsPar(s: Index.Server, q: Q.Query, pred: DocumentPredicate, idf: InverseFrequency): (r: seq<Document>)
    requires PostingsKnown(s)
    ensures forall i :: 0 <= i < |r| ==> r[i].id in s.documents && r[i].rating == s.documents[r[i].id].rating
    ensures forall i, j :: 0 <= i < j < |r| ==> r[i].id < r[j].id
  {
    var cm0 := Sharded.New(|s.wordToDocumentFreqs|);
    var cm1 := ParRemoveMinus(s, cm0, q.minus);
    var cm2 := ParAccumulate(s, pred, idf, cm1, q.plus);
    ParAccumulateBuild(s, pred, idf, cm1, q.plus);
    AccumulateKnown(s, pred, idf, map[], q.plus);
    var rel := Sharded.BuildOrdinaryMap(cm2);
    OutputOrdered(s, rel);
    Output(s, rel)
  }

  /** The parallel form ignores the minus-words: its removals run before
      anything was accumulated, so it answers as the sequential form does
      for the query without minus-words. */
  lemma ParIgnoresMinus(s: Index.Server, q: Q.Query, pred: DocumentPredicate, idf: InverseFrequency)
    requires PostingsKnown(s)
    ensures FindAllDocumentsPar(s, q, pred, idf) == FindAllDocuments(s, Q.Query(q.plus, []), pred, idf)
  {
    var cm0 := Sharded.New(|s.wordToDocumentFreqs|);
    ParAccumulateBuild(s, pred, idf, cm0, q.plus);
  }

  /** Every document the sequential form finds, the parallel form finds
      too, with the same relevance and rating. */
  lemma SeqWithinPar(s: Index.Server, q: Q.Query, pred: DocumentPredicate, idf: InverseFrequency)
    requires PostingsKnown(s)
    ensures forall doc :: doc in FindAllDocuments(s, q, pred, idf) ==> doc in FindAllDocumentsPar(s, q, pred, idf)
  {
    ParIgnoresMinus(s, q, pred, idf);
  }

  /** When no minus-word is in any document a plus-word hits, the
      sequential form answers as if there were no minus-words. */
  lemma MinusWithoutHits(s: Index.Server, q: Q.Query, pred: DocumentPredicate, idf: InverseFrequency)
    requires PostingsKnown(s)
    requires forall w, v, d :: w in q.minus && v in q.plus && Hit(s, pred, v, d) ==> !Matching.Contains(s, w, d)
    ensures FindAllDocuments(s, q, pred, idf) == FindAllDocuments(s, Q.Query(q.plus, []), pred, idf)
  {
    var plus := AccumulatePlus(s, pred, idf, map[], q.plus);
    AccumulatePlusValues(s, pred, idf, map[], q.plus);
    forall d, w | d in plus && w in q.minus
      ensures !Matching.Contains(s, w, d)
    {
      var v :| v in q.plus && Hit(s, pred, v, d);
    }
    RemoveMinusNothing(s, plus, q.minus);
    assert RemoveMinus(s, plus, q.minus) == RemoveMinus(s, plus, []);
  }

  /** When no minus-word is in any document a plus-word hits, the two
      forms agree. */
  lemma SeqEqualsParWithoutMinusHits(s: Index.Server, q: Q.Query, pred: DocumentPredicate, idf: InverseFrequency)
    requires PostingsKnown(s)
    requires forall w, v, d :: w in q.minus && v in q.plus && Hit(s, pred, v, d) ==> !Matching.Contains(s, w, d)
    ensures FindAllDocuments(s, q, pred, idf) == FindAllDocumentsPar(s, q, pred, idf)
  {
    ParIgnoresMinus(s, q, pred, idf);
    MinusWithoutHits(s, q, pred, idf);
  }
}
