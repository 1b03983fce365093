/** `FindTopDocuments` and its overloads (`search_server.h`,
    `search_server.cpp`): parse the query with sorting, find every
    matching document with the chosen policy, order the results by
    decreasing relevance (ties by decreasing rating) and keep the first
    `MAX_RESULT_DOCUMENT_COUNT`.
 */
module Ranking {
  import opened Errors
  import Index
  import Q = Query
  import R = Relevance
  import Matching

  // ---------------------------------------------------------------------
  // The comparator and sorting
  // ---------------------------------------------------------------------

  /** The sort comparator: `a` goes before `b` when it is more relevant, or
      equally relevant and better rated. */
  function Before(a: R.Document, b: R.Document): (r: bool)
    ensures r ==> a.relevance >= b.relevance
    ensures a.relevance == b.relevance && a.rating == b.rating ==> !r
  {
    a.relevance > b.relevance || (a.relevance == b.relevance && a.rating > b.rating)
  }

  /** No document is placed after one it goes before. */
  predicate Sorted(xs: seq<R.Document>) {
    forall i, j :: 0 <= i < j < |xs| ==> !Before(xs[j], xs[i])
  }

  /** The comparator is a strict weak ordering, as `std::sort` needs. */
  lemma BeforeIsStrictWeakOrder(a: R.Document, b: R.Document, c: R.Document)
    ensures !Before(a, a)
    ensures Before(a, b) && Before(b, c) ==> Before(a, c)
    ensures Before(a, c) ==> Before(a, b) || Before(b, c)
  {
  }

  /** Insert `d` into a sorted list, in front of the first element that
      does not go before it. */
  function Insert(d: R.Document, xs: seq<R.Document>): (r: seq<R.Document>)
    requires Sorted(xs)
    ensures Sorted(r)
    ensures multiset(r) == multiset(xs) + multiset{d}
    decreases |xs|
  {
    if xs == [] || !Before(xs[0], d) then
      assert forall j :: 0 <= j < |xs| ==> !Before(xs[j], d) by {
        forall j | 0 <= j < |xs|
          ensures !Before(xs[j], d)
        {
          if j > 0 {
            assert !Before(xs[j], xs[0]);
          }
        }
      }
      [d] + xs
    else
      var rest := Insert(d, xs[1..]);
      assert xs == [xs[0]] + xs[1..];
      forall k | 0 <= k < |rest|
        ensures !Before(rest[k], xs[0])
      {
        assert rest[k] in multiset(rest);
        if rest[k] != d {
          assert rest[k] in xs[1..];
        }
      }
      [xs[0]] + rest
  }

  /** The ordering step of `FindTopDocuments`: a sorted permutation. */
  function SortDocuments(xs: seq<R.Document>): (r: seq<R.Document>)
    ensures Sorted(r)
    ensures multiset(r) == multiset(xs)
    decreases |xs|
  {
    if xs == [] then []
    else
      assert xs == [xs[0]] + xs[1..];
      Insert(xs[0], SortDocuments(xs[1..]))
  }

  function Min(a: nat, b: nat): nat {
    if a <= b then a else b
  }

  /** Sort, then keep the first `MAX_RESULT_DOCUMENT_COUNT`: the result is
      sorted, drawn from the input, as long as the input allows, and no
      document left out goes before one that was kept. */
  function Top(all: seq<R.Document>): (r: seq<R.Document>)
    ensures |r| == Min(R.MaxResultDocumentCount, |all|)
    ensures Sorted(r)
    ensures multiset(r) <= multiset(all)
    ensures |all| <= R.MaxResultDocumentCount ==> multiset(r) == multiset(all)
    ensures forall doc :: doc in all && doc !in r ==>
      forall i :: 0 <= i < |r| ==> !Before(doc, r[i])
  {
    var sorted := SortDocuments(all);
    var n := Min(R.MaxResultDocumentCount, |all|);
    assert |sorted| == |all| by {
      assert |multiset(sorted)| == |multiset(all)|;
    }
    SortedPrefix(sorted, n);
    assert forall doc :: doc in all <==> doc in multiset(sorted);
    sorted[..n]
  }

  /** The first `n` of a sorted list are sorted, drawn from it, and no
      element after them goes before any of them. */
  lemma SortedPrefix(sorted: seq<R.Document>, n: nat)
    requires Sorted(sorted) && n <= |sorted|
    ensures Sorted(sorted[..n])
    ensures multiset(sorted[..n]) <= multiset(sorted)
    ensures n == |sorted| ==> sorted[..n] == sorted
    ensures forall doc :: doc in sorted && doc !in sorted[..n] ==>
      forall i :: 0 <= i < n ==> !Before(doc, sorted[..n][i])
  {
    var r := sorted[..n];
    assert sorted == r + sorted[n..];
    forall doc | doc in sorted && doc !in r
      ensures forall i :: 0 <= i < n ==> !Before(doc, r[i])
    {
      var j :| 0 <= j < |sorted| && sorted[j] == doc;
      assert forall k :: 0 <= k < n ==> sorted[k] in r;
      assert j >= n;
    }
  }

  // ---------------------------------------------------------------------
  // FindTopDocuments
  // ---------------------------------------------------------------------

  /** `FindAllDocuments` with the given execution policy. */
  function FindAll(policy: R.Policy, s: Index.Server, q: Q.Query, pred: R.DocumentPredicate,
                   idf: R.InverseFrequency): seq<R.Document>
    requires R.PostingsKnown(s)
  {
    match policy
    case Seq => R.FindAllDocuments(s, q, pred, idf)
    case Par => R.FindAllDocumentsPar(s, q, pred, idf)
  }

  /** `FindTopDocuments(policy, raw_query, document_predicate)`; the
      overload without a policy is the `Seq` case.  A malformed query
      throws `invalid_argument`. */
  function FindTopDocuments(policy: R.Policy, s: Index.Server, rawQuery: string,
                            pred: R.DocumentPredicate, idf: R.InverseFrequency): (r: Result<seq<R.Document>>)
    requires R.PostingsKnown(s)
    ensures r.Err? <==> Q.ParseQuery(s.stopWords, rawQuery, false).Err?
    ensures r.Err? ==> r.error == InvalidArgument
    ensures r.Ok? ==>
      var all := FindAll(policy, s, Q.ParseQuery(s.stopWords, rawQuery, false).value, pred, idf);
      && |r.value| == Min(R.MaxResultDocumentCount, |all|)
      && Sorted(r.value)
      && multiset(r.value) <= multiset(all)
      && (forall doc :: doc in all && doc !in r.value ==>
            forall i :: 0 <= i < |r.value| ==> !Before(doc, r.value[i]))
  {
    match Q.ParseQuery(s.stopWords, rawQuery, false)
    case Err(e) => Err(e)
    case Ok(q) => Ok(Top(FindAll(policy, s, q, pred, idf)))
  }

  /** What a returned document is, for either policy: some plus-word of
      the query is in it and the predicate accepts it, its relevance is the
      reference relevance and its rating the stored one.  With the
      sequential policy no minus-word is in it either. */
  lemma TopDocumentsFound(policy: R.Policy, s: Index.Server, rawQuery: string,
                          pred: R.DocumentPredicate, idf: R.InverseFrequency, doc: R.Document)
    requires R.PostingsKnown(s)
    requires FindTopDocuments(policy, s, rawQuery, pred, idf).Ok?
    requires doc in FindTopDocuments(policy, s, rawQuery, pred, idf).value
    ensures var q := Q.ParseQuery(s.stopWords, rawQuery, false).value;
      && doc.id in s.documents
      && R.Passes(s, pred, doc.id)
      && (exists w :: w in q.plus && R.Hit(s, pred, w, doc.id))
      && doc.relevance == R.RelevanceOf(s, pred, idf, q.plus, doc.id)
      && doc.rating == s.documents[doc.id].rating
      && (policy == R.Seq ==> !exists w :: w in q.minus && Matching.Contains(s, w, doc.id))
  {
    var q := Q.ParseQuery(s.stopWords, rawQuery, false).value;
    var r := FindTopDocuments(policy, s, rawQuery, pred, idf).value;
    var all := FindAll(policy, s, q, pred, idf);
    assert doc in multiset(r);
    assert doc in all;
    if policy == R.Seq {
      R.FindAllDocumentsFinds(s, q, pred, idf, doc);
    } else {
      R.ParIgnoresMinus(s, q, pred, idf);
      R.FindAllDocumentsFinds(s, Q.Query(q.plus, []), pred, idf, doc);
    }
  }

  /** Every returned document is stored and accepted by the predicate. */
  lemma TopDocumentsPass(policy: R.Policy, s: Index.Server, rawQuery: string,
                         pred: R.DocumentPredicate, idf: R.InverseFrequency)
    requires R.PostingsKnown(s)
    ensures var r := FindTopDocuments(policy, s, rawQuery, pred, idf);
      r.Ok? ==> forall doc :: doc in r.value ==> doc.id in s.documents && R.Passes(s, pred, doc.id)
  {
    var r := FindTopDocuments(policy, s, rawQuery, pred, idf);
    if r.Ok? {
      forall doc | doc in r.value
        ensures doc.id in s.documents && R.Passes(s, pred, doc.id)
      {
        TopDocumentsFound(policy, s, rawQuery, pred, idf, doc);
      }
    }
  }

  /** The predicate of the status overloads. */
  function StatusIs(status: Index.Status): R.DocumentPredicate {
    (id: int, st: Index.Status, rating: int) => st == status
  }

  /** `FindTopDocuments(policy, raw_query, status)`: every returned
      document has that status. */
  function FindTopDocumentsByStatus(policy: R.Policy, s: Index.Server, rawQuery: string,
                                    status: Index.Status, idf: R.InverseFrequency): (r: Result<seq<R.Document>>)
    requires R.PostingsKnown(s)
    ensures r.Err? <==> Q.ParseQuery(s.stopWords, rawQuery, false).Err?
    ensures r.Ok? ==> |r.value| <= R.MaxResultDocumentCount && Sorted(r.value)
    ensures r.Ok? ==> forall doc :: doc in r.value ==>
      doc.id in s.documents && s.documents[doc.id].status == status
    ensures r.Ok? ==>
      var all := FindAll(policy, s, Q.ParseQuery(s.stopWords, rawQuery, false).value, StatusIs(status), idf);
      && |r.value| == Min(R.MaxResultDocumentCount, |all|)
      && multiset(r.value) <= multiset(all)
      && (forall doc :: doc in all && doc !in r.value ==>
            forall i :: 0 <= i < |r.value| ==> !Before(doc, r.value[i]))
  {
    TopDocumentsPass(policy, s, rawQuery, StatusIs(status), idf);
    FindTopDocuments(policy, s, rawQuery, StatusIs(status), idf)
  }

  /** `FindTopDocuments(policy, raw_query)`: only `ACTUAL` documents. */
  function FindTopDocumentsActual(policy: R.Policy, s: Index.Server, rawQuery: string,
                                  idf: R.InverseFrequency): (r: Result<seq<R.Document>>)
    requires R.PostingsKnown(s)
    ensures r.Err? <==> Q.ParseQuery(s.stopWords, rawQuery, false).Err?
    ensures r.Ok? ==> |r.value| <= R.MaxResultDocumentCount && Sorted(r.value)
    ensures r.Ok? ==> forall doc :: doc in r.value ==>
      doc.id in s.documents && s.documents[doc.id].status == Index.Actual
    ensures r.Ok? ==>
      var all := FindAll(policy, s, Q.ParseQuery(s.stopWords, rawQuery, false).value, StatusIs(Index.Actual), idf);
      && |r.value| == Min(R.MaxResultDocumentCount, |all|)
      && multiset(r.value) <= multiset(all)
      && (forall doc :: doc in all && doc !in r.value ==>
            forall i :: 0 <= i < |r.value| ==> !Before(doc, r.value[i]))
  {
    FindTopDocumentsByStatus(policy, s, rawQuery, Index.Actual, idf)
  }
}
