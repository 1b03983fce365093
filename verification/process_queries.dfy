/** `ProcessQueries` and `ProcessQueriesJoined` (`process_queries.cpp`):
    run `FindTopDocuments(raw_query, DocumentStatus::ACTUAL)` for every
    query, then optionally concatenate the answers in query order.
 */
module Batch {
  import opened Errors
  import Index
  import Q = Query
  import R = Relevance
  import Ranking

  /** The answers gathered into one vector; any answer that threw makes
      the whole call throw. */
  function Collect(answers: seq<Result<seq<R.Document>>>): (r: Result<seq<seq<R.Document>>>)
    ensures r.Ok? <==> forall i :: 0 <= i < |answers| ==> answers[i].Ok?
    ensures r.Err? ==> exists i :: 0 <= i < |answers| && answers[i] == Err(r.error)
    ensures r.Ok? ==> |r.value| == |answers| && forall i :: 0 <= i < |answers| ==> answers[i] == Ok(r.value[i])
    decreases |answers|
  {
    if answers == [] then Ok([])
    else
      match answers[0]
      case Err(e) => Err(e)
      case Ok(first) =>
        var rest := Collect(answers[1..]);
        assert forall i :: 0 < i < |answers| ==> answers[i] == answers[1..][i - 1];
        match rest
        case Err(e) =>
          assert exists i :: 0 <= i < |answers[1..]| && answers[1..][i] == Err(e);
          Err(e)
        case Ok(others) => Ok([first] + others)
  }

  /** `FindTopDocuments(raw_query, DocumentStatus::ACTUAL)` as the
      function each query is sent through. */
  function Answer(s: Index.Server, idf: R.InverseFrequency): string --> Result<seq<R.Document>> {
    q requires R.PostingsKnown(s) => Ranking.FindTopDocumentsActual(R.Seq, s, q, idf)
  }

  /** The answer to each query, in query order. */
  function Answers(answer: string --> Result<seq<R.Document>>, queries: seq<string>): (r: seq<Result<seq<R.Document>>>)
    requires forall i :: 0 <= i < |queries| ==> answer.requires(queries[i])
    ensures |r| == |queries|
    ensures forall i :: 0 <= i < |queries| ==> r[i] == answer(queries[i])
  {
    seq(|queries|, i requires 0 <= i < |queries| => answer(queries[i]))
  }

  /** `ProcessQueries`: the answers to `queries`, one per query, each the
      sequential `FindTopDocuments(raw_query, DocumentStatus::ACTUAL)`. */
  function ProcessQueries(s: Index.Server, queries: seq<string>, idf: R.InverseFrequency): (r: Result<seq<seq<R.Document>>>)
    requires R.PostingsKnown(s)
    ensures r.Ok? <==> forall i :: 0 <= i < |queries| ==> Ranking.FindTopDocumentsActual(R.Seq, s, queries[i], idf).Ok?
    ensures r.Ok? ==> |r.value| == |queries|
    ensures r.Ok? ==> forall i :: 0 <= i < |queries| ==>
      Ranking.FindTopDocumentsActual(R.Seq, s, queries[i], idf) == Ok(r.value[i])
  {
    Collect(Answers(Answer(s, idf), queries))
  }

  /** A batch throws exactly when one of its queries is malformed, and
      every answer holds at most five `ACTUAL` documents. */
  lemma ProcessQueriesAnswers(s: Index.Server, queries: seq<string>, idf: R.InverseFrequency)
    requires R.PostingsKnown(s)
    ensures var r := ProcessQueries(s, queries, idf);
      && (r.Ok? <==> forall i :: 0 <= i < |queries| ==> Q.ParseQuery(s.stopWords, queries[i], false).Ok?)
      && (r.Ok? ==> forall i :: 0 <= i < |queries| ==> |r.value[i]| <= R.MaxResultDocumentCount)
      && (r.Ok? ==> forall i, doc :: 0 <= i < |queries| && doc in r.value[i] ==>
            doc.id in s.documents && s.documents[doc.id].status == Index.Actual)
  {
    var r := ProcessQueries(s, queries, idf);
    forall i | 0 <= i < |queries|
      ensures Ranking.FindTopDocumentsActual(R.Seq, s, queries[i], idf).Ok? <==>
              Q.ParseQuery(s.stopWords, queries[i], false).Ok?
    {
    }
  }

  /** The answers one after the other. */
  function Flatten(xss: seq<seq<R.Document>>): seq<R.Document> {
    if xss == [] then [] else xss[0] + Flatten(xss[1..])
  }

  /** A flattened document comes from some answer and every answer's
      documents are in it; no answer is longer than the result cap, so
      neither is the total beyond cap times the number of answers. */
  lemma {:induction false} FlattenContents(xss: seq<seq<R.Document>>)
    requires forall i :: 0 <= i < |xss| ==> |xss[i]| <= R.MaxResultDocumentCount
    ensures forall doc :: doc in Flatten(xss) <==> exists i :: 0 <= i < |xss| && doc in xss[i]
    ensures |Flatten(xss)| <= R.MaxResultDocumentCount * |xss|
    decreases |xss|
  {
    if xss != [] {
      FlattenContents(xss[1..]);
      forall doc
        ensures doc in Flatten(xss) <==> exists i :: 0 <= i < |xss| && doc in xss[i]
      {
        if doc in Flatten(xss[1..]) {
          var i :| 0 <= i < |xss[1..]| && doc in xss[1..][i];
          assert doc in xss[i + 1];
        }
        if exists i :: 0 <= i < |xss| && doc in xss[i] {
          var i :| 0 <= i < |xss| && doc in xss[i];
          if i > 0 {
            assert doc in xss[1..][i - 1];
          }
        }
      }
    }
  }

  /** The number of documents over all answers. */
  function TotalLength(xss: seq<seq<R.Document>>): nat {
    if xss == [] then 0 else |xss[0]| + TotalLength(xss[1..])
  }

  lemma {:induction false} FlattenLength(xss: seq<seq<R.Document>>)
    ensures |Flatten(xss)| == TotalLength(xss)
    decreases |xss|
  {
    if xss != [] {
      FlattenLength(xss[1..]);
    }
  }

  /** The `i`-th answer sits unchanged in the flattened list, right after
      the documents of the answers before it. */
  lemma {:induction false} FlattenSegment(xss: seq<seq<R.Document>>, i: nat)
    requires i < |xss|
    ensures TotalLength(xss[..i]) + |xss[i]| <= |Flatten(xss)|
    ensures Flatten(xss)[TotalLength(xss[..i])..TotalLength(xss[..i]) + |xss[i]|] == xss[i]
    decreases i
  {
    var rest := Flatten(xss[1..]);
    assert Flatten(xss) == xss[0] + rest;
    if i == 0 {
      assert xss[..0] == [];
      assert (xss[0] + rest)[0..|xss[0]|] == xss[0];
    } else {
      FlattenSegment(xss[1..], i - 1);
      var o := TotalLength(xss[1..][..i - 1]);
      assert xss[..i][0] == xss[0] && xss[..i][1..] == xss[1..][..i - 1];
      assert TotalLength(xss[..i]) == |xss[0]| + o;
      assert xss[1..][i - 1] == xss[i];
      assert (xss[0] + rest)[|xss[0]| + o..|xss[0]| + o + |xss[i]|] == rest[o..o + |xss[i]|];
    }
  }

  /** `joined` is `answers` written one after the other: its length is
      their total, and each answer sits unchanged right after the
      documents of the answers before it. */
  predicate InOrder(answers: seq<seq<R.Document>>, joined: seq<R.Document>) {
    && |joined| == TotalLength(answers)
    && forall i :: 0 <= i < |answers| ==>
         var start := TotalLength(answers[..i]);
         start + |answers[i]| <= |joined| && joined[start..start + |answers[i]|] == answers[i]
  }

  function Join(answers: seq<seq<R.Document>>): (r: seq<R.Document>)
    ensures InOrder(answers, r)
  {
    FlattenLength(answers);
    forall i | 0 <= i < |answers| {
      FlattenSegment(answers, i);
    }
    Flatten(answers)
  }

  /** `ProcessQueriesJoined`: the answers concatenated in query order. */
  function ProcessQueriesJoined(s: Index.Server, queries: seq<string>, idf: R.InverseFrequency): (r: Result<seq<R.Document>>)
    requires R.PostingsKnown(s)
    ensures r.Ok? <==> ProcessQueries(s, queries, idf).Ok?
    ensures r.Err? ==> r.error == InvalidArgument
    ensures r.Ok? ==> |r.value| <= R.MaxResultDocumentCount * |queries|
    ensures r.Ok? ==> forall doc :: doc in r.value <==>
      exists i :: 0 <= i < |queries| && doc in ProcessQueries(s, queries, idf).value[i]
    ensures r.Ok? ==> InOrder(ProcessQueries(s, queries, idf).value, r.value)
  {
    match ProcessQueries(s, queries, idf)
    case Err(e) => Err(e)
    case Ok(answers) =>
      FlattenContents(answers);
      Ok(Join(answers))
  }

  /** Gathering keeps the answer order. */
  lemma {:induction false} CollectConcat(x: seq<Result<seq<R.Document>>>, y: seq<Result<seq<R.Document>>>)
    requires Collect(x + y).Ok?
    ensures Collect(x).Ok? && Collect(y).Ok?
    ensures Collect(x + y).value == Collect(x).value + Collect(y).value
    decreases |x|
  {
    if x == [] {
      assert x + y == y;
    } else {
      assert (x + y)[0] == x[0] && (x + y)[1..] == x[1..] + y;
      CollectConcat(x[1..], y);
      var rx := Collect(x[1..]).value;
      var ry := Collect(y).value;
      assert [x[0].value] + rx + ry == [x[0].value] + (rx + ry);
    }
  }

  lemma {:induction false} FlattenConcat(xss: seq<seq<R.Document>>, yss: seq<seq<R.Document>>)
    ensures Flatten(xss + yss) == Flatten(xss) + Flatten(yss)
    decreases |xss|
  {
    if xss == [] {
      assert xss + yss == yss;
    } else {
      assert (xss + yss)[0] == xss[0] && (xss + yss)[1..] == xss[1..] + yss;
      FlattenConcat(xss[1..], yss);
      assert xss[0] + Flatten(xss[1..]) + Flatten(yss) == xss[0] + (Flatten(xss[1..]) + Flatten(yss));
    }
  }

  /** Joining keeps the query order: the joined answer to two batches is
      the joined answer to the first followed by that to the second. */
  lemma JoinedConcat(s: Index.Server, a: seq<string>, b: seq<string>, idf: R.InverseFrequency)
    requires R.PostingsKnown(s)
    requires ProcessQueriesJoined(s, a + b, idf).Ok?
    ensures ProcessQueriesJoined(s, a, idf).Ok? && ProcessQueriesJoined(s, b, idf).Ok?
    ensures ProcessQueriesJoined(s, a + b, idf).value ==
      ProcessQueriesJoined(s, a, idf).value + ProcessQueriesJoined(s, b, idf).value
  {
    var x := Answers(Answer(s, idf), a);
    var y := Answers(Answer(s, idf), b);
    AnswersConcat(Answer(s, idf), a, b);
    CollectConcat(x, y);
    FlattenConcat(Collect(x).value, Collect(y).value);
  }

  lemma AnswersConcat(answer: string --> Result<seq<R.Document>>, a: seq<string>, b: seq<string>)
    requires forall i :: 0 <= i < |a| ==> answer.requires(a[i])
    requires forall i :: 0 <= i < |b| ==> answer.requires(b[i])
    ensures forall i :: 0 <= i < |a + b| ==> answer.requires((a + b)[i])
    ensures Answers(answer, a + b) == Answers(answer, a) + Answers(answer, b)
  {
    assert forall i :: 0 <= i < |a + b| ==> (a + b)[i] == if i < |a| then a[i] else b[i - |a|];
    var x := Answers(answer, a);
    var y := Answers(answer, b);
    var z := Answers(answer, a + b);
    forall i | 0 <= i < |z|
      ensures z[i] == (x + y)[i]
    {
      if i < |a| {
        assert (a + b)[i] == a[i];
      } else {
        assert (a + b)[i] == b[i - |a|];
      }
    }
  }
}
