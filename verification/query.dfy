/** The query parser of `SearchServer` (`ParseQueryWord`, `ParseQuery`).

    A query is split into tokens like a document.  A token `-w` asks to
    exclude documents containing `w`; any other token `w` is a plus-word.
    Stop words are dropped from both lists.  A token that is empty, a lone
    `-`, starts with `--`, or holds a control character makes the whole
    query throw `invalid_argument`.
 */
module Query {
  import opened Errors
  import Tokenizer
  import Index
  import WordOrder

  const Minus: char := '-'

  datatype QueryWord = QueryWord(data: string, isMinus: bool, isStop: bool)

  datatype Query = Query(plus: seq<string>, minus: seq<string>)

  /** A token that starts with the minus sign. */
  predicate HasMinus(t: string) {
    |t| > 0 && t[0] == Minus
  }

  /** A word a query can name: non-empty, not itself starting with `-`,
      and free of control characters. */
  predicate IsQueryData(w: string) {
    w != [] && !HasMinus(w) && Index.IsValidWord(w)
  }

  /** The token a parsed query word came from. */
  function Render(q: QueryWord): string {
    if q.isMinus then [Minus] + q.data else q.data
  }

  /** `ParseQueryWord`: strip one leading `-`, then reject what is left if
      it is empty, starts with another `-`, or is not a valid word. */
  function ParseQueryWord(stopWords: set<string>, text: string): (r: Result<QueryWord>)
    ensures r.Err? ==> r.error == InvalidArgument
    ensures r.Ok? ==> Render(r.value) == text
    ensures r.Ok? ==> IsQueryData(r.value.data)
    ensures r.Ok? ==> (r.value.isStop <==> r.value.data in stopWords)
  {
    if text == [] then Err(InvalidArgument)
    else
      var isMinus := text[0] == Minus;
      var word := if isMinus then text[1..] else text;
      if word == [] || word[0] == Minus || !Index.IsValidWord(word) then Err(InvalidArgument)
      else
        assert isMinus ==> text == [Minus] + word;
        Ok(QueryWord(word, isMinus, Index.IsStopWord(stopWords, word)))
  }

  /** Parsing inverts rendering: every well-formed query word is accepted
      back from its token, and nothing else is accepted. */
  lemma ParseRender(stopWords: set<string>, q: QueryWord)
    requires IsQueryData(q.data) && (q.isStop <==> q.data in stopWords)
    ensures ParseQueryWord(stopWords, Render(q)) == Ok(q)
  {
    if q.isMinus {
      assert Render(q)[1..] == q.data;
    }
  }

  lemma ParseAccepts(stopWords: set<string>, text: string)
    ensures ParseQueryWord(stopWords, text).Ok? <==>
      exists q: QueryWord :: IsQueryData(q.data) && Render(q) == text
  {
    if exists q: QueryWord :: IsQueryData(q.data) && Render(q) == text {
      var q: QueryWord :| IsQueryData(q.data) && Render(q) == text;
      ParseRender(stopWords, q.(isStop := q.data in stopWords));
    }
  }

  // ---------------------------------------------------------------------
  // ParseQuery
  // ---------------------------------------------------------------------

  /** The loop of `ParseQuery` over the tokens: each token is parsed (the
      first bad one throws), stop words are skipped, the rest are appended
      to the plus or the minus list in token order. */
  function Classify(stopWords: set<string>, tokens: seq<string>): (r: Result<Query>)
    ensures r.Ok? <==> forall i :: 0 <= i < |tokens| ==> ParseQueryWord(stopWords, tokens[i]).Ok?
    ensures r.Err? ==> r.error == InvalidArgument
    decreases |tokens|
  {
    if tokens == [] then Ok(Query([], []))
    else
      match ParseQueryWord(stopWords, tokens[0])
      case Err(e) => Err(e)
      case Ok(qw) =>
        var rest := Classify(stopWords, tokens[1..]);
        if rest.Err? then rest
        else if qw.isStop then rest
        else if qw.isMinus then Ok(Query(rest.value.plus, [qw.data] + rest.value.minus))
        else Ok(Query([qw.data] + rest.value.plus, rest.value.minus))
  }

  /** The plus list counts each non-stop plus token; the minus list counts
      each non-stop `-w` token under `w`. */
  lemma {:induction false} ClassifyCounts(stopWords: set<string>, tokens: seq<string>)
    requires Classify(stopWords, tokens).Ok?
    ensures var q := Classify(stopWords, tokens).value;
      && (forall w :: multiset(q.plus)[w] ==
            (if w in stopWords || HasMinus(w) then 0 else multiset(tokens)[w]))
      && (forall w :: multiset(q.minus)[w] ==
            (if w in stopWords then 0 else multiset(tokens)[[Minus] + w]))
    decreases |tokens|
  {
    if tokens != [] {
      ClassifyCounts(stopWords, tokens[1..]);
      var qw := ParseQueryWord(stopWords, tokens[0]).value;
      var rest := Classify(stopWords, tokens[1..]).value;
      var q := Classify(stopWords, tokens).value;
      assert q.plus == (if !qw.isStop && !qw.isMinus then [qw.data] + rest.plus else rest.plus);
      assert q.minus == (if !qw.isStop && qw.isMinus then [qw.data] + rest.minus else rest.minus);
      forall w
        ensures multiset(q.plus)[w] == (if w in stopWords || HasMinus(w) then 0 else multiset(tokens)[w])
        ensures multiset(q.minus)[w] == (if w in stopWords then 0 else multiset(tokens)[[Minus] + w])
      {
        TokenCount(tokens, w);
        TokenCount(tokens, [Minus] + w);
        PlusCountAt(stopWords, tokens[0], qw, rest.plus, q.plus, w);
        MinusCountAt(stopWords, tokens[0], qw, rest.minus, q.minus, w);
      }
    }
  }

  lemma TokenCount(tokens: seq<string>, x: string)
    requires tokens != []
    ensures multiset(tokens)[x] == multiset(tokens[1..])[x] + (if x == tokens[0] then 1 else 0)
  {
    assert tokens == [tokens[0]] + tokens[1..];
  }

  /** One token's contribution to the plus list. */
  lemma PlusCountAt(stopWords: set<string>, t: string, qw: QueryWord, rest: seq<string>, plus: seq<string>, w: string)
    requires ParseQueryWord(stopWords, t) == Ok(qw)
    requires plus == (if !qw.isStop && !qw.isMinus then [qw.data] + rest else rest)
    ensures multiset(plus)[w] == multiset(rest)[w] +
      (if w == t && w !in stopWords && !HasMinus(w) then 1 else 0)
  {
    assert Render(qw) == t && IsQueryData(qw.data);
  }

  /** One token's contribution to the minus list. */
  lemma MinusCountAt(stopWords: set<string>, t: string, qw: QueryWord, rest: seq<string>, minus: seq<string>, w: string)
    requires ParseQueryWord(stopWords, t) == Ok(qw)
    requires minus == (if !qw.isStop && qw.isMinus then [qw.data] + rest else rest)
    ensures multiset(minus)[w] == multiset(rest)[w] +
      (if [Minus] + w == t && w !in stopWords then 1 else 0)
  {
    assert Render(qw) == t && IsQueryData(qw.data);
    if [Minus] + w == t {
      assert HasMinus(t);
      assert qw.isMinus;
      assert w == t[1..] == qw.data;
    } else if qw.isMinus {
      assert w != qw.data;
    }
  }

  /** Two classified queries written one after the other. */
  function Join(a: Result<Query>, b: Result<Query>): Result<Query> {
    if a.Err? || b.Err? then Err(InvalidArgument)
    else Ok(Query(a.value.plus + b.value.plus, a.value.minus + b.value.minus))
  }

  /** Classification keeps token order: classifying two runs of tokens
      one after the other is classifying each and concatenating. */
  lemma {:induction false} ClassifyConcat(stopWords: set<string>, a: seq<string>, b: seq<string>)
    ensures Classify(stopWords, a + b) == Join(Classify(stopWords, a), Classify(stopWords, b))
    decreases |a|
  {
    if a == [] {
      assert a + b == b;
      var rb := Classify(stopWords, b);
      if rb.Ok? {
        assert [] + rb.value.plus == rb.value.plus && [] + rb.value.minus == rb.value.minus;
      }
    } else {
      assert (a + b)[0] == a[0] && (a + b)[1..] == a[1..] + b;
      ClassifyConcat(stopWords, a[1..], b);
      var ra := Classify(stopWords, a[1..]);
      var rb := Classify(stopWords, b);
      var p := ParseQueryWord(stopWords, a[0]);
      if p.Ok? && ra.Ok? && rb.Ok? {
        var d := p.value.data;
        assert [d] + ra.value.plus + rb.value.plus == [d] + (ra.value.plus + rb.value.plus);
        assert [d] + ra.value.minus + rb.value.minus == [d] + (ra.value.minus + rb.value.minus);
      }
    }
  }

  /** `ParseQuery`: classify the tokens of `text`; unless `isSorted` is
      set, sort both lists and drop duplicates. */
  function ParseQuery(stopWords: set<string>, text: string, isSorted: bool): (r: Result<Query>)
    ensures r.Ok? <==> forall t :: t in Tokenizer.SplitIntoWordsView(text) ==> ParseQueryWord(stopWords, t).Ok?
    ensures r.Err? ==> r.error == InvalidArgument
    ensures r.Ok? && !isSorted ==> WordOrder.StrictlySorted(r.value.plus) && WordOrder.StrictlySorted(r.value.minus)
  {
    var tokens := Tokenizer.SplitIntoWordsView(text);
    assert (forall i :: 0 <= i < |tokens| ==> ParseQueryWord(stopWords, tokens[i]).Ok?) <==>
           (forall t :: t in tokens ==> ParseQueryWord(stopWords, t).Ok?);
    match Classify(stopWords, tokens)
    case Err(e) => Err(e)
    case Ok(q) =>
      if isSorted then Ok(q)
      else Ok(Query(WordOrder.SortUnique(q.plus), WordOrder.SortUnique(q.minus)))
  }

  /** Which words land in the query: `w` is a plus-word exactly when the
      token `w` occurs and is not a stop word, and a minus-word exactly
      when the token `-w` occurs and `w` is not a stop word; sorting does
      not change which. */
  lemma ParseQueryWords(stopWords: set<string>, text: string, isSorted: bool)
    requires ParseQuery(stopWords, text, isSorted).Ok?
    ensures var q := ParseQuery(stopWords, text, isSorted).value;
      var tokens := Tokenizer.SplitIntoWordsView(text);
      && (forall w :: w in q.plus <==> w in tokens && w !in stopWords && !HasMinus(w))
      && (forall w :: w in q.minus <==> [Minus] + w in tokens && w !in stopWords)
  {
    var tokens := Tokenizer.SplitIntoWordsView(text);
    ClassifyCounts(stopWords, tokens);
  }

  /** The sorted form is the unsorted one with each list sorted and its
      duplicates removed. */
  lemma ParseQuerySorted(stopWords: set<string>, text: string)
    ensures ParseQuery(stopWords, text, false).Ok? <==> ParseQuery(stopWords, text, true).Ok?
    ensures ParseQuery(stopWords, text, true).Ok? ==>
      var raw := ParseQuery(stopWords, text, true).value;
      ParseQuery(stopWords, text, false).value ==
        Query(WordOrder.SortUnique(raw.plus), WordOrder.SortUnique(raw.minus))
  {
  }
}
