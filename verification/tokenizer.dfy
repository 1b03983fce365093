/** The tokenizer of `string_processing.cpp`.

    Text is split on the space character `' '` only: runs of spaces separate
    tokens, and any other character (a tab, a newline, a control character)
    stays inside a token.  The source has two implementations, a
    character-by-character loop (`SplitIntoWords`) and a `string_view`
    scanner (`SplitIntoWordsView`); both are modelled as written and proved
    to return the same tokens.
 */
module Tokenizer {

  const Space: char := ' '

  /** A token: non-empty and free of spaces. */
  predicate IsToken(w: string) {
    |w| > 0 && Space !in w
  }

  predicate AllTokens(ws: seq<string>) {
    forall i :: 0 <= i < |ws| ==> IsToken(ws[i])
  }

  /** The text with every space deleted (reference definition). */
  function RemoveSpaces(s: string): string {
    if s == [] then []
    else if s[0] == Space then RemoveSpaces(s[1..])
    else [s[0]] + RemoveSpaces(s[1..])
  }

  /** The tokens written one after another. */
  function Concat(ws: seq<string>): string {
    if ws == [] then [] else ws[0] + Concat(ws[1..])
  }

  // ---------------------------------------------------------------------
  // SplitIntoWords: the character loop with a pending `word` buffer.
  // ---------------------------------------------------------------------

  /** The loop of `SplitIntoWords` run over `text` with `word` already
      buffered: a space flushes a non-empty buffer, any other character is
      appended to it, and a non-empty buffer is flushed at the end. */
  function SplitFrom(text: string, word: string): (ws: seq<string>)
    requires Space !in word
    ensures AllTokens(ws)
    ensures Concat(ws) == word + RemoveSpaces(text)
    decreases |text|
  {
    if text == [] then
      (if word == [] then [] else [word])
    else if text[0] == Space then
      if word == [] then SplitFrom(text[1..], [])
      else [word] + SplitFrom(text[1..], [])
    else
      SplitFrom(text[1..], word + [text[0]])
  }

  function SplitIntoWords(text: string): (ws: seq<string>)
    ensures AllTokens(ws)
    ensures Concat(ws) == RemoveSpaces(text)
  {
    SplitFrom(text, [])
  }

  // ---------------------------------------------------------------------
  // SplitIntoWordsView: the string_view scanner.
  // ---------------------------------------------------------------------

  /** `find_first_not_of(" ", from)`, clamped to `|s|` as the `min` in the
      source does when the answer is `npos`. */
  function FirstNotSpace(s: string, from: nat): (k: nat)
    requires from <= |s|
    ensures from <= k <= |s|
    ensures forall i :: from <= i < k ==> s[i] == Space
    ensures k < |s| ==> s[k] != Space
    decreases |s| - from
  {
    if from == |s| || s[from] != Space then from else FirstNotSpace(s, from + 1)
  }

  /** `find(' ')`, with `npos` represented by `|s|`. */
  function FindSpace(s: string): (k: nat)
    ensures k <= |s|
    ensures forall i :: 0 <= i < k ==> s[i] != Space
    ensures k < |s| ==> s[k] == Space
  {
    if s == [] || s[0] == Space then 0 else 1 + FindSpace(s[1..])
  }

  /** The `while (!str.empty())` loop: cut the token before the next space,
      then drop that space and every space after it. */
  function ViewLoop(str: string): seq<string>
    decreases |str|
  {
    if str == [] then []
    else
      var space := FindSpace(str);
      if space == |str| then [str]
      else [str[..space]] + ViewLoop(str[FirstNotSpace(str, space)..])
  }

  function SplitIntoWordsView(str: string): seq<string> {
    ViewLoop(str[FirstNotSpace(str, 0)..])
  }

  // ---------------------------------------------------------------------
  // Properties
  // ---------------------------------------------------------------------

  /** Concatenating non-empty tokens gives the empty text only when there
      are no tokens. */
  lemma {:induction false} ConcatEmpty(ws: seq<string>)
    requires AllTokens(ws)
    ensures Concat(ws) == [] <==> ws == []
  {
    if ws != [] {
      assert |Concat(ws)| >= |ws[0]| > 0;
    }
  }

  lemma {:induction false} RemoveSpacesOfSpaces(text: string)
    requires forall i :: 0 <= i < |text| ==> text[i] == Space
    ensures RemoveSpaces(text) == []
    decreases |text|
  {
    if text != [] {
      RemoveSpacesOfSpaces(text[1..]);
    }
  }

  /** Empty or all-space text yields no tokens, in both implementations. */
  lemma EmptyOrAllSpaces(text: string)
    requires forall i :: 0 <= i < |text| ==> text[i] == Space
    ensures SplitIntoWords(text) == []
    ensures SplitIntoWordsView(text) == []
  {
    RemoveSpacesOfSpaces(text);
    ConcatEmpty(SplitIntoWords(text));
    assert FirstNotSpace(text, 0) == |text|;
  }

  /** Leading spaces are skipped by the character loop when nothing is
      buffered. */
  lemma {:induction false} SkipSpaces(s: string, k: nat)
    requires k <= |s|
    requires forall i :: 0 <= i < k ==> s[i] == Space
    ensures SplitFrom(s, []) == SplitFrom(s[k..], [])
    decreases k
  {
    if k > 0 {
      assert s[1..][k - 1..] == s[k..];
      SkipSpaces(s[1..], k - 1);
    }
  }

  /** The character loop moves a space-free prefix into its buffer. */
  lemma {:induction false} BufferPrefix(s: string, word: string, k: nat)
    requires Space !in word
    requires k <= |s|
    requires forall i :: 0 <= i < k ==> s[i] != Space
    ensures SplitFrom(s, word) == SplitFrom(s[k..], word + s[..k])
    decreases k
  {
    if k > 0 {
      var t := s[1..];
      var w := word + [s[0]];
      assert SplitFrom(s, word) == SplitFrom(t, w);
      BufferPrefix(t, w, k - 1);
      assert t[k - 1..] == s[k..];
      assert s[..k] == [s[0]] + t[..k - 1];
      assert w + t[..k - 1] == word + s[..k];
    } else {
      assert s[..k] == [] && s[k..] == s && word + [] == word;
    }
  }

  /** Only a space separates tokens: a non-empty text without spaces, tabs
      and newlines included, is a single token. */
  lemma NoSpaceIsOneToken(text: string)
    requires text != [] && Space !in text
    ensures SplitIntoWords(text) == [text]
    ensures SplitIntoWordsView(text) == [text]
  {
    BufferPrefix(text, [], |text|);
    assert text[..|text|] == text;
    assert text[|text|..] == [];
    assert [] + text == text;
    assert SplitFrom([], text) == [text];
    assert FindSpace(text) == |text|;
  }

  /** One step of the character loop from a non-space character: the
      token up to the next space, then the rest after the spaces. */
  lemma CutToken(str: string, space: nat, k: nat)
    requires str != [] && str[0] != Space
    requires space == FindSpace(str) < |str|
    requires k == FirstNotSpace(str, space)
    ensures SplitFrom(str, []) == [str[..space]] + SplitFrom(str[k..], [])
  {
    BufferPrefix(str, [], space);
    assert [] + str[..space] == str[..space];
    var rest := str[space..];
    assert rest[0] == Space && rest[1..] == str[space + 1..];
    assert SplitFrom(rest, str[..space]) == [str[..space]] + SplitFrom(str[space + 1..], []);
    SkipSpaces(str[space + 1..], k - space - 1);
    assert str[space + 1..][k - space - 1..] == str[k..];
  }

  lemma {:induction false} ViewLoopAgrees(str: string)
    requires str == [] || str[0] != Space
    ensures ViewLoop(str) == SplitFrom(str, [])
    decreases |str|
  {
    if str != [] {
      var space := FindSpace(str);
      if space == |str| {
        NoSpaceIsOneToken(str);
      } else {
        var k := FirstNotSpace(str, space);
        CutToken(str, space, k);
        ViewLoopAgrees(str[k..]);
      }
    }
  }

  /** The two tokenizers return the same tokens for the same text. */
  lemma SplittersAgree(text: string)
    ensures SplitIntoWordsView(text) == SplitIntoWords(text)
  {
    var k := FirstNotSpace(text, 0);
    SkipSpaces(text, k);
    ViewLoopAgrees(text[k..]);
  }

  /** The character loop over `a`, a space and `b`: the space flushes the
      buffer, so `a`'s tokens come first and `b` starts afresh. */
  lemma {:induction false} SplitFromAtSpace(a: string, b: string, word: string)
    requires Space !in word
    ensures SplitFrom(a + [Space] + b, word) == SplitFrom(a, word) + SplitFrom(b, [])
    decreases |a|
  {
    var text := a + [Space] + b;
    if a == [] {
      assert text == [Space] + b && text[1..] == b;
    } else {
      assert text[0] == a[0] && text[1..] == a[1..] + [Space] + b;
      if a[0] == Space {
        SplitFromAtSpace(a[1..], b, []);
        if word != [] {
          assert [word] + (SplitFrom(a[1..], []) + SplitFrom(b, [])) ==
                 ([word] + SplitFrom(a[1..], [])) + SplitFrom(b, []);
        }
      } else {
        SplitFromAtSpace(a[1..], b, word + [a[0]]);
      }
    }
  }

  /** A space always ends a token: splitting `a`, a space and `b` gives the
      tokens of `a` followed by those of `b`, in both implementations.
      With `NoSpaceIsOneToken` this determines the tokenizer. */
  lemma SplitAtSpace(a: string, b: string)
    ensures SplitIntoWords(a + [Space] + b) == SplitIntoWords(a) + SplitIntoWords(b)
    ensures SplitIntoWordsView(a + [Space] + b) == SplitIntoWordsView(a) + SplitIntoWordsView(b)
  {
    SplitFromAtSpace(a, b, []);
    SplittersAgree(a + [Space] + b);
    SplittersAgree(a);
    SplittersAgree(b);
  }

  /** Tokens written with one space between each. */
  function Join(ws: seq<string>): string {
    if ws == [] then []
    else if |ws| == 1 then ws[0]
    else ws[0] + [Space] + Join(ws[1..])
  }

  /** Splitting tokens joined by single spaces gives the tokens back. */
  lemma {:induction false} JoinSplit(ws: seq<string>)
    requires AllTokens(ws)
    ensures SplitIntoWords(Join(ws)) == ws
    ensures SplitIntoWordsView(Join(ws)) == ws
    decreases |ws|
  {
    SplittersAgree(Join(ws));
    if ws == [] {
      EmptyOrAllSpaces([]);
    } else if |ws| == 1 {
      NoSpaceIsOneToken(ws[0]);
    } else {
      JoinSplit(ws[1..]);
      NoSpaceIsOneToken(ws[0]);
      SplitAtSpace(ws[0], Join(ws[1..]));
      assert ws == [ws[0]] + ws[1..];
    }
  }

  /** Every token of `SplitIntoWordsView` is non-empty and space-free, and
      together they spell the text without its spaces, in order. */
  lemma ViewTokens(text: string)
    ensures AllTokens(SplitIntoWordsView(text))
    ensures Concat(SplitIntoWordsView(text)) == RemoveSpaces(text)
  {
    SplittersAgree(text);
  }
}
