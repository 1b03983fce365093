/** Ordering of words as `std::string_view` orders them, and the
    `sort` + `unique` + `erase` idiom the server uses on word lists.

    `string_view` compares character by character through
    `char_traits<char>::lt`, which compares characters as unsigned bytes;
    a proper prefix comes first.  A Dafny `char` is never negative, so
    `a < b` on `char` is that comparison.
 */
module WordOrder {

  /** Strict lexicographic order on words: a word never goes before
      itself, and a proper prefix goes before the longer word. */
  function Less(a: string, b: string): (r: bool)
    ensures r ==> a != b
    ensures |a| < |b| && a == b[..|a|] ==> r
    decreases |a|
  {
    if a == [] then b != []
    else if b == [] then false
    else if a[0] != b[0] then a[0] < b[0]
    else Less(a[1..], b[1..])
  }

  lemma {:induction false} LessIrreflexive(a: string)
    ensures !Less(a, a)
    decreases |a|
  {
    if a != [] {
      LessIrreflexive(a[1..]);
    }
  }

  lemma {:induction false} LessAsymmetric(a: string, b: string)
    requires Less(a, b)
    ensures !Less(b, a)
    decreases |a|
  {
    if a != [] && b != [] && a[0] == b[0] {
      LessAsymmetric(a[1..], b[1..]);
    }
  }

  lemma {:induction false} LessTransitive(a: string, b: string, c: string)
    requires Less(a, b) && Less(b, c)
    ensures Less(a, c)
    decreases |a|
  {
    if a != [] && a[0] == b[0] && b[0] == c[0] {
      LessTransitive(a[1..], b[1..], c[1..]);
    }
  }

  lemma {:induction false} LessTotal(a: string, b: string)
    requires a != b
    ensures Less(a, b) || Less(b, a)
    decreases |a|
  {
    if a != [] && b != [] && a[0] == b[0] {
      assert a == [a[0]] + a[1..] && b == [b[0]] + b[1..];
      LessTotal(a[1..], b[1..]);
    }
  }

  /** Strictly increasing: sorted and free of duplicates. */
  predicate StrictlySorted(ws: seq<string>) {
    forall i, j :: 0 <= i < j < |ws| ==> Less(ws[i], ws[j])
  }

  /** Insert `w` into a strictly sorted list unless it is already there. */
  function Insert(ws: seq<string>, w: string): (r: seq<string>)
    requires StrictlySorted(ws)
    ensures StrictlySorted(r)
    ensures forall x :: x in r <==> x in ws || x == w
  {
    if ws == [] then [w]
    else if w == ws[0] then ws
    else if Less(w, ws[0]) then
      assert forall j :: 0 < j < |ws| ==> Less(w, ws[j]) by {
        forall j | 0 < j < |ws| {
          LessTransitive(w, ws[0], ws[j]);
        }
      }
      [w] + ws
    else
      LessTotal(w, ws[0]);
      var rest := Insert(ws[1..], w);
      assert forall x :: x in rest ==> Less(ws[0], x);
      [ws[0]] + rest
  }

  /** `sort` followed by `unique` and `erase`: the distinct words of `ws`
      in increasing order. */
  function SortUnique(ws: seq<string>): (r: seq<string>)
    ensures StrictlySorted(r)
    ensures forall x :: x in r <==> x in ws
  {
    if ws == [] then [] else Insert(SortUnique(ws[..|ws| - 1]), ws[|ws| - 1])
  }

  lemma NonEmptyAlike(a: seq<string>, b: seq<string>)
    requires a != []
    requires forall x :: x in a <==> x in b
    ensures b != []
  {
    assert a[0] in b;
  }

  /** A strictly sorted list is determined by its elements. */
  lemma {:induction false} SortedUnique(a: seq<string>, b: seq<string>)
    requires StrictlySorted(a) && StrictlySorted(b)
    requires forall x :: x in a <==> x in b
    ensures a == b
    decreases |a|
  {
    if a != [] {
      assert b != [] by { assert a[0] in b; }
      assert a[0] == b[0] by {
        assert b[0] in a && a[0] in b;
        var i :| 0 <= i < |a| && a[i] == b[0];
        var j :| 0 <= j < |b| && b[j] == a[0];
        if i > 0 && j > 0 {
          LessAsymmetric(b[0], b[j]);
        }
      }
      forall x
        ensures x in a[1..] <==> x in b[1..]
      {
        if x in a[1..] {
          var i :| 1 <= i < |a| && a[i] == x;
          LessIrreflexive(x);
          assert x != a[0];
          assert x in b;
        }
        if x in b[1..] {
          var j :| 1 <= j < |b| && b[j] == x;
          LessIrreflexive(x);
          assert x != b[0];
          assert x in a;
        }
      }
      SortedUnique(a[1..], b[1..]);
      assert a == [a[0]] + a[1..] && b == [b[0]] + b[1..];
    } else if b != [] {
      NonEmptyAlike(b, a);
      assert false;
    }
  }

  /** Keeping the elements that satisfy `keep`, in order. */
  function Filter(ws: seq<string>, keep: string -> bool): (r: seq<string>)
    ensures forall x :: x in r <==> x in ws && keep(x)
    ensures StrictlySorted(ws) ==> StrictlySorted(r)
  {
    if ws == [] then []
    else
      var rest := Filter(ws[1..], keep);
      assert StrictlySorted(ws) ==> StrictlySorted(ws[1..]) && forall x :: x in rest ==> Less(ws[0], x);
      if keep(ws[0]) then [ws[0]] + rest else rest
  }
}
