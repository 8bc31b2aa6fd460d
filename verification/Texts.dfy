/** Cutting texts, of characters or of bytes, at one of them. */
module Texts {

  /** Where a character first stands in a text, or the text's length. */
  function FirstOf<T(==)>(c: T, s: seq<T>): (n: nat)
    ensures n <= |s| && c !in s[..n] && (n < |s| ==> s[n] == c)
  {
    if s == [] || s[0] == c then 0 else 1 + FirstOf(c, s[1..])
  }

  lemma {:induction false} FirstIsTheCut<T>(c: T, a: seq<T>, x: seq<T>)
    requires c !in a
    ensures FirstOf(c, a + [c] + x) == |a|
  {
    if a != [] {
      assert (a + [c] + x)[1..] == a[1..] + [c] + x;
      FirstIsTheCut(c, a[1..], x);
    }
  }

  /** A text cut at the first of a character neither part holds can be cut in one place only. */
  lemma OneCut<T>(c: T, a: seq<T>, x: seq<T>, b: seq<T>, y: seq<T>)
    requires c !in a && c !in b
    requires a + [c] + x == b + [c] + y
    ensures a == b && x == y
  {
    FirstIsTheCut(c, a, x);
    FirstIsTheCut(c, b, y);
    var s := a + [c] + x;
    assert a == s[..|a|] == b && x == s[|a| + 1..] == y;
  }

  /** The pieces of a text between the places a character stands, of which there is always one. */
  function Cut<T(==)>(c: T, s: seq<T>): (pieces: seq<seq<T>>)
    ensures pieces != []
    decreases |s|
  {
    var n := FirstOf(c, s);
    if n == |s| then [s] else [s[..n]] + Cut(c, s[n + 1..])
  }

  lemma CutAtFirst<T>(c: T, a: seq<T>, x: seq<T>)
    requires c !in a
    ensures Cut(c, a + [c] + x) == [a] + Cut(c, x)
  {
    FirstIsTheCut(c, a, x);
    var s := a + [c] + x;
    assert s[..|a|] == a && s[|a| + 1..] == x;
  }

  lemma {:induction false} CutNowhere<T>(c: T, a: seq<T>)
    requires c !in a
    ensures Cut(c, a) == [a]
  {
  }

  lemma OnePieceBegins<T>(c: T, a: seq<T>, b: seq<T>)
    requires c !in a
    ensures [a] <= Cut(c, b) <==> a == b || a + [c] <= b
  {
    hide FirstOf;
    var m := FirstOf(c, b);
    assert [a] <= Cut(c, b) <==> a == Cut(c, b)[0];
    if a + [c] <= b {
      var rest := b[|a| + 1..];
      assert b == a + [c] + rest;
      CutAtFirst(c, a, rest);
    } else if m < |b| {
      assert Cut(c, b)[0] == b[..m];
      assert b[..m] + [c] <= b;
    }
  }

  /** One text's pieces begin another's exactly when it is the other, or the other goes on with the character. */
  lemma {:induction false} PiecesBegin<T>(c: T, a: seq<T>, b: seq<T>)
    ensures Cut(c, a) <= Cut(c, b) <==> a == b || a + [c] <= b
    decreases |a|
  {
    hide FirstOf, Cut;
    var n := FirstOf(c, a);
    if n == |a| {
      assert a[..n] == a;
      CutNowhere(c, a);
      OnePieceBegins(c, a, b);
    } else {
      var head, a' := a[..n], a[n + 1..];
      assert a == head + [c] + a';
      CutAtFirst(c, head, a');
      OnePieceBegins(c, head, b);
      if head + [c] <= b {
        var b' := b[n + 1..];
        assert b == head + [c] + b';
        CutAtFirst(c, head, b');
        PiecesBegin(c, a', b');
        assert [head] + Cut(c, a') <= [head] + Cut(c, b') <==> Cut(c, a') <= Cut(c, b') by {
          PrefixBehind([head], Cut(c, a'), Cut(c, b'));
        }
        assert a + [c] == (head + [c]) + (a' + [c]);
        PrefixBehind(head + [c], a' + [c], b');
        PrefixBehind(head + [c], a', b');
      } else {
        NotBegun(c, head, a', b);
      }
    }
  }

  lemma PrefixBehind<T>(p: seq<T>, a: seq<T>, b: seq<T>)
    ensures p + a <= p + b <==> a <= b
    ensures p + a == p + b <==> a == b
  {
    if p + a <= p + b {
      assert b[..|a|] == (p + b)[|p|..|p| + |a|];
      assert a == (p + a)[|p|..];
    }
    if p + a == p + b {
      assert a == (p + a)[|p|..] && b == (p + b)[|p|..];
    }
  }

  lemma NotBegun<T>(c: T, head: seq<T>, a': seq<T>, b: seq<T>)
    requires c !in head && !(head + [c] <= b)
    ensures !([head] + Cut(c, a') <= Cut(c, b))
    ensures head + [c] + a' != b && !(head + [c] + a' + [c] <= b)
  {
    hide FirstOf;
    OnePieceBegins(c, head, b);
    if [head] + Cut(c, a') <= Cut(c, b) {
      assert [head] <= Cut(c, b);
      assert head == b;
      CutNowhere(c, b);
    }
  }
}
