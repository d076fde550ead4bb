/**
 The GLib string helpers the agent relies on: `g_strsplit` with a one-character
 delimiter (unlimited, and limited to two tokens) and the prefix-joining loop of
 `generate_derivations_string`. Strings are sequences of characters; a C string
 never contains NUL, which the callers guarantee by construction.
 */
module GStr {

  /** Number of occurrences of `c` in `s`. */
  function Count(s: string, c: char): nat
  {
    if |s| == 0 then 0 else (if s[0] == c then 1 else 0) + Count(s[1..], c)
  }

  /** Index of the first occurrence of `c` in `s`. */
  function IndexOf(s: string, c: char): (i: nat)
    requires c in s
    ensures i < |s| && s[i] == c
    ensures c !in s[..i]
  {
    if s[0] == c then 0 else
      assert s == [s[0]] + s[1..];
      1 + IndexOf(s[1..], c)
  }

  /** The pieces of `s` between occurrences of `c`, empty pieces included:
      always exactly one more piece than there are separators. */
  function Pieces(s: string, c: char): (r: seq<string>)
    ensures |r| == Count(s, c) + 1
    ensures forall i :: 0 <= i < |r| ==> c !in r[i]
  {
    if |s| == 0 then [""]
    else
      var rest := Pieces(s[1..], c);
      if s[0] == c then [""] + rest
      else [[s[0]] + rest[0]] + rest[1..]
  }

  /** The inverse of `Pieces`: the pieces put back together with `c` between them. */
  function JoinWith(ps: seq<string>, c: char): string
    requires |ps| >= 1
  {
    if |ps| == 1 then ps[0] else ps[0] + [c] + JoinWith(ps[1..], c)
  }

  /** `g_strsplit(s, [c], 0)`: like `Pieces`, except that the empty string splits
      to the empty vector rather than to one empty piece. */
  function Split(s: string, c: char): (r: seq<string>)
    ensures s == "" <==> r == []
    ensures forall i :: 0 <= i < |r| ==> c !in r[i]
    ensures s != "" ==> |r| == Count(s, c) + 1
  {
    if s == "" then [] else Pieces(s, c)
  }

  /** `g_strsplit(s, [c], 2)`: split at the first `c` only. */
  function SplitFirst(s: string, c: char): (r: seq<string>)
    ensures s == "" ==> r == []
    ensures s != "" && c !in s ==> r == [s]
    ensures c in s ==> |r| == 2 && c !in r[0] && r[0] + [c] + r[1] == s
  {
    if s == "" then []
    else if c !in s then [s]
    else
      var i := IndexOf(s, c);
      assert s == s[..i] + [c] + s[i + 1..];
      [s[..i], s[i + 1..]]
  }

  /** Joins two non-empty piece lists where the last piece of `xs` and the first
      piece of `ys` belong to the same line. */
  function Glue(xs: seq<string>, ys: seq<string>): (r: seq<string>)
    requires |xs| >= 1 && |ys| >= 1
    ensures |r| == |xs| + |ys| - 1
  {
    xs[..|xs| - 1] + [xs[|xs| - 1] + ys[0]] + ys[1..]
  }

  /** Gluing an empty piece changes nothing. */
  lemma GlueEmpty(xs: seq<string>)
    requires |xs| >= 1
    ensures Glue(xs, [""]) == xs
  {
    assert xs[|xs| - 1] + "" == xs[|xs| - 1];
  }

  /** Gluing twice onto the last piece is gluing the two texts at once. */
  lemma GlueGlue(xs: seq<string>, a: string, b: string)
    requires |xs| >= 1
    ensures Glue(Glue(xs, [a]), [b]) == Glue(xs, [a + b])
  {
    var n := |xs|;
    assert Glue(xs, [a]) == xs[..n - 1] + [xs[n - 1] + a];
    assert Glue(xs, [a])[..n - 1] == xs[..n - 1];
    assert xs[n - 1] + a + b == xs[n - 1] + (a + b);
  }

  /** The first piece of `s` is its text up to the first `c`, or all of it. */
  lemma {:induction false} FirstPiece(s: string, c: char)
    ensures c in s ==> Pieces(s, c)[0] == s[..IndexOf(s, c)]
    ensures c !in s ==> Pieces(s, c)[0] == s
    decreases |s|
  {
    if |s| > 0 && s[0] != c {
      FirstPiece(s[1..], c);
      assert s == [s[0]] + s[1..];
      assert c in s ==> c in s[1..];
      if c in s {
        var k := IndexOf(s[1..], c);
        assert IndexOf(s, c) == 1 + k;
        assert s[..1 + k] == [s[0]] + s[1..][..k];
      }
    }
  }

  /** The string `generate_derivations_string(items, sep)` builds: `sep` put in
      front of every item, in order. */
  function JoinPrefixed(items: seq<string>, sep: string): string
  {
    if |items| == 0 then "" else JoinPrefixed(items[..|items| - 1], sep) + sep + items[|items| - 1]
  }

  /** Gluing onto a list that starts with an empty piece leaves that piece in front. */
  lemma GlueAfterSeparator(xs: seq<string>, ys: seq<string>)
    requires |xs| >= 1 && |ys| >= 1
    ensures Glue([""] + xs, ys) == [""] + Glue(xs, ys)
  {
    assert ([""] + xs)[..|xs|] == [""] + xs[..|xs| - 1];
  }

  /** Gluing commutes with putting a character in front of the first piece. */
  lemma GlueAfterChar(x: char, xs: seq<string>, ys: seq<string>)
    requires |xs| >= 1 && |ys| >= 1
    ensures var g := Glue(xs, ys);
      Glue([[x] + xs[0]] + xs[1..], ys) == [[x] + g[0]] + g[1..]
  {
    var g := Glue(xs, ys);
    var xs' := [[x] + xs[0]] + xs[1..];
    if |xs| == 1 {
      assert xs' == [[x] + xs[0]];
      assert g == [xs[0] + ys[0]] + ys[1..];
      assert g[0] == xs[0] + ys[0] && g[1..] == ys[1..];
      assert xs'[..|xs'| - 1] == [];
      assert Glue(xs', ys) == [[x] + xs[0] + ys[0]] + ys[1..];
      assert [x] + (xs[0] + ys[0]) == [x] + xs[0] + ys[0];
    } else {
      assert g[0] == xs[0];
      assert g[1..] == xs[1..|xs| - 1] + [xs[|xs| - 1] + ys[0]] + ys[1..];
      assert xs'[..|xs'| - 1] == [[x] + xs[0]] + xs[1..|xs| - 1];
    }
  }

  /** Splitting a concatenation: the last piece of `a` and the first piece of `b`
      fuse into one piece; nothing else changes. */
  lemma {:induction false} PiecesAppend(a: string, b: string, c: char)
    ensures Pieces(a + b, c) == Glue(Pieces(a, c), Pieces(b, c))
    decreases |a|
  {
    var pb := Pieces(b, c);
    if |a| == 0 {
      assert a + b == b;
      assert "" + pb[0] == pb[0];
      assert [pb[0]] + pb[1..] == pb;
      assert Glue([""], pb) == pb;
    } else {
      assert (a + b)[1..] == a[1..] + b;
      PiecesAppend(a[1..], b, c);
      var pa' := Pieces(a[1..], c);
      if a[0] == c {
        GlueAfterSeparator(pa', pb);
      } else {
        GlueAfterChar(a[0], pa', pb);
      }
    }
  }

  /** Appending `c` and then `s` to a line list's text adds the pieces of `s` as new lines. */
  lemma {:induction false} JoinWithSnoc(xs: seq<string>, y: string, c: char)
    requires |xs| >= 1
    ensures JoinWith(xs + [y], c) == JoinWith(xs, c) + [c] + y
    decreases |xs|
  {
    if |xs| == 1 {
      assert (xs + [y])[1..] == [y];
    } else {
      assert (xs + [y])[1..] == xs[1..] + [y];
      JoinWithSnoc(xs[1..], y, c);
    }
  }

  /** Joining separator-free pieces and splitting again gives the pieces back. */
  lemma {:induction false} PiecesOfJoin(ps: seq<string>, c: char)
    requires |ps| >= 1
    requires forall i :: 0 <= i < |ps| ==> c !in ps[i]
    ensures Pieces(JoinWith(ps, c), c) == ps
    decreases |ps|
  {
    SinglePiece(ps[0], c);
    if |ps| > 1 {
      PiecesOfJoin(ps[1..], c);
      var tail := [c] + JoinWith(ps[1..], c);
      assert tail[1..] == JoinWith(ps[1..], c);
      assert Pieces(tail, c) == [""] + ps[1..];
      PiecesAppend(ps[0], tail, c);
      assert JoinWith(ps, c) == ps[0] + tail;
      assert Glue([ps[0]], [""] + ps[1..]) == [ps[0] + ""] + ps[1..];
      assert ps[0] + "" == ps[0];
      assert [ps[0]] + ps[1..] == ps;
    }
  }

  /** Splitting a string and joining the pieces gives the string back. */
  lemma {:induction false} JoinOfPieces(s: string, c: char)
    ensures JoinWith(Pieces(s, c), c) == s
    decreases |s|
  {
    if |s| > 0 {
      JoinOfPieces(s[1..], c);
      var rest := Pieces(s[1..], c);
      if s[0] == c {
        assert Pieces(s, c)[1..] == rest;
      } else if |rest| > 1 {
        assert Pieces(s, c)[1..] == rest[1..];
      }
    }
  }

  /** A string without the separator is a single piece. */
  lemma {:induction false} SinglePiece(s: string, c: char)
    requires c !in s
    ensures Pieces(s, c) == [s]
    decreases |s|
  {
    if |s| > 0 {
      assert c !in s[1..] by {
        forall k | 0 <= k < |s[1..]| ensures s[1..][k] != c {
          assert s[1..][k] == s[k + 1];
        }
      }
      SinglePiece(s[1..], c);
      assert s == [s[0]] + s[1..];
    }
  }

  /** The prefix-joined string is the separator followed by the separator-joined items. */
  lemma {:induction false} JoinPrefixedIsJoinWith(items: seq<string>, c: char)
    ensures JoinPrefixed(items, [c]) == JoinWith([""] + items, c)
    decreases |items|
  {
    if |items| > 0 {
      var init := items[..|items| - 1];
      JoinPrefixedIsJoinWith(init, c);
      JoinWithSnoc([""] + init, items[|items| - 1], c);
      assert [""] + init + [items[|items| - 1]] == [""] + items;
    }
  }

  /** Splitting the joined string at the separator recovers every item, after one
      leading empty piece; no items give the empty string and the empty vector. */
  lemma JoinPrefixedSplit(items: seq<string>, c: char)
    requires forall i :: 0 <= i < |items| ==> c !in items[i]
    ensures items == [] ==> JoinPrefixed(items, [c]) == "" && Split(JoinPrefixed(items, [c]), c) == []
    ensures items != [] ==> Split(JoinPrefixed(items, [c]), c) == [""] + items
  {
    JoinPrefixedIsJoinWith(items, c);
    var ps := [""] + items;
    if items != [] {
      assert JoinWith(ps, c) == "" + [c] + JoinWith(items, c);
      PiecesOfJoin(ps, c);
    }
  }
}
