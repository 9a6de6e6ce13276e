/** The two split functions of Utils.cpp and the search they rest on. */
module Split {
  import opened Bytes

  /** The offset of the first `c`, or the length of the string. */
  function Find(s: seq<byte>, c: byte): (k: nat)
    ensures k <= |s| && Without(s[..k], c) && (k < |s| ==> s[k] == c)
  {
    if s == [] then 0
    else if s[0] == c then 0
    else
      var k := Find(s[1..], c) + 1;
      assert s[1..][..k - 1] == s[1..k];
      k
  }

  lemma {:induction false} FindSkips(a: seq<byte>, c: byte, b: seq<byte>)
    requires Without(a, c)
    ensures Find(a + [c] + b, c) == |a| && Find(a, c) == |a|
  {
    if a != [] {
      FindSkips(a[1..], c, b);
      assert (a + [c] + b)[1..] == a[1..] + [c] + b;
    }
  }

  /** ByteView::find. */
  method FindFrom(buf: seq<byte>, c: byte) returns (offset: nat)
    ensures offset == Find(buf, c)
  {
    offset := 0;
    while offset < |buf| && buf[offset] != c
      invariant offset <= |buf| && Find(buf, c) == offset + Find(buf[offset..], c)
    {
      assert buf[offset..][1..] == buf[offset + 1..];
      offset := offset + 1;
    }
  }

  function Join(parts: seq<seq<byte>>, d: byte): seq<byte> {
    if parts == [] then []
    else if |parts| == 1 then parts[0]
    else parts[0] + [d] + Join(parts[1..], d)
  }

  // ---- split over std::string: runs of delimiters separate, empty tokens vanish ----

  function Tokens(s: seq<byte>, d: byte): seq<seq<byte>>
    decreases |s|
  {
    if s == [] then []
    else if s[0] == d then Tokens(s[1..], d)
    else
      var k := Find(s, d);
      [s[..k]] + Tokens(s[k..], d)
  }

  function Strip(s: seq<byte>, d: byte): seq<byte> {
    if s == [] then [] else (if s[0] == d then [] else [s[0]]) + Strip(s[1..], d)
  }

  function Flatten(parts: seq<seq<byte>>): seq<byte> {
    if parts == [] then [] else parts[0] + Flatten(parts[1..])
  }

  predicate CleanTokens(tokens: seq<seq<byte>>, d: byte) {
    forall i | 0 <= i < |tokens| :: tokens[i] != [] && Without(tokens[i], d)
  }

  lemma {:induction false} StripAppend(a: seq<byte>, b: seq<byte>, d: byte)
    requires Without(a, d)
    ensures Strip(a + b, d) == a + Strip(b, d)
  {
    if a == [] {
      assert a + b == b;
    } else {
      assert (a + b)[1..] == a[1..] + b;
      StripAppend(a[1..], b, d);
    }
  }

  /** Tokens are non-empty and free of the delimiter, and nothing but delimiters is lost. */
  lemma {:induction false} TokensLoseNothing(s: seq<byte>, d: byte)
    ensures CleanTokens(Tokens(s, d), d) && Flatten(Tokens(s, d)) == Strip(s, d)
    decreases |s|
  {
    if s != [] {
      if s[0] == d {
        TokensLoseNothing(s[1..], d);
      } else {
        var k := Find(s, d);
        TokensLoseNothing(s[k..], d);
        assert s == s[..k] + s[k..];
        StripAppend(s[..k], s[k..], d);
        assert Tokens(s, d)[1..] == Tokens(s[k..], d);
      }
    }
  }

  lemma {:induction false} TokensOfJoin(parts: seq<seq<byte>>, d: byte)
    requires CleanTokens(parts, d)
    ensures Tokens(Join(parts, d), d) == parts
    decreases parts
  {
    if parts != [] {
      var a, more := parts[0], parts[1..];
      var s := Join(parts, d);
      TokensOfJoin(more, d);
      if more == [] {
        FindSkips(a, d, []);
        assert s[..|a|] == a && s[|a|..] == [];
        assert parts == [a] + more;
      } else {
        var rest := Join(more, d);
        FindSkips(a, d, rest);
        assert s[..|a|] == a && s[|a|..] == [d] + rest;
        assert ([d] + rest)[1..] == rest;
        assert Tokens([d] + rest, d) == Tokens(rest, d);
      }
    }
  }

  lemma {:induction false} TokensUnfold(s: seq<byte>, d: byte)
    ensures s == [] ==> Tokens(s, d) == []
    ensures s != [] && s[0] == d ==> Tokens(s, d) == Tokens(s[1..], d)
    ensures s != [] && s[0] != d ==>
              var k := Find(s, d); k > 0 && Tokens(s, d) == [s[..k]] + Tokens(s[k..], d)
  {
  }

  /** A delimiter always separates: the tokens of both sides are found independently. */
  lemma {:induction false} TokensSeparate(a: seq<byte>, d: byte, b: seq<byte>)
    ensures Tokens(a + [d] + b, d) == Tokens(a, d) + Tokens(b, d)
    decreases |a|
  {
    hide Tokens, Find;
    var s := a + [d] + b;
    TokensUnfold(a, d);
    TokensUnfold(s, d);
    if a == [] {
      assert s[1..] == b && [] + Tokens(b, d) == Tokens(b, d);
    } else if a[0] == d {
      assert s[1..] == a[1..] + [d] + b;
      TokensSeparate(a[1..], d, b);
    } else {
      var k := Find(a, d);
      FindInFront(a, d, b);
      assert s[..k] == a[..k] && s[k..] == a[k..] + [d] + b;
      TokensSeparate(a[k..], d, b);
      InFront(a[..k], Tokens(a[k..], d), Tokens(b, d));
    }
  }

  lemma InFront(first: seq<byte>, rest: seq<seq<byte>>, more: seq<seq<byte>>)
    ensures [first] + (rest + more) == [first] + rest + more
  {
  }

  lemma {:induction false} FindInFront(a: seq<byte>, d: byte, b: seq<byte>)
    ensures Find(a + [d] + b, d) == Find(a, d)
  {
    if a != [] && a[0] != d {
      FindInFront(a[1..], d, b);
      assert (a + [d] + b)[1..] == a[1..] + [d] + b;
    }
  }

  /** Utils::split over strings. */
  method SplitString(s: seq<byte>, d: byte) returns (elems: seq<seq<byte>>)
    ensures elems == Tokens(s, d)
  {
    hide Tokens, Find;
    elems := [];
    var next := 0;
    assert s[0..] == s;
    while next < |s|
      invariant next <= |s| && elems + Tokens(s[next..], d) == Tokens(s, d)
    {
      TokensNext(s, next, d, elems);
      if s[next] == d {
        next := next + 1;  // find_first_not_of
      } else {
        var len := FindFrom(s[next..], d);
        elems := elems + [s[next..next + len]];
        next := next + len;
      }
    }
    TokensNext(s, next, d, elems);
  }

  lemma TokensNext(s: seq<byte>, i: nat, d: byte, done: seq<seq<byte>>)
    requires i <= |s|
    ensures i == |s| ==> done + Tokens(s[i..], d) == done
    ensures i < |s| && s[i] == d ==> Tokens(s[i..], d) == Tokens(s[i + 1..], d)
    ensures i < |s| && s[i] != d ==>
              var k := Find(s[i..], d);
              k > 0 && done + Tokens(s[i..], d) == done + [s[i..i + k]] + Tokens(s[i + k..], d)
  {
    if i < |s| {
      var k := Find(s[i..], d);
      assert s[i..][1..] == s[i + 1..] && s[i..][..k] == s[i..i + k] && s[i..][k..] == s[i + k..];
    }
  }

  // ---- split over ByteView: every delimiter separates, only a trailing empty piece vanishes ----

  function Pieces(s: seq<byte>, d: byte): seq<seq<byte>>
    decreases |s|
  {
    if s == [] then []
    else
      var k := Find(s, d);
      if k == |s| then [s] else [s[..k]] + Pieces(s[k + 1..], d)
  }

  lemma {:induction false} PiecesOfJoin(parts: seq<seq<byte>>, d: byte)
    requires forall i | 0 <= i < |parts| :: Without(parts[i], d)
    requires parts != [] ==> parts[|parts| - 1] != []
    ensures Pieces(Join(parts, d), d) == parts
    decreases parts
  {
    if parts != [] {
      var a, more := parts[0], parts[1..];
      var s := Join(parts, d);
      if more == [] {
        FindSkips(a, d, []);
        assert parts == [a];
      } else {
        PiecesOfJoin(more, d);
        FindSkips(a, d, Join(more, d));
        assert s[..|a|] == a && s[|a| + 1..] == Join(more, d);
        assert parts == [a] + more;
      }
    }
  }

  /** One delimiter at the end closes the last piece, and starts no other. */
  lemma {:induction false} PiecesClosed(parts: seq<seq<byte>>, d: byte)
    requires parts != [] && forall i | 0 <= i < |parts| :: Without(parts[i], d)
    ensures Pieces(Join(parts, d) + [d], d) == parts
    decreases parts
  {
    var a, more := parts[0], parts[1..];
    var s := Join(parts, d) + [d];
    if more == [] {
      assert s == a + [d] + [];
      FindSkips(a, d, []);
      assert s[..|a|] == a && s[|a| + 1..] == [];
      assert parts == [a];
    } else {
      var rest := Join(more, d) + [d];
      assert s == a + [d] + rest;
      FindSkips(a, d, rest);
      assert s[..|a|] == a && s[|a| + 1..] == rest;
      PiecesClosed(more, d);
      assert Pieces(s, d) == [a] + Pieces(rest, d);
      hide Pieces, Join;
      assert parts == [a] + more;
    }
  }

  /** ByteView::first and ByteView::lstrip. */
  function First(view: seq<byte>, offset: nat): seq<byte> {
    if offset > |view| then view else view[..offset]
  }

  function LStrip(view: seq<byte>, offset: nat): seq<byte> {
    if offset > |view| then [] else view[offset..]
  }

  /** Utils::split over views. */
  method SplitView(view: seq<byte>, d: byte) returns (elems: seq<seq<byte>>)
    ensures elems == Pieces(view, d)
  {
    hide Pieces, Find;
    elems := [];
    var rest := view;
    while |rest| > 0
      invariant elems + Pieces(rest, d) == Pieces(view, d)
      decreases |rest|
    {
      PiecesNext(rest, d, elems);
      var offset := FindFrom(rest, d);
      if offset == |rest| {
        elems := elems + [rest];
        return;
      }
      elems := elems + [First(rest, offset)];
      rest := LStrip(rest, offset + 1);
    }
    PiecesNext(rest, d, elems);
  }

  lemma PiecesNext(s: seq<byte>, d: byte, done: seq<seq<byte>>)
    ensures s == [] ==> done + Pieces(s, d) == done
    ensures s != [] ==>
              var k := Find(s, d);
              done + Pieces(s, d) == if k == |s| then done + [s] else done + [s[..k]] + Pieces(s[k + 1..], d)
  {
    PiecesUnfold(s, d);
    hide Find, Pieces;
    if s != [] && Find(s, d) < |s| {
      PutBehind(done, s[..Find(s, d)], Pieces(s[Find(s, d) + 1..], d));
    }
  }

  lemma {:induction false} PiecesUnfold(s: seq<byte>, d: byte)
    ensures s == [] ==> Pieces(s, d) == []
    ensures s != [] ==>
              var k := Find(s, d);
              Pieces(s, d) == if k == |s| then [s] else [s[..k]] + Pieces(s[k + 1..], d)
  {
  }

  lemma PutBehind(done: seq<seq<byte>>, first: seq<byte>, rest: seq<seq<byte>>)
    ensures done + ([first] + rest) == done + [first] + rest
  {
  }
}
