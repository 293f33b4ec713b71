/** string.c: strchr and strtok.
  *
  * A C string is a stretch of bytes up to a NUL. strtok keeps a cursor between
  * calls and cuts tokens out of the caller's buffer by writing NULs into it.
  */
module Strings {
  import opened Machine

  /** strchr: where ch is first found; the terminator's place for NUL; -1 for none. */
  method StrChr(str: Bytes, ch: uint8) returns (r: int)
    requires 0 !in str
    ensures ch in str ==> 0 <= r < |str| && str[r] == ch && ch !in str[..r]
    ensures ch !in str ==> r == if ch == 0 then |str| else -1
  {
    r := 0;
    while r < |str|
      invariant 0 <= r <= |str| && ch !in str[..r]
    {
      if str[r] == ch {
        return;
      }
      r := r + 1;
    }
    assert str[..r] == str;
    if ch == 0 {
      return;
    }
    r := -1;
  }

  // ----- the tokens of a string -----

  /** The C string at c: its terminator is at n. */
  ghost predicate StringAt(s: Bytes, c: nat, n: nat) {
    c <= n < |s| && s[n] == 0 && forall i :: c <= i < n ==> s[i] != 0
  }

  predicate DelimAt(s: Bytes, delim: Bytes, i: int) {
    0 <= i < |s| && s[i] in delim
  }

  /** The first position in [c, n] that is n or holds no delimiter. */
  function SkipDelims(s: Bytes, c: nat, n: nat, delim: Bytes): (a: nat)
    requires c <= n < |s|
    ensures c <= a <= n
    decreases n - c
  {
    if c < n && DelimAt(s, delim, c) then SkipDelims(s, c + 1, n, delim) else c
  }

  /** The first position in [c, n] that is n or holds a delimiter. */
  function TokenEnd(s: Bytes, c: nat, n: nat, delim: Bytes): (e: nat)
    requires c <= n < |s|
    ensures c <= e <= n && (c < n && !DelimAt(s, delim, c) ==> c < e)
    decreases n - c
  {
    if c == n || DelimAt(s, delim, c) then c else TokenEnd(s, c + 1, n, delim)
  }

  ghost predicate AllDelims(s: Bytes, delim: Bytes, a: int, b: int) {
    forall i :: a <= i < b ==> DelimAt(s, delim, i)
  }

  ghost predicate NoDelims(s: Bytes, delim: Bytes, a: int, b: int) {
    forall i :: a <= i < b ==> !DelimAt(s, delim, i)
  }

  lemma {:induction false} SkipDelimsStops(s: Bytes, c: nat, n: nat, delim: Bytes)
    requires c <= n < |s|
    ensures AllDelims(s, delim, c, SkipDelims(s, c, n, delim))
    ensures SkipDelims(s, c, n, delim) < n ==> !DelimAt(s, delim, SkipDelims(s, c, n, delim))
    decreases n - c
  {
    if c < n && DelimAt(s, delim, c) {
      SkipDelimsStops(s, c + 1, n, delim);
    }
  }

  lemma {:induction false} TokenEndStops(s: Bytes, c: nat, n: nat, delim: Bytes)
    requires c <= n < |s|
    ensures NoDelims(s, delim, c, TokenEnd(s, c, n, delim))
    ensures TokenEnd(s, c, n, delim) < n ==> DelimAt(s, delim, TokenEnd(s, c, n, delim))
    decreases n - c
  {
    if c < n && !DelimAt(s, delim, c) {
      TokenEndStops(s, c + 1, n, delim);
    }
  }

  datatype Piece = Piece(start: nat, end: nat)

  /** The tokens of the string at c, in order. */
  function Tokens(s: Bytes, c: nat, n: nat, delim: Bytes): seq<Piece>
    requires c <= n < |s|
    decreases n - c
  {
    if c == n then []
    else if DelimAt(s, delim, c) then Tokens(s, c + 1, n, delim)
    else
      var e := TokenEnd(s, c, n, delim);
      [Piece(c, e)] + Tokens(s, e, n, delim)
  }

  /** A non-empty run without delimiters that cannot be extended on either side. */
  ghost predicate MaximalPiece(s: Bytes, c: nat, n: nat, delim: Bytes, p: Piece) {
    && c <= p.start < p.end <= n
    && NoDelims(s, delim, p.start, p.end)
    && (p.start == c || DelimAt(s, delim, p.start - 1))
    && (p.end == n || DelimAt(s, delim, p.end))
  }

  /** Text that starts with a token: the first maximal piece is that token, ... */
  lemma MaximalFirst(s: Bytes, c: nat, n: nat, delim: Bytes, e: nat, p: Piece)
    requires c < e <= n < |s| && NoDelims(s, delim, c, e) && (e == n || DelimAt(s, delim, e))
    requires MaximalPiece(s, c, n, delim, p)
    ensures p == Piece(c, e) || p.start > e
  {
    var _, _ := DelimAt(s, delim, p.start), DelimAt(s, delim, p.start - 1);
    var _, _ := DelimAt(s, delim, p.end), DelimAt(s, delim, e);
  }

  /** ... and the others come behind it. */
  lemma MaximalSplit(s: Bytes, c: nat, n: nat, delim: Bytes, e: nat, p: Piece)
    requires c < e <= n < |s| && NoDelims(s, delim, c, e) && (e == n || DelimAt(s, delim, e))
    ensures MaximalPiece(s, c, n, delim, p) <==> p == Piece(c, e) || MaximalPiece(s, e, n, delim, p)
  {
    if MaximalPiece(s, c, n, delim, p) {
      MaximalFirst(s, c, n, delim, e, p);
    }
    var _ := DelimAt(s, delim, p.start);
  }

  lemma MaximalSkip(s: Bytes, c: nat, n: nat, delim: Bytes, p: Piece)
    requires c < n < |s| && DelimAt(s, delim, c)
    ensures MaximalPiece(s, c, n, delim, p) <==> MaximalPiece(s, c + 1, n, delim, p)
  {
    var _ := DelimAt(s, delim, p.start);
  }

  lemma InCons<T>(x: T, ys: seq<T>, y: T)
    ensures y in [x] + ys <==> y == x || y in ys
  {
  }

  /** The tokens are exactly the maximal delimiter-free pieces, ... */
  lemma {:induction false} TokensAreMaximal(s: Bytes, c: nat, n: nat, delim: Bytes, p: Piece)
    requires c <= n < |s|
    ensures p in Tokens(s, c, n, delim) <==> MaximalPiece(s, c, n, delim, p)
    decreases n - c
  {
    if c < n && DelimAt(s, delim, c) {
      TokensAreMaximal(s, c + 1, n, delim, p);
      MaximalSkip(s, c, n, delim, p);
    } else if c < n {
      var e := TokenEnd(s, c, n, delim);
      TokenEndStops(s, c, n, delim);
      TokensAreMaximal(s, e, n, delim, p);
      MaximalSplit(s, c, n, delim, e, p);
      InCons(Piece(c, e), Tokens(s, e, n, delim), p);
    }
  }

  ghost predicate Ordered(ts: seq<Piece>, c: nat, n: nat) {
    && (forall k :: 0 <= k < |ts| ==> c <= ts[k].start < ts[k].end <= n)
    && (forall k, l :: 0 <= k < l < |ts| ==> ts[k].end < ts[l].start)
  }

  lemma OrderedCons(p: Piece, ts: seq<Piece>, c: nat, n: nat)
    requires c <= p.start < p.end <= n && Ordered(ts, p.end + 1, n)
    ensures Ordered([p] + ts, c, n)
  {
  }

  lemma OrderedWiden(ts: seq<Piece>, c: nat, n: nat)
    requires Ordered(ts, c + 1, n)
    ensures Ordered(ts, c, n)
  {
  }

  /** ... in the order of the text. */
  lemma {:induction false} TokensInOrder(s: Bytes, c: nat, n: nat, delim: Bytes)
    requires c <= n < |s|
    ensures Ordered(Tokens(s, c, n, delim), if c < n && DelimAt(s, delim, c) then c + 1 else c, n)
    ensures Ordered(Tokens(s, c, n, delim), c, n)
    decreases n - c
  {
    if c < n && DelimAt(s, delim, c) {
      TokensInOrder(s, c + 1, n, delim);
      OrderedWiden(Tokens(s, c, n, delim), c, n);
    } else if c < n {
      var e := TokenEnd(s, c, n, delim);
      TokenEndStops(s, c, n, delim);
      TokensInOrder(s, e, n, delim);
      var rest := Tokens(s, e, n, delim);
      OrderedCons(Piece(c, e), rest, c, n);
    }
  }

  /** Leading delimiters do not matter. */
  lemma {:induction false} TokensSkip(s: Bytes, c: nat, n: nat, delim: Bytes)
    requires c <= n < |s|
    ensures Tokens(s, c, n, delim) == Tokens(s, SkipDelims(s, c, n, delim), n, delim)
    decreases n - c
  {
    if c < n && DelimAt(s, delim, c) {
      TokensSkip(s, c + 1, n, delim);
    }
  }

  ghost predicate SameFrom(s: Bytes, s': Bytes, c: nat, n: nat) {
    c <= n < |s| == |s'| && forall i :: c <= i < n ==> s[i] == s'[i]
  }

  lemma {:induction false} SkipSame(s: Bytes, s': Bytes, c: nat, n: nat, delim: Bytes)
    requires SameFrom(s, s', c, n)
    ensures SkipDelims(s, c, n, delim) == SkipDelims(s', c, n, delim)
    decreases n - c
  {
    if c < n {
      SkipSame(s, s', c + 1, n, delim);
    }
  }

  lemma {:induction false} EndSame(s: Bytes, s': Bytes, c: nat, n: nat, delim: Bytes)
    requires SameFrom(s, s', c, n)
    ensures TokenEnd(s, c, n, delim) == TokenEnd(s', c, n, delim)
    decreases n - c
  {
    if c < n {
      EndSame(s, s', c + 1, n, delim);
    }
  }

  /** The tokens depend on the text from c on only. */
  lemma {:induction false} TokensSame(s: Bytes, s': Bytes, c: nat, n: nat, delim: Bytes)
    requires SameFrom(s, s', c, n)
    ensures Tokens(s, c, n, delim) == Tokens(s', c, n, delim)
    decreases n - c
  {
    if c < n && DelimAt(s, delim, c) {
      TokensSame(s, s', c + 1, n, delim);
    } else if c < n {
      EndSame(s, s', c, n, delim);
      TokensSame(s, s', TokenEnd(s, c, n, delim), n, delim);
    }
  }
}
