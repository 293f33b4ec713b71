/** loader.c: the lines LdrExecBat runs. */
module BatchScript {
  import opened Machine
  import opened Strings
  import opened Tokenizer
  import opened StrTok

  const CR_LF: Bytes := [13, 10]
  const SPACES: Bytes := [32]

  /** The piece without the spaces it starts with. */
  ghost function LineOf(s: Bytes, p: Piece): Bytes
    requires p.start <= p.end < |s|
  {
    s[SkipDelims(s, p.start, p.end, SPACES)..p.end]
  }

  ghost predicate PiecesIn(s: Bytes, ts: seq<Piece>) {
    forall p :: p in ts ==> p.start <= p.end < |s|
  }

  ghost function Command(s: Bytes, p: Piece): seq<Bytes>
    requires p.start <= p.end < |s|
  {
    if LineOf(s, p) == [] then [] else [LineOf(s, p)]
  }

  /** The non-blank lines, in order. */
  ghost function Commands(s: Bytes, ts: seq<Piece>): seq<Bytes>
    requires PiecesIn(s, ts)
  {
    if ts == [] then [] else Command(s, ts[0]) + Commands(s, ts[1..])
  }

  lemma TokensIn(s: Bytes, n: nat)
    requires StringAt(s, 0, n)
    ensures Ordered(Tokens(s, 0, n, CR_LF), 0, n) && PiecesIn(s, Tokens(s, 0, n, CR_LF))
  {
    TokensInOrder(s, 0, n, CR_LF);
  }

  /** A line is a suffix of its piece; the part left out is all spaces, and it does
    * not start with one. */
  lemma LineIsTrimmed(s: Bytes, p: Piece)
    requires p.start <= p.end < |s|
    ensures |LineOf(s, p)| <= p.end - p.start
    ensures LineOf(s, p) == s[p.end - |LineOf(s, p)|..p.end]
    ensures AllDelims(s, SPACES, p.start, p.end - |LineOf(s, p)|)
    ensures LineOf(s, p) != [] ==> LineOf(s, p)[0] != 32
  {
    SkipDelimsStops(s, p.start, p.end, SPACES);
  }

  /** Some byte of the piece is not a space. */
  ghost predicate NonBlank(s: Bytes, p: Piece)
    requires p.start <= p.end < |s|
  {
    exists i :: p.start <= i < p.end && s[i] != 32
  }

  lemma BlankIff(s: Bytes, p: Piece)
    requires p.start <= p.end < |s|
    ensures LineOf(s, p) == [] <==> !NonBlank(s, p)
  {
    LineIsTrimmed(s, p);
    var a := p.end - |LineOf(s, p)|;
    if LineOf(s, p) != [] {
      assert s[a] == LineOf(s, p)[0];
    } else {
      forall i | p.start <= i < p.end
        ensures s[i] == 32
      {
        assert DelimAt(s, SPACES, i);
      }
    }
  }

  /** The pieces that are not blank, in order. */
  ghost function NonBlanks(s: Bytes, ts: seq<Piece>): seq<Piece>
    requires PiecesIn(s, ts)
  {
    if ts == [] then []
    else (if NonBlank(s, ts[0]) then [ts[0]] else []) + NonBlanks(s, ts[1..])
  }

  lemma {:induction false} NonBlanksHas(s: Bytes, ts: seq<Piece>, p: Piece)
    requires PiecesIn(s, ts)
    ensures p in NonBlanks(s, ts) <==> p in ts && NonBlank(s, p)
  {
    if ts != [] {
      NonBlanksHas(s, ts[1..], p);
    }
  }

  lemma OrderedTail(ts: seq<Piece>, c: nat, n: nat)
    requires ts != [] && Ordered(ts, c, n)
    ensures Ordered(ts[1..], ts[0].end + 1, n)
  {
    forall k | 0 <= k < |ts| - 1
      ensures ts[0].end + 1 <= ts[1..][k].start < ts[1..][k].end <= n
    {
      assert ts[1..][k] == ts[k + 1];
    }
  }

  lemma OrderedFrom(ts: seq<Piece>, c: nat, c': nat, n: nat)
    requires Ordered(ts, c', n) && c <= c'
    ensures Ordered(ts, c, n)
  {
  }

  lemma {:induction false} NonBlanksOrdered(s: Bytes, ts: seq<Piece>, c: nat, n: nat)
    requires PiecesIn(s, ts) && Ordered(ts, c, n)
    ensures Ordered(NonBlanks(s, ts), c, n)
    decreases |ts|
  {
    if ts != [] {
      var rest, c' := NonBlanks(s, ts[1..]), ts[0].end + 1;
      OrderedTail(ts, c, n);
      NonBlanksOrdered(s, ts[1..], c', n);
      if NonBlank(s, ts[0]) {
        OrderedCons(ts[0], rest, c, n);
      } else {
        OrderedFrom(rest, c, c', n);
        assert NonBlanks(s, ts) == rest;
      }
    }
  }

  lemma {:induction false} CommandOfPiece(s: Bytes, ts: seq<Piece>)
    requires PiecesIn(s, ts)
    ensures PiecesIn(s, NonBlanks(s, ts)) && |Commands(s, ts)| == |NonBlanks(s, ts)|
    ensures forall j :: 0 <= j < |NonBlanks(s, ts)| ==> Commands(s, ts)[j] == LineOf(s, NonBlanks(s, ts)[j])
  {
    if ts != [] {
      BlankIff(s, ts[0]);
      CommandOfPiece(s, ts[1..]);
      assert PiecesIn(s, ts[1..]);
    }
  }

  /** The commands run are the lines of certain pieces, one each and in text order: of the maximal
    * pieces between line ends in which some byte is not a space. */
  lemma CommandsAreLines(s: Bytes, n: nat)
    requires StringAt(s, 0, n)
    ensures PiecesIn(s, Tokens(s, 0, n, CR_LF))
    ensures var ts := Tokens(s, 0, n, CR_LF);
            var cs, ps := Commands(s, ts), NonBlanks(s, ts);
            && PiecesIn(s, ps) && |cs| == |ps| && (forall j :: 0 <= j < |ps| ==> cs[j] == LineOf(s, ps[j]))
            && Ordered(ps, 0, n)
            && forall p: Piece ::
                 p in ps <==> MaximalPiece(s, 0, n, CR_LF, p) && exists i :: p.start <= i < p.end && s[i] != 32
  {
    var ts := Tokens(s, 0, n, CR_LF);
    TokensIn(s, n);
    CommandOfPiece(s, ts);
    NonBlanksOrdered(s, ts, 0, n);
    forall p: Piece
      ensures p in NonBlanks(s, ts)
              <==> MaximalPiece(s, 0, n, CR_LF, p) && exists i :: p.start <= i < p.end && s[i] != 32
    {
      TokensAreMaximal(s, 0, n, CR_LF, p);
      NonBlanksHas(s, ts, p);
    }
  }

  /** No leading and no trailing space. */
  predicate Trimmed(line: Bytes) {
    line == [] || (line[0] != 32 && line[|line| - 1] != 32)
  }

  /** Trailing spaces stay: the line handed on is trimmed if and only if its piece is all
    * spaces or does not end in one. */
  lemma TrimmedIff(s: Bytes, p: Piece)
    requires p.start <= p.end < |s|
    ensures Trimmed(LineOf(s, p)) <==> AllDelims(s, SPACES, p.start, p.end) || s[p.end - 1] != 32
  {
    LineIsTrimmed(s, p);
    var line := LineOf(s, p);
    if line == [] {
      assert AllDelims(s, SPACES, p.start, p.end);
    } else {
      assert line[|line| - 1] == s[p.end - 1];
      assert !DelimAt(s, SPACES, p.end - |line|);
    }
  }

  /** "a " is handed on as it is. */
  lemma TrailingSpaceExample()
    ensures LineOf([97, 32, 0], Piece(0, 2)) == [97, 32] && !Trimmed([97, 32])
  {
    var s: Bytes := [97, 32, 0];
    assert !DelimAt(s, SPACES, 0);
    assert s[0..2] == [97, 32];
  }

  // ----- the line loop -----

  ghost predicate LineThere(orig: Bytes, s: Bytes, p: Piece) {
    Isolated(orig, s, p) && StringAt(s, p.start, p.end)
  }

  /** The loop is about to deal with ts: its first token is at start. */
  ghost predicate AtLine(orig: Bytes, s: Bytes, cur: Cursor, n: nat, ts: seq<Piece>, start: int) {
    && CursorIn(s, cur, n)
    && (cur.At? ==> SameFrom(orig, s, cur.pos, n))
    && (ts == [] <==> start == -1)
    && (ts != [] ==> start == ts[0].start && LineThere(orig, s, ts[0]) && Pending(s, cur, n, CR_LF) == ts[1..])
  }

  lemma StepIsolates(orig: Bytes, s: Bytes, c: nat, n: nat)
    requires StringAt(s, c, n) && SameFrom(orig, s, c, n) && Tokens(s, c, n, CR_LF) != []
    ensures LineThere(orig, Step(s, At(c), n, CR_LF).0, Tokens(s, c, n, CR_LF)[0])
  {
    StepTakesToken(s, At(c), n, CR_LF);
    TokensInOrder(s, c, n, CR_LF);
  }

  lemma StepLeavesSame(orig: Bytes, s: Bytes, c: nat, n: nat)
    requires StringAt(s, c, n) && SameFrom(orig, s, c, n)
    ensures var (s', cur', _) := Step(s, At(c), n, CR_LF); cur'.At? ==> SameFrom(orig, s', cur'.pos, n)
  {
  }

  lemma NextLine(orig: Bytes, s: Bytes, cur: Cursor, n: nat)
    requires CursorIn(s, cur, n) && (cur.At? ==> SameFrom(orig, s, cur.pos, n))
    ensures var (s', cur', r) := Step(s, cur, n, CR_LF);
            AtLine(orig, s', cur', n, Pending(s, cur, n, CR_LF), r)
  {
    StepTakesToken(s, cur, n, CR_LF);
    if cur != Null {
      StepLeavesSame(orig, s, cur.pos, n);
      if Pending(s, cur, n, CR_LF) != [] {
        StepIsolates(orig, s, cur.pos, n);
      }
    }
  }

  lemma LineIsolated(orig: Bytes, s: Bytes, p: Piece)
    requires Isolated(orig, s, p)
    ensures LineOf(s, p) == LineOf(orig, p)
  {
    assert SameFrom(orig, s, p.start, p.end) by {
      forall i | p.start <= i < p.end
        ensures orig[i] == s[i]
      {
        assert s[p.start..p.end][i - p.start] == orig[p.start..p.end][i - p.start];
      }
    }
    SkipSame(orig, s, p.start, p.end, SPACES);
    var a := SkipDelims(s, p.start, p.end, SPACES);
    assert s[a..p.end] == s[p.start..p.end][a - p.start..];
    assert orig[a..p.end] == orig[p.start..p.end][a - p.start..];
  }

  /** The C string at p, without leading spaces. */
  method LineAt(data: array<uint8>, p: nat, ghost e: nat) returns (line: Bytes)
    requires StringAt(data[..], p, e)
    ensures line == LineOf(data[..], Piece(p, e))
  {
    var q := p;
    while data[q] == 32
      invariant p <= q <= e
      invariant SkipDelims(data[..], q, e, SPACES) == SkipDelims(data[..], p, e, SPACES)
      decreases e - q
    {
      q := q + 1;
    }
    var end := q;
    while data[end] != 0
      invariant q <= end <= e
      decreases e - end
    {
      end := end + 1;
    }
    line := data[..][q..end];
  }

  lemma OneMore(done: seq<Bytes>, s: Bytes, ts: seq<Piece>)
    requires PiecesIn(s, ts) && ts != []
    ensures done + Commands(s, ts) == (done + Command(s, ts[0])) + Commands(s, ts[1..])
  {
  }

  /** One round of the loop up to the call for the next line. */
  method ExecLine(data: array<uint8>, start: nat, done: seq<Bytes>, ghost orig: Bytes, ghost ts: seq<Piece>)
    returns (executed: seq<Bytes>, ghost rest: seq<Piece>)
    requires ts != [] && start == ts[0].start && LineThere(orig, data[..], ts[0]) && PiecesIn(orig, ts)
    ensures rest == ts[1..] && PiecesIn(orig, rest)
    ensures executed == done + Command(orig, ts[0])
    ensures executed + Commands(orig, rest) == done + Commands(orig, ts)
  {
    var line := LineAt(data, start, ts[0].end);
    LineIsolated(orig, data[..], ts[0]);
    OneMore(done, orig, ts);
    executed := done;
    if line != [] {
      executed := executed + [line];
    }
    rest := ts[1..];
  }

  /** The line loop over a file's text; what it runs is returned in order. */
  method ExecLines(cutter: Cutter, data: array<uint8>, ghost n: nat) returns (executed: seq<Bytes>)
    requires StringAt(data[..], 0, n)
    modifies cutter, data
    ensures PiecesIn(old(data[..]), Tokens(old(data[..]), 0, n, CR_LF))
    ensures executed == Commands(old(data[..]), Tokens(old(data[..]), 0, n, CR_LF))
  {
    ghost var orig := data[..];
    ghost var ts := Tokens(orig, 0, n, CR_LF);
    TokensIn(orig, n);
    ghost var all := Commands(orig, ts);
    executed := [];
    NextLine(orig, orig, At(0), n);
    var start := cutter.FirstToken(data, CR_LF, n);
    while start != -1
      invariant cutter.Valid() && cutter.text == data && cutter.nul == n
      invariant AtLine(orig, data[..], cutter.next, n, ts, start)
      invariant PiecesIn(orig, ts)
      invariant executed + Commands(orig, ts) == all
      decreases |ts|
    {
      executed, ts := ExecLine(data, start, executed, orig, ts);
      ghost var s, cur := data[..], cutter.next;
      NextLine(orig, s, cur, n);
      start := cutter.NextToken(CR_LF);
    }
  }
}
