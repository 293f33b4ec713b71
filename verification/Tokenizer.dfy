/** string.c: what one call of strtok does to buffer and cursor, and whole runs of calls. */
module Tokenizer {
  import opened Machine
  import opened Strings

  datatype Cursor = Null | At(pos: nat)

  ghost predicate CursorIn(s: Bytes, cur: Cursor, n: nat) {
    cur.At? ==> StringAt(s, cur.pos, n)
  }

  /** One call with a NULL string: the buffer and cursor after it, and where the
    * token starts, -1 for none. */
  ghost function Step(s: Bytes, cur: Cursor, n: nat, delim: Bytes): (r: (Bytes, Cursor, int))
    requires CursorIn(s, cur, n)
  {
    if cur == Null then (s, Null, -1)
    else
      var a := SkipDelims(s, cur.pos, n, delim);
      if a == n then (s, At(n), -1)
      else
        var e := TokenEnd(s, a, n, delim);
        if e < n then (s[e := 0], At(e + 1), a) else (s, Null, a)
  }

  ghost function Pending(s: Bytes, cur: Cursor, n: nat, delim: Bytes): seq<Piece>
    requires CursorIn(s, cur, n)
  {
    if cur == Null then [] else Tokens(s, cur.pos, n, delim)
  }

  ghost predicate Taken(s: Bytes, n: nat, ts: seq<Piece>, s': Bytes, cur': Cursor, r: int, delim: Bytes) {
    && CursorIn(s', cur', n)
    && |s'| == |s|
    && (ts == [] ==> r == -1 && s' == s && Pending(s', cur', n, delim) == [])
    && (ts != [] ==>
          && r == ts[0].start < ts[0].end <= n < |s|
          && s' == s[ts[0].end := 0]
          && Pending(s', cur', n, delim) == ts[1..])
  }

  lemma CutTail(s: Bytes, c: nat, n: nat, e: nat)
    requires StringAt(s, c, n) && c <= e < n
    ensures SameFrom(s, s[e := 0], e + 1, n) && StringAt(s[e := 0], e + 1, n)
  {
  }

  lemma PendingBehind(s: Bytes, c: nat, n: nat, delim: Bytes, a: nat, e: nat)
    requires StringAt(s, c, n) && a == SkipDelims(s, c, n, delim) < n && e == TokenEnd(s, a, n, delim) < n
    ensures a < e
    ensures CursorIn(s[e := 0], At(e + 1), n)
    ensures Tokens(s, c, n, delim) == [Piece(a, e)] + Tokens(s[e := 0], e + 1, n, delim)
  {
    TokensSkip(s, c, n, delim);
    SkipDelimsStops(s, c, n, delim);
    TokenEndStops(s, a, n, delim);
    CutTail(s, c, n, e);
    TokensSame(s, s[e := 0], e + 1, n, delim);
  }

  lemma LastPending(s: Bytes, c: nat, n: nat, delim: Bytes, a: nat)
    requires StringAt(s, c, n) && a == SkipDelims(s, c, n, delim)
    requires a == n || n == TokenEnd(s, a, n, delim)
    ensures Tokens(s, c, n, delim) == if a == n then [] else [Piece(a, n)]
  {
    TokensSkip(s, c, n, delim);
    SkipDelimsStops(s, c, n, delim);
  }

  /** A call returns the first pending token, cut off by a NUL, and leaves the others pending. */
  lemma StepTakesToken(s: Bytes, cur: Cursor, n: nat, delim: Bytes)
    requires CursorIn(s, cur, n)
    ensures var (s', cur', r) := Step(s, cur, n, delim);
            Taken(s, n, Pending(s, cur, n, delim), s', cur', r, delim)
  {
    if cur != Null {
      var c := cur.pos;
      var a := SkipDelims(s, c, n, delim);
      if a < n && TokenEnd(s, a, n, delim) < n {
        PendingBehind(s, c, n, delim, a, TokenEnd(s, a, n, delim));
      } else {
        LastPending(s, c, n, delim, a);
        SkipDelimsStops(s, c, n, delim);
        assert s[n := 0] == s;
      }
    }
  }

  /** k calls in a row: the buffer and cursor after them, and what they returned. */
  ghost function Run(s: Bytes, cur: Cursor, n: nat, delim: Bytes, k: nat): (Bytes, Cursor, seq<int>)
    requires CursorIn(s, cur, n)
    decreases k
  {
    if k == 0 then (s, cur, [])
    else
      StepTakesToken(s, cur, n, delim);
      var (s', cur', r) := Step(s, cur, n, delim);
      var (s'', cur'', rs) := Run(s', cur', n, delim, k - 1);
      (s'', cur'', [r] + rs)
  }

  /** The starts of the first k tokens, then -1 for every call after the last one. */
  function Starts(ts: seq<Piece>, k: nat): (r: seq<int>) {
    if k == 0 then [] else if ts == [] then [-1] + Starts(ts, k - 1)
    else [ts[0].start] + Starts(ts[1..], k - 1)
  }

  lemma {:induction false} StartsAt(ts: seq<Piece>, k: nat, i: nat)
    requires i < k
    ensures |Starts(ts, k)| == k
    ensures Starts(ts, k)[i] == if i < |ts| then ts[i].start else -1
    decreases k
  {
    var ts' := if ts == [] then ts else ts[1..];
    if k > 1 {
      StartsAt(ts', k - 1, if i == 0 then 0 else i - 1);
    }
  }

  /** The buffer with the first k tokens terminated in place. */
  ghost function Cut(s: Bytes, ts: seq<Piece>, k: nat): (r: Bytes)
    requires forall p :: p in ts ==> p.end < |s|
    ensures |r| == |s|
    decreases k
  {
    if k == 0 || ts == [] then s else Cut(s[ts[0].end := 0], ts[1..], k - 1)
  }

  lemma CutShift(ts: seq<Piece>, k: nat, i: nat)
    requires k > 0 && ts != []
    ensures (exists j :: 0 <= j < k && j < |ts| && ts[j].end == i)
            <==> ts[0].end == i || exists j :: 0 <= j < k - 1 && j < |ts[1..]| && ts[1..][j].end == i
  {
    if j :| 0 < j < k && j < |ts| && ts[j].end == i {
      assert ts[1..][j - 1].end == i;
    }
    if j :| 0 <= j < k - 1 && j < |ts[1..]| && ts[1..][j].end == i {
      assert ts[j + 1].end == i;
    }
  }

  /** Only the place right behind one of the first k tokens is overwritten. */
  lemma {:induction false} CutAt(s: Bytes, ts: seq<Piece>, k: nat, i: nat)
    requires (forall p :: p in ts ==> p.end < |s|) && i < |s|
    ensures Cut(s, ts, k)[i] == if exists j :: 0 <= j < k && j < |ts| && ts[j].end == i then 0 else s[i]
    decreases k
  {
    if k > 0 && ts != [] {
      CutAt(s[ts[0].end := 0], ts[1..], k - 1, i);
      CutShift(ts, k, i);
    }
  }

  /** Any number of calls: the tokens in order, then nothing more for ever. */
  lemma {:induction false} RunTakesTokens(s: Bytes, cur: Cursor, n: nat, delim: Bytes, k: nat)
    requires CursorIn(s, cur, n)
    ensures forall p :: p in Pending(s, cur, n, delim) ==> p.end < |s|
    ensures Run(s, cur, n, delim, k).0 == Cut(s, Pending(s, cur, n, delim), k)
    ensures Run(s, cur, n, delim, k).2 == Starts(Pending(s, cur, n, delim), k)
    decreases k
  {
    if cur != Null {
      TokensInOrder(s, cur.pos, n, delim);
    }
    if k > 0 {
      StepTakesToken(s, cur, n, delim);
      var (s', cur', r) := Step(s, cur, n, delim);
      RunTakesTokens(s', cur', n, delim, k - 1);
    }
  }

  // ----- a whole run over one string -----

  /** What the calls return: the i-th one the i-th token, in the order of the text. */
  lemma CallReturns(s: Bytes, n: nat, delim: Bytes, k: nat, i: nat)
    requires StringAt(s, 0, n) && i < k
    ensures |Run(s, At(0), n, delim, k).2| == k
    ensures Run(s, At(0), n, delim, k).2[i]
            == var ts := Tokens(s, 0, n, delim); if i < |ts| then ts[i].start else -1
  {
    RunTakesTokens(s, At(0), n, delim, k);
    StartsAt(Tokens(s, 0, n, delim), k, i);
  }

  /** What the calls overwrite: delimiters only, each right behind its own token. */
  lemma OnlyDelimitersCut(s: Bytes, n: nat, delim: Bytes, k: nat, i: nat)
    requires StringAt(s, 0, n) && i < |s|
    ensures |Run(s, At(0), n, delim, k).0| == |s|
    ensures Run(s, At(0), n, delim, k).0[i] != s[i]
            ==> Run(s, At(0), n, delim, k).0[i] == 0 && DelimAt(s, delim, i)
                && exists j :: 0 <= j < k && j < |Tokens(s, 0, n, delim)| && Tokens(s, 0, n, delim)[j].end == i
  {
    var ts := Tokens(s, 0, n, delim);
    RunTakesTokens(s, At(0), n, delim, k);
    CutAt(s, ts, k, i);
    if j :| 0 <= j < k && j < |ts| && ts[j].end == i {
      TokensAreMaximal(s, 0, n, delim, ts[j]);
    }
  }

  lemma CutInside(s: Bytes, ts: seq<Piece>, n: nat, k: nat, j: nat, i: nat)
    requires Ordered(ts, 0, n) && n < |s| && j < |ts| && ts[j].start <= i < ts[j].end
    ensures forall p :: p in ts ==> p.end < |s|
    ensures Cut(s, ts, k)[i] == s[i]
  {
    CutAt(s, ts, k, i);
    forall l | 0 <= l < |ts|
      ensures ts[l].end != i
    {
      assert l < j ==> ts[l].end < ts[j].start;
      assert l > j ==> ts[j].end < ts[l].start;
    }
  }

  ghost predicate Isolated(s: Bytes, s': Bytes, t: Piece) {
    && t.start < t.end < |s| == |s'|
    && s'[t.start..t.end] == s[t.start..t.end]
    && s'[t.end] == 0
  }

  lemma CutIsolates(s: Bytes, ts: seq<Piece>, n: nat, k: nat, j: nat)
    requires Ordered(ts, 0, n) && n < |s| && j < k && j < |ts|
    ensures forall p :: p in ts ==> p.end < |s|
    ensures Isolated(s, Cut(s, ts, k), ts[j])
  {
    CutAt(s, ts, k, ts[j].end);
    forall i | ts[j].start <= i < ts[j].end
      ensures Cut(s, ts, k)[i] == s[i]
    {
      CutInside(s, ts, n, k, j, i);
    }
  }

  /** What the caller reads at a token it got: its own text, ended by a NUL. */
  lemma TokenText(s: Bytes, n: nat, delim: Bytes, k: nat, j: nat)
    requires StringAt(s, 0, n) && j < k && j < |Tokens(s, 0, n, delim)|
    ensures Isolated(s, Run(s, At(0), n, delim, k).0, Tokens(s, 0, n, delim)[j])
  {
    RunTakesTokens(s, At(0), n, delim, k);
    TokensInOrder(s, 0, n, delim);
    CutIsolates(s, Tokens(s, 0, n, delim), n, k, j);
  }
}
