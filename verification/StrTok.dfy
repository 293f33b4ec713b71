/** string.c: strtok, in place, with its cursor kept between calls. */
module StrTok {
  import opened Machine
  import opened Strings
  import opened Tokenizer

  /** The static variable of strtok: the buffer and the place in it, if any. */
  class Cutter {
    var text: array?<uint8>
    var next: Cursor
    ghost var nul: nat

    ghost predicate Valid()
      reads this, text
    {
      next.At? ==> text != null && StringAt(text[..], next.pos, nul)
    }

    constructor ()
      ensures Valid() && next == Null && text == null
    {
      text, next, nul := null, Null, 0;
    }

    ghost function Now(): (s: Bytes)
      reads this, text
      requires Valid()
      ensures CursorIn(s, next, nul)
    {
      if text == null then [] else text[..]
    }

    method SkipLeading(delim: Bytes)
      requires Valid() && next.At? && 0 !in delim
      modifies this`next
      ensures Valid() && text == old(text) && nul == old(nul)
      ensures next == At(SkipDelims(old(Now()), old(next.pos), nul, delim))
    {
      while text[next.pos] != 0
        invariant Valid() && next.At? && text == old(text) && nul == old(nul)
        invariant SkipDelims(text[..], next.pos, nul, delim) == SkipDelims(old(Now()), old(next.pos), nul, delim)
        decreases nul - next.pos
      {
        var found := StrChr(delim, text[next.pos]);
        if found == -1 {
          break;
        }
        next := At(next.pos + 1);
      }
    }

    method SkipToken(delim: Bytes)
      requires Valid() && next.At? && 0 !in delim
      modifies this`next
      ensures Valid() && text == old(text) && nul == old(nul)
      ensures next == At(TokenEnd(old(Now()), old(next.pos), nul, delim))
    {
      while text[next.pos] != 0
        invariant Valid() && next.At? && text == old(text) && nul == old(nul)
        invariant TokenEnd(text[..], next.pos, nul, delim) == TokenEnd(old(Now()), old(next.pos), nul, delim)
        decreases nul - next.pos
      {
        var found := StrChr(delim, text[next.pos]);
        if found != -1 {
          break;
        }
        next := At(next.pos + 1);
      }
    }

    /** Ends the token at the cursor and moves behind it. */
    method CutHere()
      requires Valid() && next.At?
      modifies this`next, text
      ensures Valid() && text == old(text) && nul == old(nul)
      ensures old(next.pos) == nul ==> Now() == old(Now()) && next == Null
      ensures old(next.pos) < nul ==> Now() == old(Now())[old(next.pos) := 0] && next == At(old(next.pos) + 1)
    {
      if text[next.pos] != 0 {
        text[next.pos] := 0;
        next := At(next.pos + 1);
      } else {
        next := Null;
      }
    }

    /** strtok(NULL, delim). */
    method NextToken(delim: Bytes) returns (start: int)
      requires Valid() && 0 !in delim
      modifies this`next, text
      ensures Valid() && text == old(text) && nul == old(nul)
      ensures (Now(), next, start) == Step(old(Now()), old(next), nul, delim)
    {
      if next == Null {
        return -1;
      }
      SkipLeading(delim);
      if text[next.pos] == 0 {
        return -1;
      }
      start := next.pos;
      SkipToken(delim);
      CutHere();
    }

    /** strtok(str, delim), where str is a string ending at n. */
    method FirstToken(str: array<uint8>, delim: Bytes, ghost n: nat) returns (start: int)
      requires StringAt(str[..], 0, n) && 0 !in delim
      modifies this, str
      ensures Valid() && text == str && nul == n
      ensures (Now(), next, start) == Step(old(str[..]), At(0), n, delim)
    {
      text, next, nul := str, At(0), n;
      start := NextToken(delim);
    }
  }

  /** k calls of strtok(NULL, delim) in a row. */
  method NextTokens(cutter: Cutter, delim: Bytes, k: nat) returns (starts: seq<int>)
    requires cutter.Valid() && 0 !in delim
    modifies cutter`next, cutter.text
    ensures cutter.Valid() && cutter.text == old(cutter.text) && cutter.nul == old(cutter.nul)
    ensures (cutter.Now(), cutter.next, starts) == Run(old(cutter.Now()), old(cutter.next), cutter.nul, delim, k)
    decreases k
  {
    if k == 0 {
      return [];
    }
    var start := cutter.NextToken(delim);
    var rest := NextTokens(cutter, delim, k - 1);
    starts := [start] + rest;
  }

  /** strtok(str, delim) and then k calls with NULL: buffer, cursor and results are those of the
    * run. */
  method AllTokens(cutter: Cutter, str: array<uint8>, delim: Bytes, k: nat, ghost n: nat)
    returns (starts: seq<int>)
    requires StringAt(str[..], 0, n) && 0 !in delim
    modifies cutter, str
    ensures cutter.Valid() && cutter.text == str && cutter.nul == n
    ensures (cutter.Now(), cutter.next, starts) == Run(old(str[..]), At(0), n, delim, k + 1)
  {
    var first := cutter.FirstToken(str, delim, n);
    var rest := NextTokens(cutter, delim, k);
    starts := [first] + rest;
  }
}
