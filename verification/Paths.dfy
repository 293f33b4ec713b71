/** pparser.c: what a path means, on values.
  *
  * A path is a C string: bytes without a NUL, read one past its end as 0.
  */
module Paths {
  import opened Machine

  const FREE95_MAX_PATH := 108
  const SLASH: uint8 := 47
  const COLON: uint8 := 58

  ghost predicate CString(s: Bytes) {
    0 !in s
  }

  function CharAt(s: Bytes, i: nat): uint8
    requires i <= |s|
  {
    if i < |s| then s[i] else 0
  }

  /** strnlen */
  method StrNLen(s: Bytes, max: nat) returns (i: nat)
    requires CString(s)
    ensures i == if |s| < max then |s| else max
  {
    i := 0;
    while i < max
      invariant i <= max && i <= |s|
    {
      if CharAt(s, i) == 0 {
        break;
      }
      i := i + 1;
    }
  }

  /** strlen */
  method StrLen(s: Bytes) returns (i: nat)
    requires CString(s)
    ensures i == |s|
  {
    i := 0;
    while CharAt(s, i) != 0
      invariant i <= |s|
      decreases |s| - i
    {
      i := i + 1;
    }
  }

  /** The paths the parser accepts: "d:/..." of at most 108 characters. */
  predicate ValidPath(path: Bytes) {
    3 <= |path| <= FREE95_MAX_PATH && IsDigit(path[0]) && path[1] == COLON && path[2] == SLASH
  }

  // ----- the parts a parse finds -----

  function PartEnd(s: Bytes, c: nat): (e: nat)
    requires c <= |s|
    ensures c <= e <= |s| && (e < |s| ==> s[e] == SLASH)
    ensures forall i :: c <= i < e ==> s[i] != SLASH
    decreases |s| - c
  {
    if c == |s| || s[c] == SLASH then c else PartEnd(s, c + 1)
  }

  /** Where the parser's cursor is after the part that starts at c. */
  function AfterPart(s: Bytes, c: nat): (n: nat)
    requires c <= |s|
    ensures c <= n <= |s|
  {
    var e := PartEnd(s, c);
    if e < |s| then e + 1 else e
  }

  /** The parts from c on, up to the first empty one. */
  function PartsFrom(s: Bytes, c: nat): seq<Bytes>
    requires c <= |s|
    decreases |s| - c
  {
    if PartEnd(s, c) == c then []
    else [s[c..PartEnd(s, c)]] + PartsFrom(s, AfterPart(s, c))
  }

  /** The result of a parse: a drive and its parts. */
  function Parts(path: Bytes): seq<Bytes>
    requires ValidPath(path)
  {
    PartsFrom(path, 3)
  }

  // ----- an independent description: split at '/', keep what precedes the first empty piece -----

  function SplitFrom(s: Bytes, c: nat): (pieces: seq<Bytes>)
    requires c <= |s|
    ensures |pieces| >= 1
    decreases |s| - c
  {
    var e := PartEnd(s, c);
    if e == |s| then [s[c..e]] else [s[c..e]] + SplitFrom(s, e + 1)
  }

  function Join(pieces: seq<Bytes>): Bytes {
    if pieces == [] then []
    else if |pieces| == 1 then pieces[0]
    else pieces[0] + [SLASH] + Join(pieces[1..])
  }

  function UntilEmpty(pieces: seq<Bytes>): (kept: seq<Bytes>)
    ensures |kept| <= |pieces| && kept == pieces[..|kept|]
    ensures forall i :: 0 <= i < |kept| ==> kept[i] != []
    ensures |kept| < |pieces| ==> pieces[|kept|] == []
  {
    if pieces == [] || pieces[0] == [] then [] else [pieces[0]] + UntilEmpty(pieces[1..])
  }

  /** SplitFrom is the '/'-split: no piece contains a slash, and joining the
    * pieces with slashes gives the text back. */
  lemma {:induction false} SplitIsSplit(s: Bytes, c: nat)
    requires c <= |s|
    ensures forall p :: p in SplitFrom(s, c) ==> SLASH !in p
    ensures Join(SplitFrom(s, c)) == s[c..]
    decreases |s| - c
  {
    var e := PartEnd(s, c);
    if e < |s| {
      SplitIsSplit(s, e + 1);
      var rest := SplitFrom(s, e + 1);
      assert SplitFrom(s, c)[1..] == rest;
      assert s[c..] == s[c..e] + [s[e]] + s[e + 1..];
    } else {
      assert s[c..e] == s[c..];
    }
  }

  lemma UntilEmptyCons(p: Bytes, rest: seq<Bytes>)
    ensures UntilEmpty([p] + rest) == if p == [] then [] else [p] + UntilEmpty(rest)
  {
    assert ([p] + rest)[1..] == rest;
  }

  lemma PartsFromUnfold(s: Bytes, c: nat, e: nat)
    requires c <= |s| && e == PartEnd(s, c)
    ensures e == c ==> PartsFrom(s, c) == []
    ensures c < e < |s| ==> PartsFrom(s, c) == [s[c..e]] + PartsFrom(s, e + 1)
    ensures c < e == |s| ==> PartsFrom(s, c) == [s[c..e]]
  {
    assert PartsFrom(s, |s|) == [];
  }

  /** A parse finds the '/'-split of the rest, cut at the first empty piece. */
  lemma {:induction false} PartsAreSplit(s: Bytes, c: nat)
    requires c <= |s|
    ensures PartsFrom(s, c) == UntilEmpty(SplitFrom(s, c))
    decreases |s| - c
  {
    var e := PartEnd(s, c);
    var rest := if e == |s| then [] else SplitFrom(s, e + 1);
    assert SplitFrom(s, c) == [s[c..e]] + rest;
    UntilEmptyCons(s[c..e], rest);
    PartsFromUnfold(s, c, e);
    if e < |s| {
      PartsAreSplit(s, e + 1);
    }
  }

  // ----- printing -----

  predicate PrintablePart(p: Bytes) {
    p != [] && SLASH !in p && 0 !in p
  }

  predicate Printable(parts: seq<Bytes>) {
    forall i :: 0 <= i < |parts| ==> PrintablePart(parts[i])
  }

  /** "d:/p1/.../pk" */
  function Print(drive: nat, parts: seq<Bytes>): Bytes
    requires drive < 10
  {
    [48 + drive as uint8, COLON, SLASH] + Join(parts)
  }

  lemma {:induction false} JoinNoNul(parts: seq<Bytes>)
    requires Printable(parts)
    ensures 0 !in Join(parts)
    decreases |parts|
  {
    if |parts| > 1 {
      JoinNoNul(parts[1..]);
    }
  }

  lemma JoinParts(parts: seq<Bytes>)
    requires |parts| > 1
    ensures var n := |parts[0]|;
            n < |Join(parts)| && Join(parts)[..n] == parts[0] && Join(parts)[n] == SLASH
            && Join(parts)[n + 1..] == Join(parts[1..])
  {
  }

  lemma JoinedTextAt(s: Bytes, c: nat, parts: seq<Bytes>)
    requires |parts| > 1 && c <= |s| && s[c..] == Join(parts)
    ensures var e := c + |parts[0]|;
            e < |s| && s[c..e] == parts[0] && s[e] == SLASH && s[e + 1..] == Join(parts[1..])
  {
    var e := c + |parts[0]|;
    JoinParts(parts);
    assert s[c..e] == s[c..][..e - c];
    assert s[e] == s[c..][e - c];
    assert s[e + 1..] == s[c..][e - c + 1..];
  }

  lemma {:induction false} EndOfPart(s: Bytes, c: nat, e: nat)
    requires c <= e <= |s| && SLASH !in s[c..e] && (e < |s| ==> s[e] == SLASH)
    ensures PartEnd(s, c) == e
    decreases e - c
  {
    if c < e {
      assert s[c] == s[c..e][0];
      assert s[c + 1..e] == s[c..e][1..];
      EndOfPart(s, c + 1, e);
    }
  }

  lemma LastPart(s: Bytes, c: nat)
    requires c < |s| && SLASH !in s[c..]
    ensures PartsFrom(s, c) == [s[c..]]
  {
    assert s[c..|s|] == s[c..];
    EndOfPart(s, c, |s|);
    assert PartsFrom(s, |s|) == [];
  }

  lemma FirstPart(s: Bytes, c: nat, e: nat)
    requires c < e < |s| && SLASH !in s[c..e] && s[e] == SLASH
    ensures PartsFrom(s, c) == [s[c..e]] + PartsFrom(s, e + 1)
  {
    EndOfPart(s, c, e);
  }

  lemma PartThenRest(s: Bytes, c: nat, e: nat, part: Bytes, rest: seq<Bytes>, parts: seq<Bytes>)
    requires c < e < |s| && s[c..e] == part && SLASH !in part && s[e] == SLASH
    requires PartsFrom(s, e + 1) == rest && parts == [part] + rest
    ensures PartsFrom(s, c) == parts
  {
    FirstPart(s, c, e);
  }

  lemma PrintableFirst(parts: seq<Bytes>)
    requires Printable(parts) && parts != []
    ensures PrintablePart(parts[0]) && Printable(parts[1..]) && parts == [parts[0]] + parts[1..]
  {
  }

  lemma {:induction false} ParseJoin(s: Bytes, c: nat, parts: seq<Bytes>)
    requires Printable(parts) && c <= |s| && s[c..] == Join(parts)
    ensures PartsFrom(s, c) == parts
    decreases |parts|
  {
    if parts == [] {
      assert PartsFrom(s, |s|) == [];
    } else if |parts| == 1 {
      assert PrintablePart(parts[0]) && parts == [parts[0]];
      LastPart(s, c);
    } else {
      var part, rest := parts[0], parts[1..];
      JoinedTextAt(s, c, parts);
      PrintableFirst(parts);
      ParseJoin(s, c + |part| + 1, rest);
      PartThenRest(s, c, c + |part|, part, rest, parts);
    }
  }

  /** Parsing what was printed gives the same drive and parts back. */
  lemma ParsePrint(drive: nat, parts: seq<Bytes>)
    requires drive < 10 && Printable(parts) && 3 + |Join(parts)| <= FREE95_MAX_PATH
    ensures ValidPath(Print(drive, parts)) && CString(Print(drive, parts))
    ensures Print(drive, parts)[0] - 48 == drive
    ensures Parts(Print(drive, parts)) == parts
  {
    var s := Print(drive, parts);
    JoinNoNul(parts);
    assert s[3..] == Join(parts);
    ParseJoin(s, 3, parts);
  }

  lemma SamePrefix(path: Bytes, rest: Bytes)
    requires ValidPath(path)
    ensures [path[0], COLON, SLASH] + rest == path <==> rest == path[3..]
  {
    assert path == [path[0], COLON, SLASH] + path[3..];
    assert ([path[0], COLON, SLASH] + rest)[3..] == rest;
  }

  lemma JoinMany(pieces: seq<Bytes>)
    requires |pieces| > 2
    ensures Join(pieces[1..]) != []
  {
  }

  /** Leaving out a tail of pieces makes the joined text shorter. */
  lemma {:induction false} JoinShorter(pieces: seq<Bytes>, n: nat)
    requires n < |pieces| && pieces[n] == [] && Join(pieces) != []
    ensures |Join(pieces[..n])| < |Join(pieces)|
    decreases |pieces|
  {
    if n > 1 {
      JoinMany(pieces);
      assert pieces[..n][1..] == pieces[1..][..n - 1];
      JoinShorter(pieces[1..], n - 1);
    }
  }

  lemma PrintedRest(s: Bytes, c: nat)
    requires c <= |s|
    ensures Join(PartsFrom(s, c)) == s[c..] <==> |s| == c || [] !in SplitFrom(s, c)
  {
    var pieces := SplitFrom(s, c);
    SplitIsSplit(s, c);
    PartsAreSplit(s, c);
    var n := |UntilEmpty(pieces)|;
    if n == |pieces| {
      assert pieces[..n] == pieces;
    } else if |s| == c {
      assert n == 0;
    } else {
      assert Join(pieces) == s[c..] && s[c..] != [];
      JoinShorter(pieces, n);
    }
  }

  /** Printing what was parsed gives the path back exactly when no piece after
    * the drive was dropped: every piece is non-empty, or there is none at all. */
  lemma PrintParse(path: Bytes)
    requires ValidPath(path)
    ensures Print(path[0] - 48, Parts(path)) == path
            <==> |path| == 3 || [] !in SplitFrom(path, 3)
  {
    PrintedRest(path, 3);
    SamePrefix(path, Join(Parts(path)));
  }
}
