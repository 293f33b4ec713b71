/** kernel.c: fetchwh, which reads a size given as width x height. */
module ScreenSize {
  import opened Machine
  import opened Decimal

  const TIMES: uint8 := 120

  /** The text is w, an x and h; what follows, if anything, starts on a new line. */
  ghost predicate SizeText(str: Bytes, w: Bytes, h: Bytes, rest: Bytes) {
    && str == w + [TIMES] + h + rest
    && AllDigits(w) && AllDigits(h)
    && (rest == [] || rest[0] == NEWLINE)
  }

  /** Where the digits that start at i end. */
  function DigitsEnd(s: Bytes, i: nat): (e: nat)
    requires i <= |s|
    ensures i <= e <= |s| && (e < |s| ==> !IsDigit(s[e]))
    decreases |s| - i
  {
    if i < |s| && IsDigit(s[i]) then DigitsEnd(s, i + 1) else i
  }

  lemma {:induction false} DigitsUpTo(s: Bytes, i: nat)
    requires i <= |s|
    ensures forall k :: i <= k < DigitsEnd(s, i) ==> IsDigit(s[k])
    decreases |s| - i
  {
    if i < |s| && IsDigit(s[i]) {
      DigitsUpTo(s, i + 1);
    }
  }

  lemma {:induction false} DigitsEndIs(s: Bytes, i: nat, e: nat)
    requires i <= e <= |s| && (e < |s| ==> !IsDigit(s[e]))
    requires forall k :: i <= k < e ==> IsDigit(s[k])
    ensures DigitsEnd(s, i) == e
    decreases |s| - i
  {
    if i < e {
      DigitsEndIs(s, i + 1, e);
    }
  }

  lemma Wraps(a: int, m: int)
    ensures (a + m * TWO_32) % TWO_32 == a % TWO_32
  {
  }

  lemma StepWraps(v: int, d: int)
    ensures I32(I32(v) * 10 + d) == I32(v * 10 + d)
  {
    var m := (I32(v) - v) / TWO_32;
    assert I32(v) == v + m * TWO_32;
    Wraps(v * 10 + d, m * 10);
  }

  /** One of the two digit loops; the sum is an int and wraps. */
  method ReadDigits(str: Bytes, from: nat) returns (p: nat, value: int32)
    requires from <= |str|
    ensures p == DigitsEnd(str, from)
    ensures value == I32(Value(str[from..p]))
  {
    p, value := from, 0;
    assert str[from..from] == [];
    while p < |str| && IsDigit(str[p])
      invariant from <= p <= |str|
      invariant DigitsEnd(str, p) == DigitsEnd(str, from)
      invariant value == I32(Value(str[from..p]))
    {
      var v := Value(str[from..p]);
      assert str[from..p + 1] == str[from..p] + [str[p]];
      ValueSnoc(str[from..p], str[p]);
      StepWraps(v, str[p] - 48);
      value := I32(value * 10 + str[p] - 48);
      p := p + 1;
    }
  }

  lemma SizeParts(str: Bytes, w: Bytes, h: Bytes, rest: Bytes)
    requires SizeText(str, w, h, rest)
    ensures DigitsEnd(str, 0) == |w| < |str| && str[|w|] == TIMES
    ensures w == str[..|w|]
    ensures h == str[|w| + 1..DigitsEnd(str, |w| + 1)]
    ensures rest == str[DigitsEnd(str, |w| + 1)..]
  {
    var b := |w| + 1 + |h|;
    assert str[..|w|] == w && str[|w| + 1..b] == h && str[b..] == rest;
    forall k | 0 <= k < |w|
      ensures IsDigit(str[k])
    {
      assert str[k] == w[k];
    }
    forall k | |w| + 1 <= k < b
      ensures IsDigit(str[k])
    {
      assert str[k] == h[k - |w| - 1];
    }
    assert b < |str| ==> str[b] == rest[0];
    DigitsEndIs(str, 0, |w|);
    DigitsEndIs(str, |w| + 1, b);
  }

  lemma FourParts(str: Bytes, a: nat, b: nat)
    requires a < b <= |str|
    ensures str == str[..a] + [str[a]] + str[a + 1..b] + str[b..]
  {
  }

  lemma SizeFound(str: Bytes, a: nat, b: nat)
    requires a == DigitsEnd(str, 0) < |str| && str[a] == TIMES && b == DigitsEnd(str, a + 1)
    requires b == |str| || str[b] == NEWLINE
    ensures SizeText(str, str[..a], str[a + 1..b], str[b..])
  {
    DigitsUpTo(str, 0);
    DigitsUpTo(str, a + 1);
    FourParts(str, a, b);
  }

  /** fetchwh: 2 exactly for a size, which is then what its two numbers denote, modulo 2^32;
    * what the digits read so far denote in any case. */
  method FetchWH(str: Bytes) returns (result: int, width: int32, height: int32)
    requires 0 !in str
    ensures result == 0 || result == 2
    ensures result == 2 <==> exists w, h, rest :: SizeText(str, w, h, rest)
    ensures forall w, h, rest :: SizeText(str, w, h, rest) ==>
              width == I32(Value(w)) && height == I32(Value(h))
    ensures var a := DigitsEnd(str, 0);
            && width == I32(Value(str[..a]))
            && height == if a < |str| && str[a] == TIMES then I32(Value(str[a + 1..DigitsEnd(str, a + 1)])) else 0
  {
    var p;
    height := 0;
    p, width := ReadDigits(str, 0);
    ghost var a := p;
    assert str[0..a] == str[..a];
    forall w, h, rest | SizeText(str, w, h, rest)
      ensures a < |str| && str[a] == TIMES
      ensures w == str[..a] && h == str[a + 1..DigitsEnd(str, a + 1)]
      ensures rest == str[DigitsEnd(str, a + 1)..]
    {
      SizeParts(str, w, h, rest);
    }
    if p >= |str| || str[p] != TIMES {
      result := 0;
      return;
    }
    p := p + 1;
    p, height := ReadDigits(str, p);
    if p == |str| || str[p] == NEWLINE {
      SizeFound(str, a, p);
      result := 2;
    } else {
      result := 0;
    }
  }

  lemma PrintedSize(str: Bytes, w: nat, h: nat)
    requires str == Digits(w) + [TIMES] + Digits(h)
    ensures 0 !in str && SizeText(str, Digits(w), Digits(h), [])
    ensures Value(Digits(w)) == w && Value(Digits(h)) == h
  {
    DigitsCanonical(w);
    DigitsCanonical(h);
  }

  lemma KeepsBelowHalf(x: uint32)
    ensures I32(x) == x <==> x < 0x8000_0000
  {
  }

  /** The C string RtlCreateStringFromUint writes into a buffer of its own. */
  method Printed(value: uint32) returns (s: Bytes)
    ensures s == Digits(value)
  {
    var n := |Digits(value)|;
    var buffer := new uint8[n + 1];
    CreateStringFromUint(value, buffer);
    s := buffer[..n];
  }

  /** A size written with the decimal notation of two numbers is read back as these numbers
    * exactly if they are below 2^31. */
  method PrintThenFetch(w: uint32, h: uint32) returns (result: int, width: int32, height: int32)
    ensures result == 2
    ensures width == w <==> w < 0x8000_0000
    ensures height == h <==> h < 0x8000_0000
  {
    var wide := Printed(w);
    var high := Printed(h);
    var str := wide + [TIMES] + high;
    PrintedSize(str, w, h);
    KeepsBelowHalf(w);
    KeepsBelowHalf(h);
    result, width, height := FetchWH(str);
  }
}
