/** print.c: RtlCreateStringFromUint, and the decimal notation it writes. */
module Decimal {
  import opened Machine

  // ----- decimal notation -----

  ghost predicate AllDigits(s: Bytes) {
    forall i :: 0 <= i < |s| ==> IsDigit(s[i])
  }

  /** The number that a string of digits denotes. */
  function Value(s: Bytes): int {
    if s == [] then 0 else Value(s[..|s| - 1]) * 10 + s[|s| - 1] - 48
  }

  /** The decimal notation of n. */
  function Digits(n: nat): Bytes {
    if n < 10 then [48 + n] else Digits(n / 10) + [48 + n % 10]
  }

  /** Digits without a leading zero, except for the number 0 itself. */
  ghost predicate Canonical(s: Bytes) {
    s != [] && AllDigits(s) && (s[0] == 48 ==> |s| == 1)
  }

  lemma ValueSnoc(s: Bytes, c: uint8)
    ensures Value(s + [c]) == Value(s) * 10 + c - 48
  {
    assert (s + [c])[..|s|] == s;
  }

  lemma DigitsExample()
    ensures Digits(1204) == [49, 50, 48, 52] && Value([49, 50, 48, 52]) == 1204
  {
    assert Digits(12) == [49] + [50] && Digits(120) == Digits(12) + [48] && Digits(1204) == Digits(120) + [52];
    ValueSnoc([], 49);
    ValueSnoc([49], 50);
    ValueSnoc([49, 50], 48);
    ValueSnoc([49, 50, 48], 52);
  }

  lemma {:induction false} DigitsCanonical(n: nat)
    ensures Canonical(Digits(n)) && Value(Digits(n)) == n
    ensures n > 0 ==> Digits(n)[0] != 48
    decreases n
  {
    if n >= 10 {
      DigitsCanonical(n / 10);
      ValueSnoc(Digits(n / 10), 48 + n % 10);
    } else {
      ValueSnoc([], 48 + n);
      assert [] + [48 + n] == [48 + n];
    }
  }

  lemma {:induction false} ValueNatural(s: Bytes)
    requires AllDigits(s)
    ensures Value(s) >= 0
    ensures s != [] && s[0] != 48 ==> Value(s) > 0
    decreases |s|
  {
    if s != [] {
      ValueNatural(s[..|s| - 1]);
    }
  }

  lemma OneDigit(s: Bytes)
    requires |s| == 1 && IsDigit(s[0])
    ensures Value(s) >= 0 && s == Digits(Value(s))
  {
    assert s == [] + [s[0]];
    ValueSnoc([], s[0]);
  }

  lemma DigitsSnoc(n: nat, d: nat)
    requires n > 0 && d < 10
    ensures Digits(n * 10 + d) == Digits(n) + [48 + d]
  {
    assert (n * 10 + d) / 10 == n && (n * 10 + d) % 10 == d;
  }

  lemma CanonicalSnoc(s: Bytes, n: nat)
    requires Canonical(s) && n == |s| - 1 > 0
    requires Value(s[..n]) >= 0 && s[..n] == Digits(Value(s[..n]))
    ensures Value(s) >= 0 && s == Digits(Value(s))
  {
    assert s == s[..n] + [s[n]];
    ValueSnoc(s[..n], s[n]);
    assert s[..n][0] == s[0];
    ValueNatural(s[..n]);
    DigitsSnoc(Value(s[..n]), s[n] - 48);
  }

  /** Of all canonical strings just one denotes n. */
  lemma {:induction false} CanonicalIsDigits(s: Bytes)
    requires Canonical(s)
    ensures Value(s) >= 0 && s == Digits(Value(s))
    decreases |s|
  {
    var n := |s| - 1;
    if n == 0 {
      OneDigit(s);
    } else {
      CanonicalIsDigits(s[..n]);
      CanonicalSnoc(s, n);
    }
  }

  // ----- writing -----

  /** What the digit loop emits for n > 0: the last digit first. */
  function Emitted(n: nat): Bytes {
    if n == 0 then [] else [48 + n % 10] + Emitted(n / 10)
  }

  function Reversed(s: Bytes): (r: Bytes)
    ensures |r| == |s| && forall i :: 0 <= i < |s| ==> r[i] == s[|s| - 1 - i]
  {
    seq<uint8>(|s|, i requires 0 <= i < |s| => s[|s| - 1 - i])
  }

  lemma ReversedCons(c: uint8, s: Bytes)
    ensures Reversed([c] + s) == Reversed(s) + [c]
  {
  }

  lemma {:induction false} EmittedIsReversed(n: nat)
    requires n > 0
    ensures Reversed(Emitted(n)) == Digits(n)
    decreases n
  {
    if n >= 10 {
      EmittedIsReversed(n / 10);
      ReversedCons(48 + n % 10, Emitted(n / 10));
    } else {
      assert Emitted(n / 10) == [];
    }
  }

  lemma EmittedLength(n: nat)
    requires n > 0
    ensures |Emitted(n)| == |Digits(n)|
  {
    EmittedIsReversed(n);
  }

  lemma EmitStep(before: Bytes, v: nat, n: nat)
    requires v > 0 && before + Emitted(v) == Emitted(n)
    ensures |before| + 1 <= |Emitted(n)|
    ensures (before + [48 + v % 10]) + Emitted(v / 10) == Emitted(n)
  {
  }

  /** The digit loop. */
  method Emit(value: uint32, str: array<uint8>) returns (index: nat)
    requires value > 0 && str.Length > |Digits(value)|
    modifies str
    ensures index == |Digits(value)| && str[..index] == Emitted(value)
    ensures str[index..] == old(str[index..])
  {
    var v: nat := value;
    index := 0;
    EmittedLength(value);
    while v > 0
      invariant index <= |Digits(value)|
      invariant str[..index] + Emitted(v) == Emitted(value)
      invariant str[index..] == old(str[index..])
    {
      ghost var before := str[..index];
      EmitStep(before, v, value);
      str[index] := 48 + v % 10;
      assert str[..index + 1] == before + [str[index]];
      index := index + 1;
      v := v / 10;
    }
  }

  /** The swap loop. */
  method ReversePrefix(str: array<uint8>, index: nat)
    requires index <= str.Length
    modifies str
    ensures str[..index] == Reversed(old(str[..index]))
    ensures str[index..] == old(str[index..])
  {
    var i: int, j: int := 0, index - 1;
    while i < j
      invariant 0 <= i <= j + 2 && i + j == index - 1
      invariant forall k :: 0 <= k < i || j < k < index ==> str[k] == old(str[index - 1 - k])
      invariant forall k :: i <= k <= j ==> str[k] == old(str[k])
      invariant forall k :: index <= k < str.Length ==> str[k] == old(str[k])
    {
      var temp := str[i];
      str[i] := str[j];
      str[j] := temp;
      i, j := i + 1, j - 1;
    }
  }

  /** RtlCreateStringFromUint: the decimal notation of value, ended by a NUL. */
  method CreateStringFromUint(value: uint32, str: array<uint8>)
    requires str.Length > |Digits(value)|
    modifies str
    ensures str[..|Digits(value)|] == Digits(value)
    ensures str[|Digits(value)|] == 0
    ensures str[|Digits(value)| + 1..] == old(str[|Digits(value)| + 1..])
  {
    if value == 0 {
      str[0] := 48;
      str[1] := 0;
      return;
    }
    var index := Emit(value, str);
    str[index] := 0;
    ghost var was := str[index..];
    ReversePrefix(str, index);
    EmittedIsReversed(value);
    assert str[index] == was[0];
    assert str[index + 1..] == was[1..];
  }
}
