/** loader.c, as values: section copies and the base relocation directory of a
  * PE image (PE Format, "The .reloc Section (Image Only)").
  *
  * An image is the bytes of its load buffer. A directory is a chain of blocks
  * inside the image itself; it denotes a list of sites, and relocating by a
  * delta adds to the value at each site.
  */
module PeImage {
  import opened Machine

  const IMAGE_REL_BASED_HIGH := 1
  const IMAGE_REL_BASED_LOW := 2
  const IMAGE_REL_BASED_HIGHLOW := 3
  const IMAGE_REL_BASED_DIR32 := 6
  const SIZEOF_RELOCATION := 8

  datatype Kind = High | Low | Whole

  datatype Site = Site(at: nat, kind: Kind) {
    function Width(): nat {
      if kind.Whole? then 4 else 2
    }

    predicate Covers(j: int) {
      at <= j < at + Width()
    }
  }

  // ----- relocating one site -----

  /** What a relocation makes of the value at its site. */
  function Adjusted(kind: Kind, v: uint32, delta: uint32): uint32 {
    match kind
    case High => (v + delta / 0x1_0000) % 0x1_0000
    case Low => (v + delta % 0x1_0000) % 0x1_0000
    case Whole => U32(v + delta)
  }

  function ValueAt(m: Bytes, s: Site): uint32
    requires s.at + s.Width() <= |m|
  {
    Tops();
    Get(m, s.at, s.Width())
  }

  function Relocate(m: Bytes, s: Site, delta: uint32): (m': Bytes)
    requires s.at + s.Width() <= |m|
    ensures |m'| == |m|
  {
    Put(m, s.at, s.Width(), Adjusted(s.kind, ValueAt(m, s), delta))
  }

  lemma RelocateExact(m: Bytes, s: Site, delta: uint32)
    requires s.at + s.Width() <= |m|
    ensures ValueAt(Relocate(m, s, delta), s) == Adjusted(s.kind, ValueAt(m, s), delta)
    ensures forall j :: 0 <= j < |m| && !s.Covers(j) ==> Relocate(m, s, delta)[j] == m[j]
  {
    Tops();
    var v := Adjusted(s.kind, ValueAt(m, s), delta);
    GetPut(m, s.at, s.Width(), v);
    forall j | 0 <= j < |m| && !s.Covers(j)
      ensures Relocate(m, s, delta)[j] == m[j]
    {
      PutFrame(m, s.at, s.Width(), v, j);
    }
  }

  // ----- relocating all sites -----

  ghost predicate InImage(m: Bytes, sites: seq<Site>) {
    forall k :: 0 <= k < |sites| ==> sites[k].at + sites[k].Width() <= |m|
  }

  predicate Apart(s: Site, t: Site) {
    s.at + s.Width() <= t.at || t.at + t.Width() <= s.at
  }

  ghost predicate PairwiseApart(sites: seq<Site>) {
    forall i, k :: 0 <= i < k < |sites| ==> Apart(sites[i], sites[k])
  }

  ghost predicate Touched(sites: seq<Site>, j: int) {
    exists k :: 0 <= k < |sites| && sites[k].Covers(j)
  }

  function RelocateAll(m: Bytes, sites: seq<Site>, delta: uint32): (m': Bytes)
    requires InImage(m, sites)
    ensures |m'| == |m|
    decreases |sites|
  {
    if sites == [] then m else RelocateAll(Relocate(m, sites[0], delta), sites[1..], delta)
  }

  lemma {:induction false} RelocateSplit(m: Bytes, xs: seq<Site>, ys: seq<Site>, delta: uint32)
    requires InImage(m, xs + ys)
    ensures InImage(m, xs) && InImage(m, ys)
    ensures RelocateAll(m, xs + ys, delta) == RelocateAll(RelocateAll(m, xs, delta), ys, delta)
    decreases |xs|
  {
    assert forall k :: 0 <= k < |xs| ==> xs[k] == (xs + ys)[k];
    assert forall k :: 0 <= k < |ys| ==> ys[k] == (xs + ys)[|xs| + k];
    if xs == [] {
      assert xs + ys == ys;
    } else {
      assert (xs + ys)[1..] == xs[1..] + ys;
      RelocateSplit(Relocate(m, xs[0], delta), xs[1..], ys, delta);
    }
  }

  /** Bytes that no site covers stay. */
  lemma {:induction false} UntouchedStays(m: Bytes, sites: seq<Site>, delta: uint32, j: nat)
    requires InImage(m, sites) && j < |m| && !Touched(sites, j)
    ensures RelocateAll(m, sites, delta)[j] == m[j]
    decreases |sites|
  {
    if sites != [] {
      assert !sites[0].Covers(j);
      RelocateExact(m, sites[0], delta);
      assert forall k :: 0 <= k < |sites| - 1 ==> sites[1..][k] == sites[k + 1];
      UntouchedStays(Relocate(m, sites[0], delta), sites[1..], delta, j);
    }
  }

  lemma ValueFrame(m: Bytes, m': Bytes, s: Site)
    requires s.at + s.Width() <= |m| && |m'| == |m|
    requires forall j :: s.Covers(j) ==> m'[j] == m[j]
    ensures ValueAt(m', s) == ValueAt(m, s)
  {
    assert forall j :: s.at <= j < s.at + s.Width() ==> s.Covers(j);
    GetAgrees(m, m', s.at, s.Width());
  }

  /** Relocation is exact: each site's value is adjusted once, ... */
  lemma {:induction false} SitesAdjusted(m: Bytes, sites: seq<Site>, delta: uint32, k: nat)
    requires InImage(m, sites) && PairwiseApart(sites) && k < |sites|
    ensures ValueAt(RelocateAll(m, sites, delta), sites[k]) == Adjusted(sites[k].kind, ValueAt(m, sites[k]), delta)
    decreases |sites|
  {
    var s, rest := sites[0], sites[1..];
    var m' := Relocate(m, s, delta);
    RelocateExact(m, s, delta);
    assert forall i :: 0 <= i < |rest| ==> rest[i] == sites[i + 1];
    if k == 0 {
      forall j | s.Covers(j)
        ensures RelocateAll(m', rest, delta)[j] == m'[j]
      {
        UntouchedStays(m', rest, delta, j);
      }
      ValueFrame(m', RelocateAll(m', rest, delta), s);
    } else {
      assert Apart(s, sites[k]);
      ValueFrame(m, m', sites[k]);
      SitesAdjusted(m', rest, delta, k - 1);
    }
  }

  // ----- what the values become -----

  /** By the PE format: a HIGHLOW or type 6 value has grown by the distance modulo 2^32, a LOW one
    * modulo 2^16, and a HIGH one by the distance's upper half modulo 2^16. */
  predicate MovedBy(kind: Kind, v: uint32, v': uint32, distance: int) {
    match kind
    case High => (v' - v - distance % TWO_32 / 0x1_0000) % 0x1_0000 == 0
    case Low => (v' - v - distance) % 0x1_0000 == 0
    case Whole => (v' - v - distance) % TWO_32 == 0
  }

  lemma Congruent16(v: int, x: int)
    requires 0 <= v < 0x1_0000
    ensures v == x % 0x1_0000 <==> (v - x) % 0x1_0000 == 0
  {
  }

  lemma Congruent32(v: int, x: int)
    requires 0 <= v < TWO_32
    ensures v == x % TWO_32 <==> (v - x) % TWO_32 == 0
  {
  }

  lemma LowHalf(v: nat, x: int)
    ensures (v + U32(x) % 0x1_0000) % 0x1_0000 == (v + x) % 0x1_0000
  {
    assert v + x == x / TWO_32 * 0x1_0000 * 0x1_0000 + U32(x) / 0x1_0000 * 0x1_0000 + (v + U32(x) % 0x1_0000);
  }

  lemma U32Inner(v: int, z: int)
    ensures U32(v + U32(z)) == U32(v + z)
  {
    assert v + z == z / TWO_32 * TWO_32 + (v + U32(z));
  }

  lemma AdjustedIff(kind: Kind, v: uint32, v': uint32, distance: int)
    requires kind.Whole? || (v < 0x1_0000 && v' < 0x1_0000)
    ensures v' == Adjusted(kind, v, U32(distance)) <==> MovedBy(kind, v, v', distance)
  {
    match kind
    case High =>
      Congruent16(v', v + U32(distance) / 0x1_0000);
    case Low =>
      LowHalf(v, distance);
      Congruent16(v', v + distance);
    case Whole =>
      U32Inner(v, distance);
      Congruent32(v', v + distance);
  }

  /** Every site has moved by the distance, and no byte off the sites has changed. */
  ghost predicate Shifted(m: Bytes, m': Bytes, sites: seq<Site>, distance: int) {
    && |m'| == |m| && InImage(m, sites)
    && (forall k :: 0 <= k < |sites| ==> MovedBy(sites[k].kind, ValueAt(m, sites[k]), ValueAt(m', sites[k]), distance))
    && (forall j :: 0 <= j < |m| && !Touched(sites, j) ==> m'[j] == m[j])
  }

  lemma ValueBound(m: Bytes, s: Site)
    requires s.at + s.Width() <= |m|
    ensures s.kind.Whole? || ValueAt(m, s) < 0x1_0000
  {
    Tops();
  }

  /** Relocating moves every site by the distance, whatever the image holds. */
  lemma SitesMoved(m: Bytes, sites: seq<Site>, distance: int)
    requires InImage(m, sites) && PairwiseApart(sites)
    ensures Shifted(m, RelocateAll(m, sites, U32(distance)), sites, distance)
  {
    var m' := RelocateAll(m, sites, U32(distance));
    forall k | 0 <= k < |sites|
      ensures MovedBy(sites[k].kind, ValueAt(m, sites[k]), ValueAt(m', sites[k]), distance)
    {
      SitesAdjusted(m, sites, U32(distance), k);
      ValueBound(m, sites[k]);
      ValueBound(m', sites[k]);
      AdjustedIff(sites[k].kind, ValueAt(m, sites[k]), ValueAt(m', sites[k]), distance);
    }
    forall j | 0 <= j < |m| && !Touched(sites, j)
      ensures m'[j] == m[j]
    {
      UntouchedStays(m, sites, U32(distance), j);
    }
  }

  /** An instance: an address 0x401000 in an image made for 0x400000 and loaded at 0x500000. */
  lemma MoveExample(m: Bytes, m': Bytes, at: nat)
    requires at + 4 <= |m| && ValueAt(m, Site(at, Whole)) == 0x40_1000
    requires Shifted(m, m', [Site(at, Whole)], 0x50_0000 - 0x40_0000)
    ensures ValueAt(m', Site(at, Whole)) == 0x50_1000
  {
    var sites := [Site(at, Whole)];
    assert MovedBy(sites[0].kind, ValueAt(m, sites[0]), ValueAt(m', sites[0]), 0x10_0000);
    Congruent32(ValueAt(m', sites[0]), 0x40_1000 + 0x10_0000);
  }

  // ----- images that agree -----

  lemma BytesOfValue(m: Bytes, m': Bytes, s: Site, j: int)
    requires s.at + s.Width() <= |m| && |m'| == |m| && ValueAt(m, s) == ValueAt(m', s) && s.Covers(j)
    ensures m[j] == m'[j]
  {
    BytesOfField(m, m', s.at, s.Width(), j);
  }

  /** Two images are equal when they agree at the sites and off them. */
  lemma EqualBySites(m: Bytes, m': Bytes, sites: seq<Site>)
    requires |m| == |m'| && InImage(m, sites)
    requires forall k :: 0 <= k < |sites| ==> ValueAt(m, sites[k]) == ValueAt(m', sites[k])
    requires forall j :: 0 <= j < |m| && !Touched(sites, j) ==> m[j] == m'[j]
    ensures m == m'
  {
    forall j | 0 <= j < |m|
      ensures m[j] == m'[j]
    {
      if Touched(sites, j) {
        var k :| 0 <= k < |sites| && sites[k].Covers(j);
        BytesOfValue(m, m', sites[k], j);
      }
    }
  }

  // ----- relocating twice -----

  predicate NoCarry(a: uint32, b: uint32) {
    a % 0x1_0000 + b % 0x1_0000 < 0x1_0000
  }

  lemma AdjustTwiceWhole(v: uint32, a: uint32, b: uint32)
    ensures Adjusted(Whole, Adjusted(Whole, v, a), b) == Adjusted(Whole, v, U32(a + b))
  {
    U32Inner(b, v + a);
    U32Inner(v, a + b);
  }

  lemma HalvesOf(h: nat, lo: nat)
    requires h < 0x1_0000 && lo < 0x1_0000
    ensures (h * 0x1_0000 + lo) / 0x1_0000 == h && (h * 0x1_0000 + lo) % 0x1_0000 == lo
  {
  }

  lemma SumHalves(a: uint32, b: uint32)
    ensures U32(a + b) / 0x1_0000 == (a / 0x1_0000 + b / 0x1_0000 + (if NoCarry(a, b) then 0 else 1)) % 0x1_0000
    ensures U32(a + b) % 0x1_0000 == (a % 0x1_0000 + b % 0x1_0000) % 0x1_0000
  {
    var c := if NoCarry(a, b) then 0 else 1;
    var h := a / 0x1_0000 + b / 0x1_0000 + c;
    var lo := a % 0x1_0000 + b % 0x1_0000 - c * 0x1_0000;
    assert a + b == h * 0x1_0000 + lo && 0 <= lo < 0x1_0000;
    if h < 0x1_0000 {
      assert U32(a + b) == h * 0x1_0000 + lo;
      HalvesOf(h, lo);
    } else {
      assert U32(a + b) == (h - 0x1_0000) * 0x1_0000 + lo;
      HalvesOf(h - 0x1_0000, lo);
    }
  }

  lemma WrapInner(v: nat, z: nat)
    ensures (v + z % 0x1_0000) % 0x1_0000 == (v + z) % 0x1_0000
  {
    var q := z / 0x1_0000;
    assert v + z == q * 0x1_0000 + (v + z % 0x1_0000);
  }

  lemma NextDiffers(t: nat)
    ensures (t + 1) % 0x1_0000 != t % 0x1_0000
  {
  }

  /** Adding in two steps, modulo 2^16, against adding the sum with a carry. */
  lemma WrapTwice(v: nat, x: nat, y: nat, c: nat)
    requires c <= 1
    ensures ((v + x) % 0x1_0000 + y) % 0x1_0000 == (v + (x + y + c) % 0x1_0000) % 0x1_0000 <==> c == 0
  {
    var t := v + x + y;
    WrapInner(y, v + x);
    WrapInner(v, x + y + c);
    assert y + (v + x) == t && v + (x + y + c) == t + c;
    NextDiffers(t);
  }

  lemma AdjustTwiceHigh(v: uint16, a: uint32, b: uint32)
    ensures Adjusted(High, Adjusted(High, v, a), b) == Adjusted(High, v, U32(a + b)) <==> NoCarry(a, b)
  {
    SumHalves(a, b);
    WrapTwice(v, a / 0x1_0000, b / 0x1_0000, if NoCarry(a, b) then 0 else 1);
  }

  lemma AdjustTwiceLow(v: uint16, a: uint32, b: uint32)
    ensures Adjusted(Low, Adjusted(Low, v, a), b) == Adjusted(Low, v, U32(a + b))
  {
    SumHalves(a, b);
    WrapTwice(v, a % 0x1_0000, b % 0x1_0000, 0);
  }

  /** Adjusting by a and then by b is adjusting by a + b; for the high half,
    * which never sees the low one, exactly when the low halves do not carry. */
  lemma AdjustTwice(kind: Kind, v: uint32, a: uint32, b: uint32)
    requires kind.Whole? || v < 0x1_0000
    ensures Adjusted(kind, Adjusted(kind, v, a), b) == Adjusted(kind, v, U32(a + b))
            <==> !kind.High? || NoCarry(a, b)
  {
    match kind
    case High => AdjustTwiceHigh(v, a, b);
    case Low => AdjustTwiceLow(v, a, b);
    case Whole => AdjustTwiceWhole(v, a, b);
  }

  /** The smallest moves that show it: twice 0x8000 is 0x10000, but a HIGH site
    * has not moved. */
  lemma HighCarryExample()
    ensures Adjusted(High, Adjusted(High, 0, 0x8000), 0x8000) == 0
    ensures Adjusted(High, 0, U32(0x8000 + 0x8000)) == 1
  {
  }

  predicate HasHigh(sites: seq<Site>) {
    exists k :: 0 <= k < |sites| && sites[k].kind.High?
  }

  /** Moving an image twice is moving it once by the sum, exactly when there is no
    * HIGH site or the low halves of the two moves do not carry. */
  lemma RelocateTwiceIff(m: Bytes, sites: seq<Site>, a: uint32, b: uint32)
    requires InImage(m, sites) && PairwiseApart(sites)
    ensures RelocateAll(RelocateAll(m, sites, a), sites, b) == RelocateAll(m, sites, U32(a + b))
            <==> !HasHigh(sites) || NoCarry(a, b)
  {
    var once, twice := RelocateAll(m, sites, U32(a + b)), RelocateAll(RelocateAll(m, sites, a), sites, b);
    forall k | 0 <= k < |sites|
      ensures ValueAt(twice, sites[k]) == ValueAt(once, sites[k]) <==> !sites[k].kind.High? || NoCarry(a, b)
    {
      SitesAdjusted(m, sites, a, k);
      SitesAdjusted(RelocateAll(m, sites, a), sites, b, k);
      SitesAdjusted(m, sites, U32(a + b), k);
      AdjustTwice(sites[k].kind, ValueAt(m, sites[k]), a, b);
    }
    forall j | 0 <= j < |m| && !Touched(sites, j)
      ensures twice[j] == once[j]
    {
      UntouchedStays(m, sites, a, j);
      UntouchedStays(RelocateAll(m, sites, a), sites, b, j);
      UntouchedStays(m, sites, U32(a + b), j);
    }
    if !HasHigh(sites) || NoCarry(a, b) {
      EqualBySites(twice, once, sites);
    }
  }

  // ----- section copies -----

  /** The section header fields that loading uses. */
  datatype Section = Section(virtualAddress: uint32, pointerToRawData: uint32, sizeOfRawData: uint32) {
    predicate Covers(j: int) {
      virtualAddress <= j < virtualAddress + sizeOfRawData
    }

    predicate Fits(m: Bytes, file: Bytes) {
      virtualAddress + sizeOfRawData <= |m| && pointerToRawData + sizeOfRawData <= |file|
    }
  }

  predicate SectionsFit(m: Bytes, file: Bytes, secs: seq<Section>) {
    forall k :: 0 <= k < |secs| ==> secs[k].Fits(m, file)
  }

  ghost predicate Loaded(secs: seq<Section>, j: int) {
    exists k :: 0 <= k < |secs| && secs[k].Covers(j)
  }

  function CopySection(m: Bytes, file: Bytes, s: Section): (m': Bytes)
    requires s.Fits(m, file)
    ensures |m'| == |m|
    ensures forall j :: 0 <= j < |m| ==>
              m'[j] == if s.Covers(j) then file[s.pointerToRawData + (j - s.virtualAddress)] else m[j]
  {
    m[..s.virtualAddress] + file[s.pointerToRawData..s.pointerToRawData + s.sizeOfRawData]
    + m[s.virtualAddress + s.sizeOfRawData..]
  }

  /** The buffer once the first n sections are copied, in order. */
  function CopySections(m: Bytes, file: Bytes, secs: seq<Section>, n: nat): (m': Bytes)
    requires n <= |secs| && SectionsFit(m, file, secs)
    ensures |m'| == |m|
  {
    if n == 0 then m
    else
      assert SectionsFit(CopySections(m, file, secs, n - 1), file, secs);
      CopySection(CopySections(m, file, secs, n - 1), file, secs[n - 1])
  }

  lemma IsCopy(m: Bytes, m': Bytes, file: Bytes, s: Section)
    requires s.Fits(m, file) && |m'| == |m|
    requires forall j :: 0 <= j < |m| ==>
               m'[j] == if s.virtualAddress <= j < s.virtualAddress + s.sizeOfRawData
                        then file[s.pointerToRawData + (j - s.virtualAddress)] else m[j]
    ensures m' == CopySection(m, file, s)
  {
  }

  /** Byte j comes from the last section that covers it ... */
  lemma {:induction false} CopiedByte(m: Bytes, file: Bytes, secs: seq<Section>, n: nat, k: nat, j: nat)
    requires k < n <= |secs| && SectionsFit(m, file, secs) && j < |m|
    requires secs[k].Covers(j) && forall i :: k < i < n ==> !secs[i].Covers(j)
    ensures secs[k].pointerToRawData + (j - secs[k].virtualAddress) < |file|
    ensures CopySections(m, file, secs, n)[j] == file[secs[k].pointerToRawData + (j - secs[k].virtualAddress)]
    decreases n
  {
    assert secs[k].Fits(m, file);
    if k < n - 1 {
      CopiedByte(m, file, secs, n - 1, k, j);
    }
  }

  /** ... and a byte that none covers is left as it was. */
  lemma {:induction false} UncopiedByte(m: Bytes, file: Bytes, secs: seq<Section>, n: nat, j: nat)
    requires n <= |secs| && SectionsFit(m, file, secs) && j < |m|
    requires forall k :: 0 <= k < n ==> !secs[k].Covers(j)
    ensures CopySections(m, file, secs, n)[j] == m[j]
    decreases n
  {
    if n > 0 {
      UncopiedByte(m, file, secs, n - 1, j);
    }
  }

  /** Whatever was in the buffer before, loaded bytes come out the same. */
  lemma {:induction false} LoadedSame(m: Bytes, m': Bytes, file: Bytes, secs: seq<Section>, n: nat, j: nat)
    requires n <= |secs| && SectionsFit(m, file, secs) && |m'| == |m| && j < |m|
    requires m[j] == m'[j] || exists k :: 0 <= k < n && secs[k].Covers(j)
    ensures SectionsFit(m', file, secs)
    ensures CopySections(m, file, secs, n)[j] == CopySections(m', file, secs, n)[j]
    decreases n
  {
    assert forall k :: 0 <= k < |secs| ==> secs[k].Fits(m', file);
    if n > 0 && !secs[n - 1].Covers(j) {
      LoadedSame(m, m', file, secs, n - 1, j);
    }
  }
}
