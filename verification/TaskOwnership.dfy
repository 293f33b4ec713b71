/** What the tasks of a list own: their own blocks and those of their address spaces,
  * each one once, and together all that has been taken from the heap for them.
  */
module TaskOwnership {
  import opened Machine
  import opened BlockHeap
  import opened KernelHeap
  import opened Paging
  import opened AddressSpaces
  import opened TaskLinks
  import opened TaskMemory

  function OwnBlocks(saddr: nat, t: nat, sp: Space): seq<nat> {
    [BlockOf(saddr, t)] + sp.Blocks()
  }

  /** Task t holds address space sp. */
  ghost predicate InPlace(pool: Bytes, saddr: nat, t: nat, sp: Space) {
    && TaskBlock(saddr, |pool|, t)
    && Field(pool, saddr, t, PAGE_DIRECTORY) == saddr + sp.chunk * BLOCK_SIZE
    && Mapped(pool, saddr, sp)
  }

  lemma InPlaceKept(p: Bytes, p': Bytes, saddr: nat, t: nat, sp: Space)
    requires InPlace(p, saddr, t, sp) && |p'| == |p|
    requires forall b :: b in OwnBlocks(saddr, t, sp) ==> SameBlock(p, p', b)
    ensures InPlace(p', saddr, t, sp)
  {
    var own := OwnBlocks(saddr, t, sp);
    assert own[0] in own && own[1] == sp.dir && own[|own| - 1] == sp.chunk;
    MappedKept(p, p', saddr, sp);
    FieldKept(p, p', saddr, t, PAGE_DIRECTORY);
  }

  lemma ChunkStored(pool: Bytes, saddr: nat, sp: Space, u: nat, offset: nat, v: uint32)
    requires Fitted(pool, sp.chunk) && TaskBlock(saddr, |pool|, u) && (offset == NEXT || offset == PREV)
    ensures Load32(StoreField(pool, saddr, u, offset, v), sp.chunk * BLOCK_SIZE) == Load32(pool, sp.chunk * BLOCK_SIZE)
  {
    LoadFrame32(pool, u - saddr + offset, v, sp.chunk * BLOCK_SIZE);
  }

  /** Storing a link, of whatever task, in any block but the directory's. */
  lemma InPlaceStored(pool: Bytes, saddr: nat, t: nat, sp: Space, u: nat, offset: nat, v: uint32)
    requires InPlace(pool, saddr, t, sp) && TaskBlock(saddr, |pool|, u) && (offset == NEXT || offset == PREV)
    requires BlockOf(saddr, u) != sp.dir
    ensures InPlace(StoreField(pool, saddr, u, offset, v), saddr, t, sp)
  {
    var pool' := StoreField(pool, saddr, u, offset, v);
    StoredElsewhere(pool, saddr, u, offset, v);
    DirectoryKept(pool, pool', sp.dir);
    ChunkStored(pool, saddr, sp, u, offset, v);
    StoredField(pool, saddr, u, offset, v, t, PAGE_DIRECTORY);
  }

  ghost predicate AllInPlace(pool: Bytes, saddr: nat, tasks: seq<nat>, spaces: seq<Space>) {
    |spaces| == |tasks| && forall i :: 0 <= i < |tasks| ==> InPlace(pool, saddr, tasks[i], spaces[i])
  }

  /** The blocks of each task. */
  ghost function Lists(saddr: nat, tasks: seq<nat>, spaces: seq<Space>): (r: seq<seq<nat>>)
    requires |spaces| == |tasks|
    ensures |r| == |tasks|
  {
    seq(|tasks|, i requires 0 <= i < |tasks| => OwnBlocks(saddr, tasks[i], spaces[i]))
  }

  ghost function Flatten(lists: seq<seq<nat>>): seq<nat> {
    if lists == [] then [] else Flatten(lists[..|lists| - 1]) + lists[|lists| - 1]
  }

  lemma AppendAssoc<T>(xs: seq<T>, ys: seq<T>, zs: seq<T>)
    ensures xs + (ys + zs) == (xs + ys) + zs
  {
  }

  lemma {:induction false} FlattenAppend(xs: seq<seq<nat>>, ys: seq<seq<nat>>)
    ensures Flatten(xs + ys) == Flatten(xs) + Flatten(ys)
    decreases |ys|
  {
    if ys == [] {
      assert xs + ys == xs;
    } else {
      var n := |ys| - 1;
      var front, last := ys[..n], ys[n];
      FlattenAppend(xs, front);
      assert (xs + ys)[..|xs| + n] == xs + front;
      AppendAssoc(Flatten(xs), Flatten(front), last);
    }
  }

  lemma FlattenOne(l: seq<nat>)
    ensures Flatten([l]) == l
  {
    assert [l][..0] == [];
    assert Flatten([l]) == Flatten([]) + l;
  }

  lemma SplitAt<T>(xs: seq<T>, k: nat)
    requires k < |xs|
    ensures xs == xs[..k] + [xs[k]] + xs[k + 1..]
  {
  }

  lemma FlattenThree(xs: seq<seq<nat>>, l: seq<nat>, ys: seq<seq<nat>>)
    ensures Flatten(xs + [l] + ys) == Flatten(xs) + l + Flatten(ys)
  {
    FlattenAppend(xs + [l], ys);
    FlattenAppend(xs, [l]);
    FlattenOne(l);
  }

  /** All blocks, and all but those of the k-th task. */
  lemma FlattenSplit(lists: seq<seq<nat>>, k: nat)
    requires k < |lists|
    ensures Flatten(lists) == Flatten(lists[..k]) + lists[k] + Flatten(lists[k + 1..])
    ensures Flatten(Without(lists, k)) == Flatten(lists[..k]) + Flatten(lists[k + 1..])
  {
    SplitAt(lists, k);
    FlattenThree(lists[..k], lists[k], lists[k + 1..]);
    FlattenAppend(lists[..k], lists[k + 1..]);
  }

  lemma FlattenHas(lists: seq<seq<nat>>, i: nat, b: nat)
    requires i < |lists| && b in lists[i]
    ensures b in Flatten(lists)
  {
    FlattenSplit(lists, i);
  }

  lemma FlattenApart(before: seq<seq<nat>>, l: seq<nat>, after: seq<seq<nat>>, b: nat)
    requires Distinct(Flatten(before) + l + Flatten(after)) && (b in Flatten(before) || b in Flatten(after))
    ensures b !in l
  {
    DistinctDrop(Flatten(before), l, Flatten(after));
  }

  lemma FlattenRest(lists: seq<seq<nat>>, i: nat, j: nat, b: nat)
    requires i < |lists| && j < |lists| && i != j && b in lists[i]
    ensures b in Flatten(lists[..j]) || b in Flatten(lists[j + 1..])
  {
    if i < j {
      FlattenHas(lists[..j], i, b);
    } else {
      FlattenHas(lists[j + 1..], i - j - 1, b);
    }
  }

  /** Each block belongs to one task. */
  lemma FlattenOwner(lists: seq<seq<nat>>, i: nat, j: nat, b: nat)
    requires Distinct(Flatten(lists)) && i < |lists| && j < |lists| && i != j && b in lists[i]
    ensures b !in lists[j]
  {
    FlattenSplit(lists, j);
    FlattenRest(lists, i, j, b);
    FlattenApart(lists[..j], lists[j], lists[j + 1..], b);
  }

  lemma DistinctMiddle(xs: seq<nat>, ys: seq<nat>, zs: seq<nat>)
    requires Distinct(xs + ys + zs)
    ensures Distinct(ys)
  {
    forall i, j | 0 <= i < j < |ys|
      ensures ys[i] != ys[j]
    {
      assert (xs + ys + zs)[|xs| + i] == ys[i] && (xs + ys + zs)[|xs| + j] == ys[j];
    }
  }

  lemma FlattenDistinct(lists: seq<seq<nat>>, i: nat)
    requires Distinct(Flatten(lists)) && i < |lists|
    ensures Distinct(lists[i])
  {
    FlattenSplit(lists, i);
    DistinctMiddle(Flatten(lists[..i]), lists[i], Flatten(lists[i + 1..]));
  }

  lemma ListsAppend(saddr: nat, tasks: seq<nat>, spaces: seq<Space>, t: nat, sp: Space)
    requires |spaces| == |tasks|
    ensures Flatten(Lists(saddr, tasks + [t], spaces + [sp]))
            == Flatten(Lists(saddr, tasks, spaces)) + OwnBlocks(saddr, t, sp)
  {
    var lists, own := Lists(saddr, tasks, spaces), OwnBlocks(saddr, t, sp);
    assert Lists(saddr, tasks + [t], spaces + [sp]) == lists + [own];
    FlattenAppend(lists, [own]);
    FlattenOne(own);
  }

  lemma ListsWithout(saddr: nat, tasks: seq<nat>, spaces: seq<Space>, k: nat)
    requires |spaces| == |tasks| && k < |tasks|
    ensures Lists(saddr, Without(tasks, k), Without(spaces, k)) == Without(Lists(saddr, tasks, spaces), k)
  {
    forall i | 0 <= i < |tasks| - 1
      ensures Without(tasks, k)[i] == tasks[if i < k then i else i + 1]
      ensures Without(spaces, k)[i] == spaces[if i < k then i else i + 1]
      ensures Without(Lists(saddr, tasks, spaces), k)[i] == Lists(saddr, tasks, spaces)[if i < k then i else i + 1]
    {
      WithoutAt(tasks, k, i);
      WithoutAt(spaces, k, i);
      WithoutAt(Lists(saddr, tasks, spaces), k, i);
    }
  }

  // ----- the state of a task list -----

  /** Of the live runs these blocks are the tasks', each a run of its own; the others are
    * other clients'. */
  ghost predicate Owned(others: Runs, runs: Runs, blocks: seq<nat>) {
    Distinct(blocks) && (forall b :: b in blocks ==> b !in others) && runs == others + Ones(blocks)
  }

  /** The tasks of v, with their address spaces, are in memory, and what is taken from the
    * heap is what they own and what the other clients hold. */
  ghost predicate Holding(saddr: nat, others: Runs, now: Snapshot, v: LinkView, spaces: seq<Space>) {
    && Linked(v) && AllInPlace(now.pool, saddr, v.tasks, spaces)
    && v == Links(now.pool, saddr, v.tasks, v.head, v.tail, v.current)
    && (forall i :: 0 <= i < |v.prev| ==> SomeBlock(saddr, |now.pool|, v.prev[i]))
    && (forall b :: b in now.runs ==> b !in now.free)
    && Owned(others, now.runs, Flatten(Lists(saddr, v.tasks, spaces)))
  }

  /** When removing the k-th task keeps all this: its prev is right, or, for the first task,
    * names nothing, or neither another task nor the directory of one. */
  ghost predicate Keeps(saddr: nat, v: LinkView, spaces: seq<Space>, k: nat)
    requires |v.prev| == |v.tasks| == |spaces| && k < |v.tasks|
  {
    if k > 0 then v.prev[k] == v.tasks[k - 1]
    else v.prev[0] == NULL
         || (v.prev[0] !in v.tasks[1..]
             && forall i :: 1 <= i < |spaces| ==> BlockOf(saddr, v.prev[0]) != spaces[i].dir)
  }

  lemma OwnedLive(saddr: nat, others: Runs, now: Snapshot, v: LinkView, spaces: seq<Space>, i: nat, b: nat)
    requires Holding(saddr, others, now, v, spaces) && i < |v.tasks|
    requires InPlace(now.pool, saddr, v.tasks[i], spaces[i]) && b in OwnBlocks(saddr, v.tasks[i], spaces[i])
    ensures b in now.runs && now.runs[b] == 1 && b !in now.free && b !in others
  {
    FlattenHas(Lists(saddr, v.tasks, spaces), i, b);
  }

  lemma TaskBlockOwned(saddr: nat, others: Runs, now: Snapshot, v: LinkView, spaces: seq<Space>, i: nat)
    requires Holding(saddr, others, now, v, spaces) && i < |v.tasks|
    ensures TaskBlock(saddr, |now.pool|, v.tasks[i])
    ensures var b := BlockOf(saddr, v.tasks[i]);
            b in now.runs && now.runs[b] == 1 && b !in now.free && b !in others
  {
    assert InPlace(now.pool, saddr, v.tasks[i], spaces[i]);
    OwnedLive(saddr, others, now, v, spaces, i, BlockOf(saddr, v.tasks[i]));
  }

  /** More blocks taken, ... */
  lemma OwnedMore(others: Runs, runs: Runs, runs': Runs, xs: seq<nat>, ys: seq<nat>)
    requires Owned(others, runs, xs) && Distinct(ys) && (forall y :: y in ys ==> y !in runs) && runs' == runs + Ones(ys)
    ensures Owned(others, runs', xs + ys)
  {
    assert forall y :: y in ys ==> y !in xs;
    DistinctAppend(xs, ys);
    assert runs' == others + Ones(xs + ys);
  }

  /** ... and given back. */
  lemma OwnedLess(others: Runs, runs: Runs, xs: seq<nat>, ys: seq<nat>, zs: seq<nat>)
    requires Owned(others, runs, xs + ys + zs)
    ensures Owned(others, runs - SetOf(ys), xs + zs)
  {
    DistinctDrop(xs, ys, zs);
    OnesDrop(others, xs, ys, zs);
    assert forall b :: b in xs + zs ==> b in xs + ys + zs;
  }
}
