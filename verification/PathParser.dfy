/** pparser.c: the path parser, building its linked list in kernel-heap memory.
  *
  * A path_root is two words, drive_no and first; a path_part is two words, part
  * (the address of a NUL-terminated 108-byte buffer) and next. The blocks of a
  * list are, in the order they were taken, the root and then buffer and node of
  * each part, so the word at offset 4 of the last node, or of the root when
  * there is no node yet, is where the list ends.
  */
module PathParser {
  import opened Machine
  import opened BlockHeap
  import opened KernelHeap
  import opened Paths

  ghost predicate Text(pool: Bytes, block: nat, part: Bytes) {
    && Fitted(pool, block) && |part| < FREE95_MAX_PATH
    && (forall i :: block * BLOCK_SIZE <= i < block * BLOCK_SIZE + |part| ==> pool[i] == part[i - block * BLOCK_SIZE])
    && pool[block * BLOCK_SIZE + |part|] == 0
  }

  /** Two words at the start of a block. */
  ghost predicate Words(pool: Bytes, block: nat, first: int, second: int) {
    && Fitted(pool, block)
    && Load32(pool, block * BLOCK_SIZE) == first && Load32(pool, block * BLOCK_SIZE + 4) == second
  }

  /** The address of the i-th part's node, 0 past the last. */
  function Link(saddr: nat, blocks: seq<nat>, i: nat): int {
    if 2 * i + 2 < |blocks| then saddr + blocks[2 * i + 2] * BLOCK_SIZE else 0
  }

  ghost predicate PartAt(pool: Bytes, saddr: nat, blocks: seq<nat>, i: nat, part: Bytes) {
    && 2 * i + 2 < |blocks|
    && Text(pool, blocks[2 * i + 1], part)
    && Words(pool, blocks[2 * i + 2], saddr + blocks[2 * i + 1] * BLOCK_SIZE, Link(saddr, blocks, i + 1))
  }

  /** Memory holds the list (drive, parts) in these blocks. */
  ghost predicate ListAt(pool: Bytes, saddr: nat, blocks: seq<nat>, drive: nat, parts: seq<Bytes>) {
    && |blocks| == 2 * |parts| + 1
    && Words(pool, blocks[0], drive, Link(saddr, blocks, 0))
    && forall i :: 0 <= i < |parts| ==> PartAt(pool, saddr, blocks, i, parts[i])
  }

  /** The root's two words: the drive, and the address of the first part or NULL. */
  lemma RootWords(pool: Bytes, saddr: nat, blocks: seq<nat>, drive: nat, parts: seq<Bytes>)
    requires ListAt(pool, saddr, blocks, drive, parts)
    ensures var root := blocks[0] * BLOCK_SIZE;
            && root + 8 <= |pool| && Load32(pool, root) == drive
            && Load32(pool, root + 4) == if parts == [] then 0 else saddr + blocks[2] * BLOCK_SIZE
  {
  }

  /** The i-th part's two words: the address of its text, which a NUL ends, and that of the next
    * part or NULL. */
  lemma PartWords(pool: Bytes, saddr: nat, blocks: seq<nat>, drive: nat, parts: seq<Bytes>, i: nat)
    requires ListAt(pool, saddr, blocks, drive, parts) && i < |parts|
    ensures var node, text := blocks[2 * i + 2] * BLOCK_SIZE, blocks[2 * i + 1] * BLOCK_SIZE;
            && node + 8 <= |pool| && Load32(pool, node) == saddr + text
            && Load32(pool, node + 4) == (if i + 1 < |parts| then saddr + blocks[2 * i + 4] * BLOCK_SIZE else 0)
            && text + |parts[i]| < |pool| && pool[text..text + |parts[i]| + 1] == parts[i] + [0]
  {
    assert PartAt(pool, saddr, blocks, i, parts[i]);
  }

  lemma TextKept(p: Bytes, p': Bytes, block: nat, part: Bytes)
    requires Text(p, block, part) && SameBlock(p, p', block)
    ensures Text(p', block, part)
  {
    assert forall i :: block * BLOCK_SIZE <= i <= block * BLOCK_SIZE + |part| ==> InBlock(block, i);
  }

  lemma WordsKept(p: Bytes, p': Bytes, block: nat, first: int, second: int)
    requires Words(p, block, first, second) && SameBlock(p, p', block)
    ensures Words(p', block, first, second)
  {
    var a := block * BLOCK_SIZE;
    assert InBlock(block, a) && InBlock(block, a + 1) && InBlock(block, a + 2) && InBlock(block, a + 3);
    assert InBlock(block, a + 4) && InBlock(block, a + 5) && InBlock(block, a + 6) && InBlock(block, a + 7);
  }

  /** p' is p with the word at offset 4 of a block set. */
  ghost predicate Linked(p: Bytes, p': Bytes, block: nat, next: uint32) {
    && Fitted(p, block) && |p'| == |p|
    && SameElsewhere(p, p', [block])
    && Load32(p', block * BLOCK_SIZE) == Load32(p, block * BLOCK_SIZE)
    && Load32(p', block * BLOCK_SIZE + 4) == next
  }

  /** Storing a link. */
  method SetLink(mem: array<uint8>, block: nat, next: uint32)
    requires Fitted(mem[..], block)
    modifies mem
    ensures Linked(old(mem[..]), mem[..], block, next)
  {
    ghost var before := mem[..];
    LoadStore32(before, block * BLOCK_SIZE + 4, next);
    LoadFrame32(before, block * BLOCK_SIZE + 4, next, block * BLOCK_SIZE);
    Write32(mem, block * BLOCK_SIZE + 4, next);
    forall c: nat | c != block
      ensures SameBlock(before, mem[..], c)
    {
      assert forall i :: InBlock(c, i) ==> !InBlock(block, i);
    }
  }

  /** The copying loop of pathparser_get_path_part. */
  method CopyPart(mem: array<uint8>, path: Bytes, cursor: nat, at: nat, ghost b: nat) returns (c: nat, n: nat)
    requires CString(path) && cursor <= |path| && PartEnd(path, cursor) - cursor < FREE95_MAX_PATH
    requires Fitted(mem[..], b) && at == b * BLOCK_SIZE
    requires forall i :: at <= i < at + FREE95_MAX_PATH ==> mem[i] == 0
    modifies mem
    ensures c == PartEnd(path, cursor) && n == c - cursor
    ensures Text(mem[..], b, path[cursor..c]) && SameElsewhere(old(mem[..]), mem[..], [b])
  {
    c, n := cursor, 0;
    ghost var e := PartEnd(path, cursor);
    while CharAt(path, c) != SLASH && CharAt(path, c) != 0
      invariant cursor <= c <= e && n == c - cursor
      invariant forall i :: at <= i < at + n ==> mem[i] == path[cursor + (i - at)]
      invariant forall i :: at + n <= i < at + FREE95_MAX_PATH ==> mem[i] == 0
      invariant forall i :: 0 <= i < mem.Length && !(at <= i < at + n) ==> mem[i] == old(mem[i])
      decreases |path| - c
    {
      mem[at + n] := CharAt(path, c);
      c := c + 1;
      n := n + 1;
    }
    assert c == e;
    forall d: nat | d != b
      ensures SameBlock(old(mem[..]), mem[..], d)
    {
      assert forall i :: InBlock(d, i) ==> !InBlock(b, i);
    }
  }

  /** pathparser_get_path_part. The loop writes the part's characters and no
    * more into the buffer; an empty part gives its buffer back at once. */
  method GetPathPart(k: Kernel, path: Bytes, cursor: nat) returns (buffer: int, next: nat, ghost b: nat)
    requires k.Valid() && k.FreeBlocks() != {}
    requires CString(path) && cursor <= |path| && PartEnd(path, cursor) - cursor < FREE95_MAX_PATH
    modifies k.heap, k.heap.entries, k.pool
    ensures k.Valid() && next == AfterPart(path, cursor)
    ensures b in old(k.FreeBlocks()) && b !in old(k.heap.runs)
    ensures SameElsewhere(old(k.pool[..]), k.pool[..], [b])
    ensures PartEnd(path, cursor) == cursor ==>
              buffer == 0 && k.heap.runs == old(k.heap.runs) && k.FreeBlocks() == old(k.FreeBlocks())
    ensures PartEnd(path, cursor) > cursor ==>
              && buffer == k.heap.Address(b) && buffer > 0
              && k.heap.runs == old(k.heap.runs)[b := 1] && k.FreeBlocks() == old(k.FreeBlocks()) - {b}
              && Text(k.pool[..], b, path[cursor..PartEnd(path, cursor)])
  {
    buffer, b := TakeZeroedBlock(k, FREE95_MAX_PATH);
    ghost var zeroed := k.pool[..];
    var n;
    next, n := CopyPart(k.pool, path, cursor, buffer - k.heap.saddr, b);
    SameElsewhereTrans(old(k.pool[..]), zeroed, k.pool[..], [b], [b], [b]);
    if next < |path| && CharAt(path, next) == SLASH {
      next := next + 1;
    }
    if n == 0 {
      k.KFree(buffer, b);
      assert old(k.heap.runs)[b := 1] - {b} == old(k.heap.runs);
      buffer := 0;
    }
  }

  method SetWords(mem: array<uint8>, block: nat, first: uint32, second: uint32)
    requires Fitted(mem[..], block)
    modifies mem
    ensures Words(mem[..], block, first, second) && SameElsewhere(old(mem[..]), mem[..], [block])
  {
    ghost var before := mem[..];
    LoadStore32(before, block * BLOCK_SIZE, first);
    Write32(mem, block * BLOCK_SIZE, first);
    ghost var between := mem[..];
    forall c: nat | c != block
      ensures SameBlock(before, between, c)
    {
      assert forall i :: InBlock(c, i) ==> !InBlock(block, i);
    }
    SetLink(mem, block, second);
    SameElsewhereTrans(before, between, mem[..], [block], [block], [block]);
  }

  /** A part's node, not yet linked to: the address of its text, and no next. */
  method NewNode(k: Kernel, text: int) returns (part: int, ghost node: nat)
    requires k.Valid() && k.FreeBlocks() != {} && 0 <= text < TWO_32
    modifies k.heap, k.heap.entries, k.pool
    ensures k.Valid()
    ensures node in old(k.FreeBlocks()) && k.FreeBlocks() == old(k.FreeBlocks()) - {node}
    ensures node !in old(k.heap.runs) && k.heap.runs == old(k.heap.runs)[node := 1]
    ensures part == k.heap.Address(node) && part > 0
    ensures Words(k.pool[..], node, text, 0)
    ensures SameElsewhere(old(k.pool[..]), k.pool[..], [node])
  {
    part, node := TakeZeroedBlock(k, 8);
    ghost var zeroed := k.pool[..];
    SetWords(k.pool, (part - k.heap.saddr) / BLOCK_SIZE, text, 0);
    SameElsewhereTrans(old(k.pool[..]), zeroed, k.pool[..], [node], [node], [node]);
  }

  lemma FirstWordKept(p: Bytes, p': Bytes, block: nat)
    requires Fitted(p, block) && SameBlock(p, p', block)
    ensures Load32(p', block * BLOCK_SIZE) == Load32(p, block * BLOCK_SIZE)
  {
    WordsKept(p, p', block, Load32(p, block * BLOCK_SIZE), Load32(p, block * BLOCK_SIZE + 4));
  }

  /** last_part->next = part, with the new part already in memory. */
  method LinkPart(mem: array<uint8>, at: nat, ghost last: nat, part: uint32,
                  ghost buf: nat, ghost text: Bytes, ghost node: nat, ghost buffer: int)
    requires at == last && last != buf && last != node && Fitted(mem[..], last)
    requires Text(mem[..], buf, text) && Words(mem[..], node, buffer, 0)
    modifies mem
    ensures Text(mem[..], buf, text) && Words(mem[..], node, buffer, 0)
    ensures SameElsewhere(old(mem[..]), mem[..], [last])
    ensures Load32(mem[..], last * BLOCK_SIZE) == old(Load32(mem[..], last * BLOCK_SIZE))
    ensures Load32(mem[..], last * BLOCK_SIZE + 4) == part
  {
    ghost var before := mem[..];
    SetLink(mem, at, part);
    TextKept(before, mem[..], buf, text);
    WordsKept(before, mem[..], node, buffer, 0);
  }

  /** Two more blocks taken. */
  ghost predicate TookBoth(t: Snapshot, u: Snapshot, buf: nat, node: nat) {
    && buf in t.free && node in t.free && buf != node && buf !in t.runs && node !in t.runs
    && u.free == t.free - {buf} - {node} && u.runs == t.runs[buf := 1][node := 1]
  }

  /** pathparser_parse_path_part. */
  method ParsePathPart(k: Kernel, lastPart: int, path: Bytes, cursor: nat, ghost last: nat)
    returns (part: int, next: nat, ghost buf: nat, ghost node: nat)
    requires k.Valid() && k.FreeBlocks() != {}
    requires CString(path) && cursor <= |path| && PartEnd(path, cursor) - cursor < FREE95_MAX_PATH
    requires PartEnd(path, cursor) > cursor ==> |k.FreeBlocks()| >= 2
    requires lastPart != 0 ==> lastPart == k.heap.Address(last) && Fitted(k.pool[..], last) && last in k.heap.runs
    modifies k.heap, k.heap.entries, k.pool
    ensures k.Valid() && next == AfterPart(path, cursor)
    ensures PartEnd(path, cursor) == cursor ==>
              && part == 0 && k.heap.runs == old(k.heap.runs) && k.FreeBlocks() == old(k.FreeBlocks())
              && buf in old(k.FreeBlocks()) && buf !in old(k.heap.runs)
              && SameElsewhere(old(k.pool[..]), k.pool[..], [buf])
    ensures PartEnd(path, cursor) > cursor ==>
              && part == k.heap.Address(node) && part > 0
              && TookBoth(old(Now(k)), Now(k), buf, node)
              && Text(k.pool[..], buf, path[cursor..PartEnd(path, cursor)])
              && Words(k.pool[..], node, k.heap.Address(buf), 0)
              && (lastPart == 0 ==> SameElsewhere(old(k.pool[..]), k.pool[..], [buf, node]))
              && (lastPart != 0 ==>
                    && SameElsewhere(old(k.pool[..]), k.pool[..], [buf, node, last])
                    && Load32(k.pool[..], last * BLOCK_SIZE) == old(Load32(k.pool[..], last * BLOCK_SIZE))
                    && Load32(k.pool[..], last * BLOCK_SIZE + 4) == part)
  {
    var text;
    text, next, buf := GetPathPart(k, path, cursor);
    node := buf;
    if text == 0 {
      return 0, next, buf, node;
    }
    ghost var written := k.pool[..];
    assert |k.FreeBlocks()| >= 1;
    part, node := NewNode(k, text);
    ghost var noded := k.pool[..];
    TextKept(written, noded, buf, path[cursor..PartEnd(path, cursor)]);
    SameElsewhereTrans(old(k.pool[..]), written, noded, [buf], [node], [buf, node]);
    if lastPart != 0 {
      FirstWordKept(old(k.pool[..]), noded, last);
      LinkPart(k.pool, (lastPart - k.heap.saddr) / BLOCK_SIZE, last, part,
               buf, path[cursor..PartEnd(path, cursor)], node, text);
      SameElsewhereTrans(old(k.pool[..]), noded, k.pool[..], [buf, node], [last], [buf, node, last]);
    }
  }

  lemma TookBothSteps(s: Snapshot, t: Snapshot, u: Snapshot, blocks: seq<nat>, buf: nat, node: nat, xs: seq<nat>)
    requires Took(s, t, blocks) && TookBoth(t, u, buf, node)
    requires SameElsewhere(t.pool, u.pool, xs) && forall x :: x in xs ==> x in s.free
    ensures Took(s, u, blocks + [buf] + [node])
  {
    var m := Snapshot(t.runs[buf := 1], t.free - {buf}, t.pool);
    TookSnoc(s, t, m, blocks, buf, []);
    TookSnoc(s, m, u, blocks + [buf], node, xs);
  }

  lemma PartKept(p: Bytes, p': Bytes, saddr: nat, blocks: seq<nat>, i: nat, n: nat, part: Bytes, buf: nat, node: nat)
    requires |blocks| == 2 * n + 1 && i < n && Distinct(blocks) && buf !in blocks && node !in blocks
    requires PartAt(p, saddr, blocks, i, part)
    requires SameElsewhere(p, p', [buf, node, blocks[2 * n]]) && Fitted(p, blocks[2 * n])
    requires Load32(p', blocks[2 * n] * BLOCK_SIZE) == Load32(p, blocks[2 * n] * BLOCK_SIZE)
    requires Load32(p', blocks[2 * n] * BLOCK_SIZE + 4) == saddr + node * BLOCK_SIZE
    ensures PartAt(p', saddr, blocks + [buf] + [node], i, part)
  {
    var text, own := blocks[2 * i + 1], blocks[2 * i + 2];
    assert text in blocks && own in blocks && text != blocks[2 * n];
    TextKept(p, p', text, part);
    if i + 1 < n {
      assert own != blocks[2 * n];
      WordsKept(p, p', own, saddr + text * BLOCK_SIZE, Link(saddr, blocks, i + 1));
    }
  }

  /** Appending a part: fresh buffer and node, and the old end linked to them. */
  lemma ListAppend(p: Bytes, p': Bytes, saddr: nat, blocks: seq<nat>, drive: nat, parts: seq<Bytes>,
                   last: nat, part: Bytes, buf: nat, node: nat)
    requires ListAt(p, saddr, blocks, drive, parts) && Distinct(blocks)
    requires last == blocks[2 * |parts|] && buf !in blocks && node !in blocks
    requires SameElsewhere(p, p', [buf, node, last]) && Fitted(p, last)
    requires Load32(p', last * BLOCK_SIZE) == Load32(p, last * BLOCK_SIZE)
    requires Load32(p', last * BLOCK_SIZE + 4) == saddr + node * BLOCK_SIZE
    requires Text(p', buf, part) && Words(p', node, saddr + buf * BLOCK_SIZE, 0)
    ensures ListAt(p', saddr, blocks + [buf] + [node], drive, parts + [part])
  {
    var blocks' := blocks + [buf] + [node];
    var n := |parts|;
    forall i | 0 <= i < n
      ensures PartAt(p', saddr, blocks', i, parts[i])
    {
      PartKept(p, p', saddr, blocks, i, n, parts[i], buf, node);
    }
    assert blocks'[2 * n + 1] == buf && blocks'[2 * n + 2] == node;
    assert PartAt(p', saddr, blocks', n, part);
    if n > 0 {
      assert blocks[0] != last;
      WordsKept(p, p', blocks[0], drive, Link(saddr, blocks, 0));
    }
  }

  lemma LastLive(pool: Bytes, saddr: nat, blocks: seq<nat>, drive: nat, parts: seq<Bytes>)
    requires ListAt(pool, saddr, blocks, drive, parts)
    ensures blocks[2 * |parts|] in blocks && Fitted(pool, blocks[2 * |parts|])
  {
    if |parts| > 0 {
      assert PartAt(pool, saddr, blocks, |parts| - 1, parts[|parts| - 1]);
    }
  }

  lemma ListKept(p: Bytes, p': Bytes, saddr: nat, blocks: seq<nat>, drive: nat, parts: seq<Bytes>, b: nat)
    requires ListAt(p, saddr, blocks, drive, parts) && SameElsewhere(p, p', [b]) && b !in blocks
    ensures ListAt(p', saddr, blocks, drive, parts)
  {
    assert blocks[0] in blocks;
    WordsKept(p, p', blocks[0], drive, Link(saddr, blocks, 0));
    forall i | 0 <= i < |parts|
      ensures PartAt(p', saddr, blocks, i, parts[i])
    {
      assert PartAt(p, saddr, blocks, i, parts[i]);
      assert blocks[2 * i + 1] in blocks && blocks[2 * i + 2] in blocks;
      TextKept(p, p', blocks[2 * i + 1], parts[i]);
      WordsKept(p, p', blocks[2 * i + 2], saddr + blocks[2 * i + 1] * BLOCK_SIZE, Link(saddr, blocks, i + 1));
    }
  }

  /** path_root->first = first_part */
  method StoreFirst(mem: array<uint8>, at: nat, ghost last: nat, part: uint32, ghost before: Bytes,
                    ghost buf: nat, ghost text: Bytes, ghost node: nat, ghost buffer: int)
    requires at == last && last != buf && last != node && Fitted(mem[..], last)
    requires Text(mem[..], buf, text) && Words(mem[..], node, buffer, 0)
    requires SameElsewhere(before, mem[..], [buf, node])
    modifies mem
    ensures Text(mem[..], buf, text) && Words(mem[..], node, buffer, 0)
    ensures SameElsewhere(before, mem[..], [buf, node, last])
    ensures Load32(mem[..], last * BLOCK_SIZE) == Load32(before, last * BLOCK_SIZE)
    ensures Load32(mem[..], last * BLOCK_SIZE + 4) == part
  {
    ghost var between := mem[..];
    FirstWordKept(before, between, last);
    LinkPart(mem, at, last, part, buf, text, node, buffer);
    SameElsewhereTrans(before, between, mem[..], [buf, node], [last], [buf, node, last]);
  }

  /** The progress of a parse from state s to state t: this much of the list is in place. */
  ghost predicate Parsed(saddr: nat, s: Snapshot, t: Snapshot, blocks: seq<nat>, drive: nat, parts: seq<Bytes>) {
    Took(s, t, blocks) && ListAt(t.pool, saddr, blocks, drive, parts)
  }

  lemma ParsedProbe(saddr: nat, s: Snapshot, t: Snapshot, u: Snapshot, blocks: seq<nat>, drive: nat,
                    parts: seq<Bytes>, buf: nat)
    requires Parsed(saddr, s, t, blocks, drive, parts)
    requires u.runs == t.runs && u.free == t.free && buf in t.free && buf !in t.runs
    requires SameElsewhere(t.pool, u.pool, [buf])
    ensures Parsed(saddr, s, u, blocks, drive, parts)
  {
    TookWritten(s, t, u, blocks, [buf]);
    ListKept(t.pool, u.pool, saddr, blocks, drive, parts, buf);
  }

  /** A new part in fresh blocks buf and node, linked to from block end. */
  ghost predicate Extended(saddr: nat, t: Snapshot, u: Snapshot, end: nat, part: Bytes, buf: nat, node: nat) {
    && TookBoth(t, u, buf, node)
    && SameElsewhere(t.pool, u.pool, [buf, node, end]) && Fitted(t.pool, end)
    && Load32(u.pool, end * BLOCK_SIZE) == Load32(t.pool, end * BLOCK_SIZE)
    && Load32(u.pool, end * BLOCK_SIZE + 4) == saddr + node * BLOCK_SIZE
    && Text(u.pool, buf, part) && Words(u.pool, node, saddr + buf * BLOCK_SIZE, 0)
  }

  lemma ParsedPart(saddr: nat, s: Snapshot, t: Snapshot, u: Snapshot, blocks: seq<nat>, drive: nat,
                   parts: seq<Bytes>, end: nat, part: Bytes, buf: nat, node: nat)
    requires Parsed(saddr, s, t, blocks, drive, parts) && end == blocks[2 * |parts|]
    requires Extended(saddr, t, u, end, part, buf, node)
    ensures var blocks' := blocks + [buf] + [node];
            Parsed(saddr, s, u, blocks', drive, parts + [part])
            && blocks'[0] == blocks[0] && blocks'[2 * |parts + [part]|] == node
    ensures |u.free| == |t.free| - 2
  {
    TookBothSteps(s, t, u, blocks, buf, node, [buf, node, end]);
    ListAppend(t.pool, u.pool, saddr, blocks, drive, parts, end, part, buf, node);
  }

  /** One call of pathparser_parse_path_part and, when there was no last part,
    * the caller's store of the new part in the root: either way the end of the
    * list, in block `last`, gets linked to the new part. */
  method ParseNode(k: Kernel, end: nat, lastPart: int, path: Bytes, cursor: nat)
    returns (part: int, next: nat, ghost buf: nat, ghost node: nat)
    requires k.Valid() && k.FreeBlocks() != {}
    requires CString(path) && cursor <= |path| && PartEnd(path, cursor) - cursor < FREE95_MAX_PATH
    requires PartEnd(path, cursor) > cursor ==> |k.FreeBlocks()| >= 2
    requires lastPart != 0 ==> lastPart == k.heap.Address(end)
    requires Fitted(k.pool[..], end) && end in k.heap.runs
    modifies k.heap, k.heap.entries, k.pool
    ensures k.Valid() && next == AfterPart(path, cursor)
    ensures PartEnd(path, cursor) == cursor ==>
              && part == 0 && k.heap.runs == old(k.heap.runs) && k.FreeBlocks() == old(k.FreeBlocks())
              && buf in old(k.FreeBlocks()) && buf !in old(k.heap.runs)
              && SameElsewhere(old(k.pool[..]), k.pool[..], [buf])
    ensures PartEnd(path, cursor) > cursor ==>
              && part == k.heap.Address(node) && part > 0
              && Extended(k.heap.saddr, old(Now(k)), Now(k), end, path[cursor..PartEnd(path, cursor)], buf, node)
  {
    ghost var before := k.pool[..];
    part, next, buf, node := ParsePathPart(k, lastPart, path, cursor, end);
    if lastPart == 0 && part != 0 {
      StoreFirst(k.pool, end, end, part, before, buf, path[cursor..PartEnd(path, cursor)], node, k.heap.Address(buf));
    }
  }

  lemma PartsUnfold(path: Bytes, c: nat)
    requires c <= |path|
    ensures PartEnd(path, c) == c ==> PartsFrom(path, c) == []
    ensures PartEnd(path, c) > c ==>
              && PartsFrom(path, c) == [path[c..PartEnd(path, c)]] + PartsFrom(path, AfterPart(path, c))
              && |PartsFrom(path, c)| == 1 + |PartsFrom(path, AfterPart(path, c))|
  {
  }

  lemma AppendAssoc(parts: seq<Bytes>, p: Bytes, rest: seq<Bytes>)
    ensures parts + ([p] + rest) == parts + [p] + rest
  {
  }

  /** What that call does to a list under construction: parts grows by the part
    * found, and what was found and what is still to come stay the same text. */
  method ParseNext(k: Kernel, end: nat, lastPart: int, path: Bytes, cursor: nat, ghost s: Snapshot,
                   ghost blocks: seq<nat>, ghost drive: nat, ghost parts: seq<Bytes>)
    returns (part: int, next: nat, ghost blocks': seq<nat>, ghost parts': seq<Bytes>)
    requires k.Valid() && Parsed(k.heap.saddr, s, Now(k), blocks, drive, parts) && end == blocks[2 * |parts|]
    requires CString(path) && 0 < cursor <= |path| <= FREE95_MAX_PATH
    requires |k.FreeBlocks()| >= 2 * |PartsFrom(path, cursor)| + 1
    requires lastPart != 0 ==> lastPart == k.heap.Address(end)
    modifies k.heap, k.heap.entries, k.pool
    ensures k.Valid() && cursor <= next <= |path| && Parsed(k.heap.saddr, s, Now(k), blocks', drive, parts')
    ensures blocks'[0] == blocks[0]
    ensures part == 0 ==> parts' == parts && PartsFrom(path, cursor) == []
    ensures part != 0 ==>
              && cursor < next && parts' + PartsFrom(path, next) == parts + PartsFrom(path, cursor)
              && part == k.heap.Address(blocks'[2 * |parts'|])
              && |k.FreeBlocks()| >= 2 * |PartsFrom(path, next)| + 1
  {
    ghost var t := Now(k);
    ghost var buf, node;
    LastLive(k.pool[..], k.heap.saddr, blocks, drive, parts);
    PartsUnfold(path, cursor);
    part, next, buf, node := ParseNode(k, end, lastPart, path, cursor);
    blocks', parts' := blocks, parts;
    if part == 0 {
      ParsedProbe(k.heap.saddr, s, t, Now(k), blocks, drive, parts, buf);
    } else {
      ghost var text := path[cursor..PartEnd(path, cursor)];
      ParsedPart(k.heap.saddr, s, t, Now(k), blocks, drive, parts, end, text, buf, node);
      AppendAssoc(parts, text, PartsFrom(path, next));
      blocks', parts' := blocks + [buf] + [node], parts + [text];
    }
  }

  /** The part-parsing half of pathparser_parse. */
  method ParseParts(k: Kernel, root: nat, path: Bytes, ghost s: Snapshot, ghost drive: nat)
    returns (ghost blocks: seq<nat>)
    requires k.Valid() && Parsed(k.heap.saddr, s, Now(k), [root], drive, [])
    requires CString(path) && 3 <= |path| <= FREE95_MAX_PATH
    requires |k.FreeBlocks()| >= 2 * |PartsFrom(path, 3)| + 1
    modifies k.heap, k.heap.entries, k.pool
    ensures k.Valid() && Parsed(k.heap.saddr, s, Now(k), blocks, drive, PartsFrom(path, 3))
    ensures blocks[0] == root
  {
    var c := 3;
    ghost var all := PartsFrom(path, c);
    ghost var parts: seq<Bytes> := [];
    blocks := [root];
    assert [] + all == all;
    var part;
    part, c, blocks, parts := ParseNext(k, root, 0, path, c, s, blocks, drive, parts);
    while part != 0
      invariant 3 <= c <= |path| && k.Valid() && blocks != [] && blocks[0] == root
      invariant Parsed(k.heap.saddr, s, Now(k), blocks, drive, parts)
      invariant part == 0 ==> parts == all
      invariant part != 0 ==>
        && part == k.heap.Address(blocks[2 * |parts|]) && parts + PartsFrom(path, c) == all
        && |k.FreeBlocks()| >= 2 * |PartsFrom(path, c)| + 1
      decreases part != 0, |path| - c
    {
      part, c, blocks, parts :=
        ParseNext(k, (part - k.heap.saddr) / BLOCK_SIZE, part, path, c, s, blocks, drive, parts);
    }
  }

  /** pathparser_create_root */
  method CreateRoot(k: Kernel, drive: uint32) returns (root: int, ghost r: nat)
    requires k.Valid() && k.FreeBlocks() != {}
    modifies k.heap, k.heap.entries, k.pool
    ensures k.Valid() && |k.FreeBlocks()| == |old(k.FreeBlocks())| - 1
    ensures Parsed(k.heap.saddr, old(Now(k)), Now(k), [r], drive, [])
    ensures root == k.heap.Address(r) && root > 0
  {
    ghost var s := Now(k);
    root, r := TakeZeroedBlock(k, 8);
    ghost var t := Now(k);
    SetWords(k.pool, (root - k.heap.saddr) / BLOCK_SIZE, drive, 0);
    ghost var u := Now(k);
    SameElsewhereTrans(s.pool, t.pool, u.pool, [r], [r], [r]);
    TookOne(s, u, r);
  }

  /** pathparser_parse: NULL and nothing changed for a path that is not valid;
    * otherwise the list of its drive and parts, built from blocks that were free. */
  method Parse(k: Kernel, path: Bytes) returns (root: int, ghost blocks: seq<nat>)
    requires k.Valid() && CString(path)
    requires ValidPath(path) ==> |k.FreeBlocks()| >= 2 * |Parts(path)| + 2
    modifies k.heap, k.heap.entries, k.pool
    ensures k.Valid()
    ensures !ValidPath(path) ==> root == 0 && Now(k) == old(Now(k)) && k.heap.Entries() == old(k.heap.Entries())
    ensures ValidPath(path) ==>
              && Parsed(k.heap.saddr, old(Now(k)), Now(k), blocks, path[0] - 48, Parts(path))
              && root == k.heap.Address(blocks[0]) && root > 0
  {
    blocks := [];
    var len := StrLen(path);
    if len > FREE95_MAX_PATH {
      return 0, blocks;
    }
    len := StrNLen(path, FREE95_MAX_PATH);
    if !(len >= 3 && IsDigit(path[0]) && path[1] == COLON && path[2] == SLASH) {
      return 0, blocks;
    }
    ghost var s := Now(k);
    ghost var r;
    root, r := CreateRoot(k, path[0] - 48);
    var rootBlock := (root - k.heap.saddr) / BLOCK_SIZE;
    assert rootBlock == r;
    blocks := ParseParts(k, rootBlock, path, s, path[0] - 48);
  }

  // ----- freeing -----

  lemma LiveSlices(blocks: seq<nat>, i: nat)
    requires 2 * i + 2 < |blocks| && Distinct(blocks)
    ensures SetOf(blocks[1..2 * (i + 1) + 1]) == SetOf(blocks[1..2 * i + 1]) + {blocks[2 * i + 1]} + {blocks[2 * i + 2]}
    ensures blocks[2 * i + 1] !in blocks[1..2 * i + 1] && blocks[2 * i + 2] !in blocks[1..2 * i + 1]
  {
    assert blocks[1..2 * i + 3] == blocks[1..2 * i + 1] + [blocks[2 * i + 1]] + [blocks[2 * i + 2]];
  }

  /** The runs left when the blocks of i parts have been given back. */
  ghost predicate Left(was: Runs, blocks: seq<nat>, i: nat, runs: Runs) {
    2 * i + 1 <= |blocks| && runs == was - SetOf(blocks[1..2 * i + 1])
  }

  lemma NextPart(was: Runs, blocks: seq<nat>, i: nat, runs: Runs)
    requires 2 * i + 2 < |blocks| && Distinct(blocks) && forall b :: b in blocks ==> b in was
    requires Left(was, blocks, i, runs)
    ensures blocks[2 * i + 1] in runs && blocks[2 * i + 2] in runs
    ensures Left(was, blocks, i + 1, runs - {blocks[2 * i + 1]} - {blocks[2 * i + 2]})
  {
    LiveSlices(blocks, i);
  }

  lemma RootLast(was: Runs, blocks: seq<nat>, n: nat, runs: Runs)
    requires |blocks| == 2 * n + 1 && Distinct(blocks) && blocks[0] in was && Left(was, blocks, n, runs)
    ensures blocks[0] in runs && runs - {blocks[0]} == was - SetOf(blocks)
  {
    assert blocks[1..2 * n + 1] == blocks[1..] && blocks == [blocks[0]] + blocks[1..];
    assert SetOf(blocks) == SetOf(blocks[1..]) + {blocks[0]};
  }

  method FreePart(k: Kernel, part: int, ghost blocks: seq<nat>, ghost i: nat, ghost text: Bytes) returns (next: int)
    requires k.Valid() && PartAt(k.pool[..], k.heap.saddr, blocks, i, text)
    requires part == Link(k.heap.saddr, blocks, i)
    requires Distinct(blocks) && blocks[2 * i + 1] in k.heap.runs && blocks[2 * i + 2] in k.heap.runs
    modifies k.heap, k.heap.entries
    ensures k.Valid() && next == Link(k.heap.saddr, blocks, i + 1)
    ensures k.heap.runs == old(k.heap.runs) - {blocks[2 * i + 1]} - {blocks[2 * i + 2]}
  {
    next := Read32(k.pool, part - k.heap.saddr + 4);
    var text' := Read32(k.pool, part - k.heap.saddr);
    k.KFree(text', blocks[2 * i + 1]);
    k.KFree(part, blocks[2 * i + 2]);
  }

  lemma LastLink(saddr: nat, blocks: seq<nat>, i: nat, n: nat)
    requires saddr > 0 && Link(saddr, blocks, i) == 0 && |blocks| == 2 * n + 1 && i <= n
    ensures i == n
  {
  }

  /** The loop of pathparser_free. */
  method FreeParts(k: Kernel, first: int, ghost blocks: seq<nat>, ghost drive: nat, ghost parts: seq<Bytes>)
    requires k.Valid() && ListAt(k.pool[..], k.heap.saddr, blocks, drive, parts)
    requires first == Link(k.heap.saddr, blocks, 0)
    requires Distinct(blocks) && forall b :: b in blocks ==> b in k.heap.runs
    modifies k.heap, k.heap.entries
    ensures k.Valid() && Left(old(k.heap.runs), blocks, |parts|, k.heap.runs)
  {
    var part := first;
    ghost var i, was := 0, k.heap.runs;
    while part != 0
      invariant i <= |parts| && part == Link(k.heap.saddr, blocks, i)
      invariant k.Valid() && Left(was, blocks, i, k.heap.runs)
      decreases |parts| - i
    {
      NextPart(was, blocks, i, k.heap.runs);
      part := FreePart(k, part, blocks, i, parts[i]);
      i := i + 1;
    }
    LastLink(k.heap.saddr, blocks, i, |parts|);
  }

  /** pathparser_free: every block of the list, exactly once. */
  method Free(k: Kernel, root: int, ghost blocks: seq<nat>, ghost drive: nat, ghost parts: seq<Bytes>)
    requires k.Valid() && ListAt(k.pool[..], k.heap.saddr, blocks, drive, parts)
    requires root == k.heap.Address(blocks[0])
    requires Distinct(blocks) && forall b :: b in blocks ==> b in k.heap.runs
    modifies k.heap, k.heap.entries
    ensures k.Valid() && k.heap.runs == old(k.heap.runs) - SetOf(blocks)
  {
    ghost var was := k.heap.runs;
    var part := Read32(k.pool, root - k.heap.saddr + 4);
    FreeParts(k, part, blocks, drive, parts);
    RootLast(was, blocks, |parts|, k.heap.runs);
    k.KFree(root, blocks[0]);
  }

  /** Path parsing leaks nothing: parsing and freeing leaves the block table byte
    * for byte as it was, and no live block has had a byte changed. */
  method ParseThenFree(k: Kernel, path: Bytes)
    requires k.Valid() && CString(path)
    requires ValidPath(path) ==> |k.FreeBlocks()| >= 2 * |Parts(path)| + 2
    modifies k.heap, k.heap.entries, k.pool
    ensures k.Valid() && k.heap.runs == old(k.heap.runs)
    ensures k.heap.Entries() == old(k.heap.Entries())
    ensures SameLive(old(Now(k)), Now(k))
  {
    var root;
    ghost var blocks;
    root, blocks := Parse(k, path);
    if root != 0 {
      ghost var parsed := Now(k);
      Free(k, root, blocks, path[0] - 48, Parts(path));
      TookReturned(old(Now(k)), parsed, blocks, k.heap.runs, old(k.heap.Entries()), k.heap.Entries());
    }
  }
}
