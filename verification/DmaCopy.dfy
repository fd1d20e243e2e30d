/** Memory-to-memory copies on the DesignWare DMA engine: the driver builds a chain of block descriptors,
    and executing the chain amounts to a plain copy. */
module DmaCopy {
  import opened Common


  /** sizeof(struct dw_lli). */
  const LLI_BYTES := 28

  type Byte = x: int | 0 <= x < 256

  /** A block descriptor. `linked` stands for the two LLP enable bits of the control word; `count` is in items. */
  datatype Lli = Lli(sar: int, dar: int, llp: int, width: int, count: int, linked: bool)

  /** The bytes of an item: `1 << width`. */
  function ItemBytes(width: int): (w: nat)
    ensures w == 1 || w == 2 || w == 4
  {
    if width == 0 then 1 else if width == 1 then 2 else 4
  }

  // ----- the engine -----

  /** `n` bytes of memory copied, all at once. */
  function Copy(mem: seq<Byte>, src: int, dst: int, n: int): seq<Byte>
    requires 0 <= n && 0 <= src && src + n <= |mem| && 0 <= dst && dst + n <= |mem|
  {
    seq(|mem|, x requires 0 <= x < |mem| => if dst <= x < dst + n then mem[src + (x - dst)] else mem[x])
  }

  /** A block: `count` items of `w` bytes, one after the other. */
  function CopyItems(mem: seq<Byte>, src: int, dst: int, w: nat, count: int): seq<Byte>
    decreases count
  {
    if count <= 0 || src < 0 || dst < 0 || src + w > |mem| || dst + w > |mem| then mem
    else CopyItems(Copy(mem, src, dst, w), src + w, dst + w, w, count - 1)
  }

  function Transfer(mem: seq<Byte>, blocks: seq<Lli>): seq<Byte>
    decreases blocks
  {
    if blocks == [] then mem
    else Transfer(CopyItems(mem, blocks[0].sar, blocks[0].dar, ItemBytes(blocks[0].width), blocks[0].count), blocks[1..])
  }

  /** The descriptors the engine runs when started at address `a` of a table at `base`: a chain ends with
      a descriptor that is not linked or has no successor. */
  ghost predicate Visits(table: seq<Lli>, base: int, a: int, blocks: seq<Lli>)
    decreases blocks
  {
    && blocks != [] && InTable(table, base, a) && At(table, base, a) == blocks[0]
    && if blocks[0].linked && blocks[0].llp != 0 then Visits(table, base, blocks[0].llp, blocks[1..]) else |blocks| == 1
  }

  predicate InTable(table: seq<Lli>, base: int, a: int) {
    base <= a && (a - base) % LLI_BYTES == 0 && (a - base) / LLI_BYTES < |table|
  }

  function At(table: seq<Lli>, base: int, a: int): Lli
    requires InTable(table, base, a)
  {
    table[(a - base) / LLI_BYTES]
  }

  /** A chain determines what the engine runs. */
  lemma {:induction false} VisitsUnique(table: seq<Lli>, base: int, a: int, b1: seq<Lli>, b2: seq<Lli>)
    requires Visits(table, base, a, b1) && Visits(table, base, a, b2)
    ensures b1 == b2
    decreases b1
  {
    if b1[0].linked && b1[0].llp != 0 {
      VisitsUnique(table, base, b1[0].llp, b1[1..], b2[1..]);
    }
    assert b1 == [b1[0]] + b1[1..] && b2 == [b2[0]] + b2[1..];
  }

  // ----- copies in pieces -----

  ghost predicate Apart(src: int, dst: int, n: int) {
    src + n <= dst || dst + n <= src
  }

  lemma CopyParts(mem: seq<Byte>, src: int, dst: int, a: int, b: int)
    requires 0 <= a && 0 <= b && 0 <= src && src + a + b <= |mem| && 0 <= dst && dst + a + b <= |mem| && Apart(src, dst, a + b)
    ensures Copy(Copy(mem, src, dst, a), src + a, dst + a, b) == Copy(mem, src, dst, a + b)
  {
    var m1 := Copy(mem, src, dst, a);
    var m2 := Copy(m1, src + a, dst + a, b);
    forall x | 0 <= x < |mem| ensures m2[x] == Copy(mem, src, dst, a + b)[x] {
      if dst + a <= x < dst + a + b {
        assert m1[src + (x - dst)] == mem[src + (x - dst)];
      }
    }
  }

  lemma {:induction false} ItemsCopy(mem: seq<Byte>, src: int, dst: int, w: nat, count: nat, n: nat)
    requires n == w * count && 0 <= src && src + n <= |mem| && 0 <= dst && dst + n <= |mem| && Apart(src, dst, n)
    ensures CopyItems(mem, src, dst, w, count) == Copy(mem, src, dst, n)
    decreases count
  {
    if count == 0 {
      assert Copy(mem, src, dst, 0) == mem;
    } else {
      OneLess(w, count);
      var rest := n - w;
      CopyParts(mem, src, dst, w, rest);
      FirstItem(mem, src, dst, w, count);
      ItemsCopy(Copy(mem, src, dst, w), src + w, dst + w, w, count - 1, rest);
    }
  }

  lemma FirstItem(mem: seq<Byte>, src: int, dst: int, w: nat, count: nat)
    requires 0 < count && 0 <= src && src + w <= |mem| && 0 <= dst && dst + w <= |mem|
    ensures CopyItems(mem, src, dst, w, count) == CopyItems(Copy(mem, src, dst, w), src + w, dst + w, w, count - 1)
    ensures |Copy(mem, src, dst, w)| == |mem|
  {
  }

  lemma OneLess(w: nat, count: nat)
    requires 0 < count
    ensures 0 <= w * (count - 1) == w * count - w
  {
  }

  // ----- the chain -----

  /** How many descriptors a transfer needs, as computed by `cal_lli_size`. */
  function LliSize(len: nat, max: nat): (n: nat)
    requires 0 < max
    ensures (n == 0 <==> len == 0) && (n > 0 ==> (n - 1) * max < len <= n * max)
  {
    var q, r := len / max, len % max;
    assert len == q * max + r;
    q + if r != 0 then 1 else 0
  }

  /** The items of block `i`. */
  function Count(len: int, max: int, i: int): int {
    if len - i * max < max then len - i * max else max
  }

  /** Descriptor `i` of `n` leads to the next one. */
  ghost predicate IsLink(d: Lli, base: int, first: int, n: int, i: int) {
    d.linked == (i + 1 < n) && d.llp == if i + 1 < n then base + (first + i + 1) * LLI_BYTES else 0
  }

  /** A block of `count` items at the offset `done`. */
  ghost predicate IsBlock(d: Lli, src: int, dst: int, width: int, done: int, count: int) {
    d.sar == src + done && d.dar == dst + done && d.width == width && d.count == count
  }

  ghost predicate Links(blocks: seq<Lli>, base: int, first: int) {
    forall i :: 0 <= i < |blocks| ==> IsLink(blocks[i], base, first, |blocks|, i)
  }

  ghost predicate Blocks(blocks: seq<Lli>, src: int, dst: int, width: int, len: int, max: int) {
    forall i :: 0 <= i < |blocks| ==> IsBlock(blocks[i], src, dst, width, i * max * ItemBytes(width), Count(len, max, i))
  }

  /** The engine visits exactly the blocks of the chain, in order. */
  lemma {:induction false} ChainVisits(table: seq<Lli>, base: int, first: int, blocks: seq<Lli>, i: int)
    requires 0 < base && 0 <= first && first + |blocks| <= |table| && table[first..first + |blocks|] == blocks
    requires Links(blocks, base, first) && 0 <= i < |blocks|
    ensures Visits(table, base, base + (first + i) * LLI_BYTES, blocks[i..])
    decreases |blocks| - i
  {
    var a := base + (first + i) * LLI_BYTES;
    assert (a - base) / LLI_BYTES == first + i && (a - base) % LLI_BYTES == 0;
    assert table[first + i] == table[first..first + |blocks|][i] == blocks[i];
    assert IsLink(blocks[i], base, first, |blocks|, i);
    if i + 1 < |blocks| {
      ChainVisits(table, base, first, blocks, i + 1);
      assert blocks[i..][1..] == blocks[i + 1..];
    }
  }

  /** Executing the blocks from number `i` on copies the rest of the buffer. */
  lemma {:induction false} ChainCopies(mem: seq<Byte>, blocks: seq<Lli>, i: int, src: int, dst: int, width: int,
                                       len: nat, max: nat, done: nat, bytes: nat)
    requires 0 < max && |blocks| == LliSize(len, max) && Blocks(blocks, src, dst, width, len, max) && 0 <= i < |blocks|
    requires done == i * max * ItemBytes(width) && bytes == len * ItemBytes(width) && done <= bytes
    requires 0 <= src && src + bytes <= |mem| && 0 <= dst && dst + bytes <= |mem| && Apart(src, dst, bytes)
    ensures Transfer(mem, blocks[i..]) == Copy(mem, src + done, dst + done, bytes - done)
    decreases |blocks| - i
  {
    var w, c := ItemBytes(width), Count(len, max, i);
    var k := w * c;
    BlockBounds(len, max, i, w, done, bytes, k);
    var m1 := Copy(mem, src + done, dst + done, k);
    assert Transfer(mem, blocks[i..]) == Transfer(m1, blocks[i + 1..]) by {
      assert IsBlock(blocks[i], src, dst, width, done, c);
      ItemsCopy(mem, src + done, dst + done, w, c, k);
      assert blocks[i..][0] == blocks[i] && blocks[i..][1..] == blocks[i + 1..];
    }
    if i + 1 < |blocks| {
      ChainCopies(m1, blocks, i + 1, src, dst, width, len, max, done + k, bytes);
      CopyRest(mem, src, dst, done, k, bytes);
    } else {
      assert blocks[i + 1..] == [];
    }
  }

  lemma CopyRest(mem: seq<Byte>, src: int, dst: int, done: nat, k: nat, bytes: nat)
    requires 0 <= src && src + bytes <= |mem| && 0 <= dst && dst + bytes <= |mem| && Apart(src, dst, bytes) && done + k <= bytes
    ensures Copy(Copy(mem, src + done, dst + done, k), src + (done + k), dst + (done + k), bytes - (done + k)) ==
            Copy(mem, src + done, dst + done, bytes - done)
  {
    CopyParts(mem, src + done, dst + done, k, bytes - done - k);
  }

  /** The offset and length of block `i`, in bytes. */
  lemma BlockBounds(len: nat, max: nat, i: int, w: nat, done: int, bytes: int, k: int)
    requires 0 < max && 0 <= i < LliSize(len, max)
    requires done == i * max * w && bytes == len * w && k == w * Count(len, max, i)
    ensures 0 < Count(len, max, i) <= max
    ensures 0 <= k && 0 <= done && done + k <= bytes
    ensures i + 1 < LliSize(len, max) ==> Count(len, max, i) == max && (i + 1) * max * w == done + k
    ensures i + 1 == LliSize(len, max) ==> done + k == bytes
  {
    var n, c := LliSize(len, max), Count(len, max, i);
    Monotone(i, n - 1, max);
    assert (i + 1) * max == i * max + max;
    if i + 1 < n {
      Monotone(i + 1, n - 1, max);
    }
    Monotone(0, i, max);
    Monotone(0, i * max, w);
    Monotone(0, c, w);
    Monotone(i * max + c, len, w);
    assert (i * max + c) * w == done + k;
  }

  lemma Monotone(a: int, b: int, k: nat)
    requires a <= b
    ensures a * k <= b * k
  {
  }

  /** The items of all blocks. */
  function Items(blocks: seq<Lli>): int {
    if blocks == [] then 0 else blocks[0].count + Items(blocks[1..])
  }

  lemma {:induction false} ItemsTotal(blocks: seq<Lli>, i: int, src: int, dst: int, width: int, len: nat, max: nat)
    requires 0 < max && |blocks| == LliSize(len, max) && Blocks(blocks, src, dst, width, len, max) && 0 <= i < |blocks|
    ensures Items(blocks[i..]) == len - i * max
    decreases |blocks| - i
  {
    var c, done := Count(len, max, i), i * max;
    assert blocks[i].count == c by { assert IsBlock(blocks[i], src, dst, width, done * ItemBytes(width), c); }
    BlockBounds(len, max, i, 1, done, len, c);
    assert blocks[i..][1..] == blocks[i + 1..];
    if i + 1 < |blocks| {
      ItemsTotal(blocks, i + 1, src, dst, width, len, max);
    } else {
      assert blocks[i + 1..] == [];
    }
  }

  /** Every block is within the limit, and aligned to the width of its items. */
  ghost predicate Sound(blocks: seq<Lli>, max: int) {
    forall i :: 0 <= i < |blocks| ==>
      && 0 < blocks[i].count <= max
      && blocks[i].sar % ItemBytes(blocks[i].width) == 0 && blocks[i].dar % ItemBytes(blocks[i].width) == 0
  }

  lemma BlocksSound(blocks: seq<Lli>, src: int, dst: int, width: int, len: nat, max: nat)
    requires 0 < max && |blocks| == LliSize(len, max) && Blocks(blocks, src, dst, width, len, max)
    requires src % ItemBytes(width) == 0 && dst % ItemBytes(width) == 0
    ensures Sound(blocks, max)
  {
    forall i | 0 <= i < |blocks|
      ensures 0 < blocks[i].count <= max
      ensures blocks[i].sar % ItemBytes(blocks[i].width) == 0 && blocks[i].dar % ItemBytes(blocks[i].width) == 0
    {
      var w := ItemBytes(width);
      assert IsBlock(blocks[i], src, dst, width, i * max * w, Count(len, max, i));
      BlockBounds(len, max, i, w, i * max * w, len * w, w * Count(len, max, i));
      StillAligned(src, i * max, w);
      StillAligned(dst, i * max, w);
    }
  }

  lemma StillAligned(a: int, q: int, w: nat)
    requires (w == 1 || w == 2 || w == 4) && a % w == 0
    ensures (a + q * w) % w == 0
  {
  }

  /** The width `dma_mem_to_mem` picks. */
  function Width(src: nat, dst: nat, cnt: nat): (width: int)
    ensures var w := ItemBytes(width); src % w == 0 && dst % w == 0 && cnt % w == 0
    ensures forall w :: (w == 2 || w == 4) && src % w == 0 && dst % w == 0 && cnt % w == 0 ==> w <= ItemBytes(width)
  {
    if src % 4 == 0 && dst % 4 == 0 && cnt % 4 == 0 then 2
    else if src % 2 == 0 && dst % 2 == 0 && cnt % 2 == 0 then 1
    else 0
  }

  /** The items `dma_mem_to_mem` asks for. */
  function Length(cnt: nat, width: int): (len: nat)
    requires cnt % ItemBytes(width) == 0
    ensures len * ItemBytes(width) == cnt && (len == 0 <==> cnt == 0)
  {
    cnt / ItemBytes(width)
  }

  /** A chain of blocks for a copy of `cnt` bytes does just that, in any memory where the buffers do not overlap. */
  ghost predicate Copies(blocks: seq<Lli>, src: nat, dst: nat, cnt: nat) {
    forall mem: seq<Byte> {:trigger Transfer(mem, blocks)} ::
      src + cnt <= |mem| && dst + cnt <= |mem| && Apart(src, dst, cnt) ==> Transfer(mem, blocks) == Copy(mem, src, dst, cnt)
  }

  lemma BlocksCopy(blocks: seq<Lli>, src: nat, dst: nat, width: int, len: nat, max: nat, cnt: nat)
    requires 0 < max && 0 < len && |blocks| == LliSize(len, max) && Blocks(blocks, src, dst, width, len, max)
    requires cnt == len * ItemBytes(width)
    ensures Copies(blocks, src, dst, cnt)
  {
    forall mem: seq<Byte> | src + cnt <= |mem| && dst + cnt <= |mem| && Apart(src, dst, cnt)
      ensures Transfer(mem, blocks) == Copy(mem, src, dst, cnt)
    {
      ChainCopies(mem, blocks, 0, src, dst, width, len, max, 0, cnt);
      assert blocks[0..] == blocks;
    }
  }

  /** What the chain for a copy of `cnt` bytes amounts to. */
  lemma ChainWorks(table: seq<Lli>, base: int, first: int, blocks: seq<Lli>, src: nat, dst: nat, width: int, len: nat, max: nat, cnt: nat)
    requires 0 < base && 0 <= first && first + |blocks| <= |table| && table[first..first + |blocks|] == blocks && Links(blocks, base, first)
    requires 0 < max && 0 < len && |blocks| == LliSize(len, max) && Blocks(blocks, src, dst, width, len, max)
    requires cnt == len * ItemBytes(width) && src % ItemBytes(width) == 0 && dst % ItemBytes(width) == 0
    ensures Visits(table, base, base + first * LLI_BYTES, blocks) && Copies(blocks, src, dst, cnt)
    ensures Sound(blocks, max) && Items(blocks) == len
  {
    ChainVisits(table, base, first, blocks, 0);
    BlocksCopy(blocks, src, dst, width, len, max, cnt);
    BlocksSound(blocks, src, dst, width, len, max);
    ItemsTotal(blocks, 0, src, dst, width, len, max);
    assert blocks[0..] == blocks;
  }

  /** The code's choice of the next block size. */
  lemma NextCount(len: nat, max: nat, i: nat, left: int)
    requires 0 < max && left == len - i * max && 0 <= left
    ensures (if left / max != 0 then max else left % max) == Count(len, max, i)
  {
    if left < max {
      assert left / max == 0 && left % max == left;
    } else {
      assert left / max >= 1;
    }
  }

  /** The items not yet given to a block. */
  function Remaining(len: nat, max: nat, n: nat, i: nat): int {
    if i < n then len - i * max else 0
  }

  /** The first descriptors of a chain of `n`. */
  ghost predicate Built(out: seq<Lli>, base: int, first: int, n: int, src: int, dst: int, width: int, len: int, max: int) {
    forall i :: 0 <= i < |out| ==>
      && IsLink(out[i], base, first, n, i)
      && IsBlock(out[i], src, dst, width, i * max * ItemBytes(width), Count(len, max, i))
  }

  lemma BuiltNext(out: seq<Lli>, d: Lli, base: int, first: int, n: int, src: int, dst: int, width: int, len: int, max: int)
    requires Built(out, base, first, n, src, dst, width, len, max)
    requires IsLink(d, base, first, n, |out|) && IsBlock(d, src, dst, width, |out| * max * ItemBytes(width), Count(len, max, |out|))
    ensures Built(out + [d], base, first, n, src, dst, width, len, max)
  {
  }

  /** What the code writes for block `i`; nothing wraps around. */
  lemma NextBlock(base: int, first: int, n: nat, i: nat, src: nat, dst: nat, width: int, len: nat, max: nat, left: int)
    requires 0 < max && i < n == LliSize(len, max) && left == Remaining(len, max, n, i)
    requires src + len * ItemBytes(width) <= WORDS && dst + len * ItemBytes(width) <= WORDS
    ensures var size := if left / max != 0 then max else left % max;
            var offset := i * max * ItemBytes(width);
            && 0 <= left - size == Remaining(len, max, n, i + 1) && (left - size > 0 <==> i + 1 < n)
            && size == Count(len, max, i) && (src + offset) % WORDS == src + offset && (dst + offset) % WORDS == dst + offset
  {
    NextSize(len, max, n, i, left);
    var offset := i * max * ItemBytes(width);
    assert 0 <= offset < len * ItemBytes(width) by { NoWrap(len, max, i, ItemBytes(width)); }
  }

  lemma NoWrap(len: nat, max: nat, i: nat, w: nat)
    requires 0 < max && i < LliSize(len, max) && 0 < w
    ensures 0 <= i * max * w < len * w
  {
    var k := w * Count(len, max, i);
    BlockBounds(len, max, i, w, i * max * w, len * w, k);
    Monotone(1, Count(len, max, i), w);
    assert 0 < k;
  }

  lemma NextSize(len: nat, max: nat, n: nat, i: nat, left: int)
    requires 0 < max && i < n == LliSize(len, max) && left == Remaining(len, max, n, i)
    ensures var size := if left / max != 0 then max else left % max;
            0 <= left - size == Remaining(len, max, n, i + 1) && (left - size > 0 <==> i + 1 < n) && size == Count(len, max, i)
  {
    var c := Count(len, max, i);
    BlockBounds(len, max, i, 1, i * max, len, c);
    assert 0 <= left;
    NextCount(len, max, i, left);
    assert (i + 1) * max == i * max + max;
    if i + 1 < n {
      var c' := Count(len, max, i + 1);
      BlockBounds(len, max, i + 1, 1, (i + 1) * max, len, c');
    }
  }

  const NONE := -1

  /** Neither the end of the table nor its start has `size` free descriptors in a row. */
  predicate NoRoom(total: nat, freeIndex: nat, left: nat, size: nat) {
    left < size || (size > total - freeIndex && size > left - (total - freeIndex))
  }

  /** The descriptors counted as taken: the skipped end of the table and those given out. As the source has it, a request
      that fits before the end is not counted at all. */
  function Taken(total: nat, freeIndex: nat, size: nat): int {
    if size > total - freeIndex then total - freeIndex + size else 0
  }

  /** The most items a block may have; a period length limits it further. */
  function Limit(period: nat, transSize: nat): (max: nat)
    requires 0 < transSize
    ensures 0 < max <= transSize && (period != 0 ==> max <= period)
  {
    if period != 0 && period < transSize then period else transSize
  }

  class Channel {
    /** The address of the descriptor table. */
    const base: nat
    const lli: array<Lli>
    /** desc_trans_size: the most items a block may have. */
    const transSize: nat
    var freeIndex: nat
    var left: nat

    ghost predicate Valid()
      reads this
    {
      && 0 < base && base + lli.Length * LLI_BYTES <= WORDS && 0 < transSize
      && freeIndex < lli.Length && left <= lli.Length
    }

    /** `get_desc`: `size` descriptors in a row, from the free index or else from the start of the table. */
    method GetDesc(size: nat) returns (first: int)
      requires Valid()
      modifies this`freeIndex, this`left
      ensures Valid()
      ensures first == NONE <==> NoRoom(lli.Length, old(freeIndex), old(left), size)
      ensures first == NONE ==> freeIndex == old(freeIndex) && left == old(left)
      ensures first != NONE ==> 0 <= first && first + size <= lli.Length && first == if size > lli.Length - old(freeIndex) then 0 else old(freeIndex)
      ensures first != NONE ==> var taken := Taken(lli.Length, old(freeIndex), size);
        freeIndex == (old(freeIndex) + taken) % lli.Length && left == old(left) - taken
    {
      var alignLeft := lli.Length - freeIndex;
      var actual := 0;
      if left < size {
        return NONE;
      }
      first := freeIndex;
      if size > alignLeft {
        if left - alignLeft < size {
          return NONE;
        }
        actual := alignLeft + size;
        first := 0;
      }
      freeIndex := (freeIndex + actual) % lli.Length;
      left := left - actual;
    }

    /** The descriptor loop of `handle_single_transfer`, for increasing addresses on both sides. */
    method BuildChain(first: nat, src: nat, dst: nat, width: int, len: nat, max: nat)
      requires Valid() && 0 < max && first + LliSize(len, max) <= lli.Length
      requires src + len * ItemBytes(width) <= WORDS && dst + len * ItemBytes(width) <= WORDS
      modifies lli
      ensures var n := LliSize(len, max);
              && Links(lli[first..first + n], base, first) && Blocks(lli[first..first + n], src, dst, width, len, max)
              && lli[..first] == old(lli[..first]) && lli[first + n..] == old(lli[first + n..])
    {
      var n := LliSize(len, max);
      var left := len;
      ghost var out := [];
      for i := 0 to n
        invariant left == Remaining(len, max, n, i) && |out| == i && Built(out, base, first, n, src, dst, width, len, max)
        invariant lli[..] == old(lli[..first]) + out + old(lli[first + i..])
      {
        NextBlock(base, first, n, i, src, dst, width, len, max, left);
        var size := if left / max != 0 then max else left % max;
        left := left - size;
        var offset := i * max * ItemBytes(width);
        var d := Lli((src + offset) % WORDS, (dst + offset) % WORDS, if left > 0 then base + (first + i + 1) * LLI_BYTES else 0,
                     width, size, left > 0);
        lli[first + i] := d;
        BuiltNext(out, d, base, first, n, src, dst, width, len, max);
        out := out + [d];
      }
      assert lli[first..first + n] == out;
    }

    /** `dma_mem_to_mem` up to the start of the engine at address `a`. */
    method MemToMem(src: nat, dst: nat, cnt: nat, period: nat) returns (a: int, ghost blocks: seq<Lli>)
      requires Valid() && src + cnt <= WORDS && dst + cnt <= WORDS
      modifies this`freeIndex, this`left, lli
      ensures Valid()
      ensures a != NONE && cnt > 0 ==> Visits(lli[..], base, a, blocks) && Copies(blocks, src, dst, cnt)
      ensures a != NONE && cnt > 0 ==> Sound(blocks, transSize) && Items(blocks) * ItemBytes(Width(src, dst, cnt)) == cnt
      ensures a == NONE <==>
        NoRoom(lli.Length, old(freeIndex), old(left), LliSize(Length(cnt, Width(src, dst, cnt)), Limit(period, transSize)))
      ensures cnt == 0 ==> lli[..] == old(lli[..]) && a == base + old(freeIndex) * LLI_BYTES
    {
      var width := Width(src, dst, cnt);
      var len := Length(cnt, width);
      var max := Limit(period, transSize);
      var n := LliSize(len, max);
      var first := GetDesc(n);
      blocks := [];
      if first == NONE {
        return NONE, [];
      }
      BuildChain(first, src, dst, width, len, max);
      a := base + first * LLI_BYTES;
      if cnt > 0 {
        blocks := lli[first..first + n];
        ChainWorks(lli[..], base, first, blocks, src, dst, width, len, max, cnt);
      }
    }
  }
}
