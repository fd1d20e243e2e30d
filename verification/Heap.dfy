/** The private heap of the finsh shell: an address-ordered first-fit allocator
    whose block headers live inside the arena they describe. */
module FinshHeap {
  import opened Common
  import opened HeapLayout

  /** A pointer is the offset of a header or datum in the arena; like the C null
      pointer, NULL compares below every block. */
  const NULL := -1

  /** An entry of the shell's variable table: whether its type is known, and its pointer value. */
  datatype Variable = Variable(typed: bool, ptr: int)

  /** A header is an 8-aligned offset with room for its length and `next` words. */
  ghost predicate IsHeader(m: seq<int>, a: int) {
    0 <= a && a + HEADER <= |m| && a % 8 == 0
  }

  /** The `next` word of the header at `a`. */
  function Next(m: seq<int>, a: int): int {
    if 0 <= a && a + 4 < |m| then m[a + 4] else NULL
  }

  /** Is `x` the offset of one of the two words of the header at `a`? */
  predicate InHeader(x: int, a: int) { x == a || x == a + 4 }

  /** Following `next` words from `head` visits exactly `s` and then reaches `last`. */
  ghost predicate Chain(m: seq<int>, head: int, s: seq<int>, last: int) {
    && head == (if s == [] then last else s[0])
    && (forall i :: 0 <= i < |s| ==> IsHeader(m, s[i]))
    && (forall i {:trigger Next(m, s[i])} :: 0 <= i < |s| ==>
          Next(m, s[i]) == if i + 1 < |s| then s[i + 1] else last)
  }

  ghost predicate HasHeader(m: seq<int>, t: Tile) { IsHeader(m, t.addr) && m[t.addr] == t.len }

  /** The length word of every tile's header is in place. */
  ghost predicate Headers(m: seq<int>, ts: seq<Tile>) {
    forall i :: 0 <= i < |ts| ==> HasHeader(m, ts[i])
  }

  lemma ChainInsert(m: seq<int>, list: int, s: seq<int>, k: int, h: int, m': seq<int>)
    requires Chain(m, list, s, NULL) && Sorted(s) && IsHeader(m, h) && h !in s && 0 <= k <= |s|
    requires |m'| == |m| && Next(m', h) == if k < |s| then s[k] else Next(m, h)
    requires k > 0 ==> Next(m', s[k - 1]) == h
    requires forall i {:trigger Next(m', s[i])} :: 0 <= i < |s| && i != k - 1 ==> Next(m', s[i]) == Next(m, s[i])
    ensures Chain(m', if k == 0 then h else list, s[..k] + [h] + s[k..], if k == |s| then Next(m, h) else NULL)
  {
    var r := s[..k] + [h] + s[k..];
    forall i | 0 <= i < |r|
      ensures IsHeader(m', r[i]) && Next(m', r[i]) == if i + 1 < |r| then r[i + 1] else if k == |s| then Next(m, h) else NULL
    {
      if i < k {
        assert r[i] == s[i];
      } else if i > k {
        assert r[i] == s[i - 1];
      }
    }
  }

  /** Only the `next` words of `h` and of the block before position `k` were written. */
  lemma OthersNext(m: seq<int>, m': seq<int>, s: seq<int>, k: int, h: int)
    requires |m'| == |m| && Sorted(s) && h !in s && 0 <= k <= |s| && forall i :: 0 <= i < |s| ==> IsHeader(m, s[i])
    requires forall x :: 0 <= x < |m| && x != h + 4 && (k == 0 || x != s[k - 1] + 4) ==> m'[x] == m[x]
    ensures forall i {:trigger Next(m', s[i])} :: 0 <= i < |s| && i != k - 1 ==> Next(m', s[i]) == Next(m, s[i])
  {
  }

  lemma ChainRemove(m: seq<int>, list: int, s: seq<int>, k: int, m': seq<int>)
    requires Chain(m, list, s, NULL) && Sorted(s) && 0 <= k < |s|
    requires |m'| == |m|
    requires k > 0 ==> Next(m', s[k - 1]) == Next(m, s[k])
    requires forall i {:trigger Next(m', s[i])} :: 0 <= i < |s| && i != k - 1 && i != k ==> Next(m', s[i]) == Next(m, s[i])
    ensures Chain(m', if k == 0 then Next(m, s[0]) else list, s[..k] + s[k + 1..], NULL)
  {
    var r := s[..k] + s[k + 1..];
    forall i | 0 <= i < |r|
      ensures IsHeader(m', r[i]) && Next(m', r[i]) == if i + 1 < |r| then r[i + 1] else NULL
    {
      if i < k {
        assert r[i] == s[i];
      } else {
        assert r[i] == s[i + 1];
      }
    }
  }

  ghost predicate SameBut(m: seq<int>, m': seq<int>, a: int, b: int) {
    |m'| == |m| && forall x :: 0 <= x < |m| && !InHeader(x, a) && !InHeader(x, b) ==> m'[x] == m[x]
  }

  /** Only the `next` words of the block `h` and of the blocks in `s` may differ. */
  ghost predicate OnlyNexts(m: seq<int>, m': seq<int>, h: int, s: seq<int>) {
    |m'| == |m| && forall x :: 0 <= x < |m| && x - 4 != h && x - 4 !in s ==> m'[x] == m[x]
  }

  /** A list is intact when the `next` words of no block on it change. */
  lemma OtherChain(m: seq<int>, m': seq<int>, h: int, s: seq<int>, list: int, r: seq<int>)
    requires OnlyNexts(m, m', h, s) && Chain(m, list, r, NULL) && h !in r && forall i :: 0 <= i < |r| ==> r[i] !in s
    ensures Chain(m', list, r, NULL)
  {
    forall i | 0 <= i < |r| ensures IsHeader(m', r[i]) && Next(m', r[i]) == Next(m, r[i]) {
      assert IsHeader(m, r[i]);
    }
  }

  lemma ChainFrame(m: seq<int>, m': seq<int>, list: int, s: seq<int>, a: int, b: int)
    requires Chain(m, list, s, NULL) && SameBut(m, m', a, b)
    requires IsHeader(m, a) && IsHeader(m, b) && a !in s && b !in s
    ensures Chain(m', list, s, NULL)
  {
    forall i | 0 <= i < |s| ensures IsHeader(m', s[i]) && Next(m', s[i]) == Next(m, s[i]) {
      assert IsHeader(m, s[i]);
    }
  }

  /** Length words are never `next` words. */
  lemma HeadersFrame(m: seq<int>, m': seq<int>, ts: seq<Tile>, h: int, s: seq<int>)
    requires Headers(m, ts) && OnlyNexts(m, m', h, s) && IsHeader(m, h) && forall i :: 0 <= i < |s| ==> IsHeader(m, s[i])
    ensures Headers(m', ts)
  {
    forall i | 0 <= i < |ts| ensures m'[ts[i].addr] == m[ts[i].addr] {
      assert ts[i].addr - 4 !in s;
    }
  }

  /** The data bytes of the block `t` are the same in both memories. */
  ghost predicate SameData(m: seq<int>, m': seq<int>, t: Tile) {
    |m'| == |m| && forall x :: t.addr + HEADER <= x < t.End() && 0 <= x < |m| ==> m'[x] == m[x]
  }

  ghost predicate SameDatas(m: seq<int>, m': seq<int>, ts: seq<Tile>) {
    forall p :: 0 <= p < |ts| ==> SameData(m, m', ts[p])
  }

  /** Relinking blocks leaves the data of all blocks alone. */
  lemma RelinkKeepsData(m: seq<int>, m': seq<int>, ts: seq<Tile>, i: int, u: seq<int>)
    requires Laid(ts, 0) && 0 <= i < |ts| && OnlyNexts(m, m', ts[i].addr, u)
    requires forall x :: x in u ==> x in Addrs(ts, false) || x in Addrs(ts, true)
    ensures SameDatas(m, m', ts)
  {
    AddrsMember(ts, ts[i].free, ts[i].addr);
    forall p | 0 <= p < |ts| ensures SameData(m, m', ts[p]) {
      RelinkKeepsTile(m, m', ts, ts[i].addr, u, p);
    }
  }

  lemma RelinkKeepsTile(m: seq<int>, m': seq<int>, ts: seq<Tile>, h: int, u: seq<int>, p: int)
    requires Laid(ts, 0) && OnlyNexts(m, m', h, u) && 0 <= p < |ts|
    requires forall x :: x in u || x == h ==> x in Addrs(ts, false) || x in Addrs(ts, true)
    ensures SameData(m, m', ts[p])
  {
    forall x | ts[p].addr + HEADER <= x < ts[p].End() && 0 <= x < |m| ensures m'[x] == m[x] {
      if x - 4 == h || x - 4 in u {
        DataNotHeader(ts, p, x, x - 4);
      }
    }
  }

  /** No data byte of a tile is the `next` word of a header. */
  lemma DataNotHeader(ts: seq<Tile>, p: int, x: int, a: int)
    requires Laid(ts, 0) && 0 <= p < |ts| && ts[p].addr + HEADER <= x < ts[p].End()
    requires a in Addrs(ts, false) || a in Addrs(ts, true)
    ensures x - 4 != a
  {
    AddrsMember(ts, true, a);
    AddrsMember(ts, false, a);
    var q :| 0 <= q < |ts| && ts[q].addr == a;
    LaidBounds(ts, 0);
    assert p < q ==> ts[p].End() <= ts[q].addr;
    assert q < p ==> ts[q].End() <= ts[p].addr;
  }

  lemma FlipDatas(m: seq<int>, m1: seq<int>, m2: seq<int>, ts: seq<Tile>, i: int)
    requires SameDatas(m, m1, ts) && SameDatas(m1, m2, Flipped(ts, i))
    ensures SameDatas(m, m2, ts)
  {
    forall p | 0 <= p < |ts| ensures SameData(m, m2, ts[p]) {
      var t := Flipped(ts, i)[p];
      assert t.addr == ts[p].addr && t.len == ts[p].len;
      assert SameData(m, m1, ts[p]) && SameData(m1, m2, t);
    }
  }

  lemma RewriteKeepsData(m: seq<int>, m': seq<int>, ts: seq<Tile>, i: int, j: int)
    requires Laid(ts, 0) && 0 <= i < |ts| && 0 <= j < |ts| && SameBut(m, m', ts[i].addr, ts[j].addr)
    ensures SameDatas(m, m', ts)
  {
    LaidBounds(ts, 0);
  }

  lemma MergeHeaders(m: seq<int>, ts: seq<Tile>, i: int, m': seq<int>)
    requires Laid(ts, 0) && Headers(m, ts)
    requires 0 <= i < |ts| - 1 && ts[i].free && ts[i + 1].free
    requires SameBut(m, m', ts[i].addr, ts[i + 1].addr) && m'[ts[i].addr] == ts[i].len + HEADER + ts[i + 1].len
    ensures Headers(m', JoinNext(ts, i))
  {
    forall j | 0 <= j < |JoinNext(ts, i)| ensures HasHeader(m', JoinNext(ts, i)[j]) {
      MergedHeader(m, ts, i, m', j);
    }
  }

  lemma MergedHeader(m: seq<int>, ts: seq<Tile>, i: int, m': seq<int>, j: int)
    requires Laid(ts, 0) && Headers(m, ts)
    requires 0 <= i < |ts| - 1 && ts[i].free && ts[i + 1].free && 0 <= j < |JoinNext(ts, i)|
    requires SameBut(m, m', ts[i].addr, ts[i + 1].addr) && m'[ts[i].addr] == ts[i].len + HEADER + ts[i + 1].len
    ensures HasHeader(m', JoinNext(ts, i)[j])
  {
    JoinNextAt(ts, i, j);
    if j == i {
      assert HasHeader(m, ts[i]);
    } else {
      HeaderKept(m, m', ts, if j < i then j else j + 1, i, i + 1);
    }
  }

  lemma JoinNextAt(ts: seq<Tile>, i: int, j: int)
    requires 0 <= i < |ts| - 1 && ts[i].free && ts[i + 1].free && 0 <= j < |JoinNext(ts, i)|
    ensures j < |ts| - 1
    ensures JoinNext(ts, i)[j] == if j < i then ts[j] else if j == i then Tile(ts[i].addr, ts[i].len + HEADER + ts[i + 1].len, true) else ts[j + 1]
  {
  }

  /** The length word of a tile survives the rewriting of two other headers. */
  lemma HeaderKept(m: seq<int>, m': seq<int>, ts: seq<Tile>, j: int, p: int, q: int)
    requires Laid(ts, 0) && Headers(m, ts) && 0 <= j < |ts| && 0 <= p < |ts| && 0 <= q < |ts| && j != p && j != q
    requires SameBut(m, m', ts[p].addr, ts[q].addr)
    ensures HasHeader(m', ts[j])
  {
    LaidBounds(ts, 0);
    var a := ts[j].addr;
    assert IsHeader(m, a) && IsHeader(m, ts[p].addr) && IsHeader(m, ts[q].addr);
    assert a != ts[p].addr && a != ts[q].addr;
    assert !InHeader(a, ts[p].addr) && !InHeader(a, ts[q].addr);
  }

  /** Merging a free tile with its free successor, as seen in memory. */
  lemma MergeStep(m: seq<int>, list: int, ts: seq<Tile>, i: int, m': seq<int>)
    requires Laid(ts, 0) && Headers(m, ts) && Chain(m, list, Addrs(ts, true), NULL)
    requires 0 <= i < |ts| - 1 && ts[i].free && ts[i + 1].free
    requires SameBut(m, m', ts[i].addr, ts[i + 1].addr) && m'[ts[i].addr] == ts[i].len + HEADER + ts[i + 1].len
    requires Next(m', ts[i].addr) == Next(m, ts[i + 1].addr)
    ensures Headers(m', JoinNext(ts, i)) && Chain(m', list, Addrs(JoinNext(ts, i), true), NULL)
  {
    MergeHeaders(m, ts, i, m');
    var k := JoinNextList(ts, i);
    AddrsSorted(ts, true, 0);
    var s := Addrs(ts, true);
    ChainKept(m, list, s, k, m');
    ChainRemove(m, list, s, k, m');
  }

  lemma ChainKept(m: seq<int>, list: int, s: seq<int>, k: int, m': seq<int>)
    requires Chain(m, list, s, NULL) && Sorted(s) && 0 < k < |s| && SameBut(m, m', s[k - 1], s[k])
    ensures forall j {:trigger Next(m', s[j])} :: 0 <= j < |s| && j != k - 1 && j != k ==> Next(m', s[j]) == Next(m, s[j])
  {
    forall j | 0 <= j < |s| && j != k - 1 && j != k ensures Next(m', s[j]) == Next(m, s[j]) {
      assert IsHeader(m, s[j]) && IsHeader(m, s[k]) && IsHeader(m, s[k - 1]);
    }
  }

  /** The tests of `finsh_block_merge` decide which arena neighbours are free. */
  lemma Neighbours(m: seq<int>, list: int, ts: seq<Tile>, i: int) returns (k: int)
    requires Laid(ts, 0) && Headers(m, ts) && Chain(m, list, Addrs(ts, true), NULL)
    requires 0 <= i < |ts| && ts[i].free
    ensures k == |Addrs(ts[..i], true)|
    ensures var s := Addrs(ts, true);
            && Sorted(s) && 0 <= k < |s| && s[k] == ts[i].addr
            && (k == 0 ==> i == 0 || !ts[i - 1].free)
            && (k > 0 ==> IsHeader(m, s[k - 1]))
            && (k > 0 ==> (s[k - 1] + m[s[k - 1]] + HEADER == s[k] <==> i > 0 && ts[i - 1].free))
            && (i > 0 && ts[i - 1].free ==> k > 0 && s[k - 1] == ts[i - 1].addr)
    ensures Next(m, ts[i].addr) != NULL && ts[i].End() == Next(m, ts[i].addr) <==> i + 1 < |ts| && ts[i + 1].free
    ensures i + 1 < |ts| && ts[i + 1].free ==> Next(m, ts[i].addr) == ts[i + 1].addr
  {
    var s := Addrs(ts, true);
    k := FreeIndex(ts, i);
    FreeSuccessor(ts, i);
    var j := FreePredecessor(ts, i);
    AddrsAround(ts, i, true);
    AddrsSorted(ts, true, 0);
    assert Next(m, s[k]) == if k + 1 < |s| then s[k + 1] else NULL;
    if k > 0 {
      assert s[k - 1] == ts[j].addr;
    }
  }

  /** The memory `m` with the header at `a` rewritten. */
  function SetHeader(m: seq<int>, a: int, len: int, next: int): (m': seq<int>)
    requires 0 <= a && a + HEADER <= |m|
    ensures SameBut(m, m', a, a) && m'[a] == len && Next(m', a) == next
  {
    m[a := len][a + 4 := next]
  }

  /** Merging a free tile with both neighbours, in the single write of the previous header. */
  lemma MergeBoth(m: seq<int>, list: int, ts: seq<Tile>, i: int, m': seq<int>)
    requires Laid(ts, 0) && Headers(m, ts) && Chain(m, list, Addrs(ts, true), NULL)
    requires 0 < i < |ts| - 1 && ts[i - 1].free && ts[i].free && ts[i + 1].free
    requires SameBut(m, m', ts[i - 1].addr, ts[i - 1].addr) && Next(m', ts[i - 1].addr) == Next(m, ts[i + 1].addr)
    requires m'[ts[i - 1].addr] == ts[i - 1].len + ts[i].len + ts[i + 1].len + 2 * HEADER
    ensures Headers(m', Join(ts, i)) && Chain(m', list, Addrs(Join(ts, i), true), NULL)
  {
    var p, h, len, next := ts[i - 1].addr, ts[i].addr, ts[i].len + HEADER + ts[i + 1].len, Next(m, ts[i + 1].addr);
    assert p + HEADER <= h by { LaidBounds(ts, 0); }
    var m1 := SetHeader(m, h, len, next);
    MergeStep(m, list, ts, i, m1);
    var js := JoinNext(ts, i);
    assert Laid(js, 0) by { JoinNextKeepsTiles(ts, i); }
    assert js[i - 1] == ts[i - 1] && js[i] == Tile(h, len, true) && |js| == |ts| - 1;
    SameButTwice(m, m1, h, m', p);
    MergeStep(m1, list, js, i - 1, m');
  }

  /** The two tests of `finsh_block_merge`, given the block before on the list. */
  lemma MergeTests(m: seq<int>, list: int, ts: seq<Tile>, i: int, k: int, prev: int)
    requires Laid(ts, 0) && Headers(m, ts) && Chain(m, list, Addrs(ts, true), NULL)
    requires 0 <= i < |ts| && ts[i].free && k == |Addrs(ts[..i], true)| < |Addrs(ts, true)|
    requires prev == if k == 0 then NULL else Addrs(ts, true)[k - 1]
    ensures prev != NULL ==> IsHeader(m, prev)
    ensures prev != NULL && prev + m[prev] + HEADER == ts[i].addr <==> FreeLeft(ts, i)
    ensures FreeLeft(ts, i) ==> prev == ts[i - 1].addr
    ensures IsHeader(m, ts[i].addr) && (Next(m, ts[i].addr) != NULL && ts[i].addr + m[ts[i].addr] + HEADER == Next(m, ts[i].addr) <==> FreeRight(ts, i))
    ensures FreeRight(ts, i) ==> Next(m, ts[i].addr) == ts[i + 1].addr && IsHeader(m, ts[i + 1].addr)
  {
    assert HasHeader(m, ts[i]);
    assert i + 1 < |ts| ==> HasHeader(m, ts[i + 1]);
    var k' := Neighbours(m, list, ts, i);
    assert k' == k;
    if k > 0 {
      assert IsHeader(m, Addrs(ts, true)[k - 1]);
    }
  }

  ghost predicate FreeLeft(ts: seq<Tile>, i: int) { 0 < i <= |ts| && ts[i - 1].free }

  ghost predicate FreeRight(ts: seq<Tile>, i: int) { 0 <= i < |ts| - 1 && ts[i + 1].free }

  lemma NoNeighbours(ts: seq<Tile>, i: int)
    requires 0 <= i < |ts| && ts[i].free
    ensures !FreeRight(ts, i) ==> Join(ts, i) == JoinNext(ts, i - 1)
    ensures !FreeLeft(ts, i) ==> Join(ts, i) == JoinNext(ts, i)
    ensures !FreeLeft(ts, i) && !FreeRight(ts, i) ==> Join(ts, i) == ts
  {
    var js := JoinNext(ts, i);
    if i > 0 {
      assert js[i - 1] == ts[i - 1];
    }
  }

  /** The single header write when only the block before is free. */
  lemma MergeLeft(m: seq<int>, list: int, ts: seq<Tile>, i: int, m': seq<int>)
    requires Laid(ts, 0) && Headers(m, ts) && Chain(m, list, Addrs(ts, true), NULL)
    requires 0 <= i < |ts| && ts[i].free && FreeLeft(ts, i) && !FreeRight(ts, i) && IsHeader(m, ts[i - 1].addr) && IsHeader(m, ts[i].addr)
    requires m' == SetHeader(m, ts[i - 1].addr, m[ts[i - 1].addr] + m[ts[i].addr] + HEADER, Next(m, ts[i].addr))
    ensures Headers(m', Join(ts, i)) && Chain(m', list, Addrs(Join(ts, i), true), NULL)
  {
    NoNeighbours(ts, i);
    assert HasHeader(m, ts[i - 1]) && HasHeader(m, ts[i]);
    MergeStep(m, list, ts, i - 1, m');
  }

  /** ... when only the block behind is. */
  lemma MergeRight(m: seq<int>, list: int, ts: seq<Tile>, i: int, m': seq<int>)
    requires Laid(ts, 0) && Headers(m, ts) && Chain(m, list, Addrs(ts, true), NULL)
    requires 0 <= i < |ts| && ts[i].free && !FreeLeft(ts, i) && FreeRight(ts, i) && IsHeader(m, ts[i + 1].addr) && IsHeader(m, ts[i].addr)
    requires m' == SetHeader(m, ts[i].addr, m[ts[i].addr] + m[ts[i + 1].addr] + HEADER, Next(m, ts[i + 1].addr))
    ensures Headers(m', Join(ts, i)) && Chain(m', list, Addrs(Join(ts, i), true), NULL)
  {
    NoNeighbours(ts, i);
    assert HasHeader(m, ts[i + 1]) && HasHeader(m, ts[i]);
    MergeStep(m, list, ts, i, m');
  }

  /** ... when both are. */
  lemma MergeThree(m: seq<int>, list: int, ts: seq<Tile>, i: int, m': seq<int>)
    requires Laid(ts, 0) && Headers(m, ts) && Chain(m, list, Addrs(ts, true), NULL)
    requires 0 <= i < |ts| && ts[i].free && FreeLeft(ts, i) && FreeRight(ts, i)
    requires IsHeader(m, ts[i - 1].addr) && IsHeader(m, ts[i].addr) && IsHeader(m, ts[i + 1].addr)
    requires m' == SetHeader(m, ts[i - 1].addr, m[ts[i - 1].addr] + m[ts[i].addr] + m[ts[i + 1].addr] + 2 * HEADER, Next(m, ts[i + 1].addr))
    ensures Headers(m', Join(ts, i)) && Chain(m', list, Addrs(Join(ts, i), true), NULL)
  {
    assert HasHeader(m, ts[i - 1]) && HasHeader(m, ts[i]) && HasHeader(m, ts[i + 1]);
    MergeBoth(m, list, ts, i, m');
  }

  lemma SameButTwice(m: seq<int>, m1: seq<int>, h: int, m2: seq<int>, p: int)
    requires SameBut(m, m1, h, h) && SameBut(m, m2, p, p)
    ensures SameBut(m1, m2, p, h)
  {
  }

  lemma FreeNotUsed(ts: seq<Tile>, i: int)
    requires Laid(ts, 0) && 0 <= i < |ts| && ts[i].free
    ensures ts[i].addr !in Addrs(ts, false)
  {
    var k := OtherList(ts, i);
  }

  /** The list search finds the tile the first-fit rule names. */
  lemma FirstFitFound(m: seq<int>, ts: seq<Tile>, limit: int, k: int) returns (i: nat)
    requires Laid(ts, 0) && Headers(m, ts) && 0 <= k <= |Addrs(ts, true)|
    requires var f := Addrs(ts, true);
             && (forall q :: 0 <= q < |f| ==> IsHeader(m, f[q])) && (forall q :: 0 <= q < k ==> m[f[q]] < limit)
             && (k < |f| ==> limit <= m[f[k]])
    ensures i == FirstFit(ts, limit) <= |ts|
    ensures if k == |Addrs(ts, true)| then i == |ts| else i < |ts| && ts[i].addr == Addrs(ts, true)[k]
  {
    var f := Addrs(ts, true);
    i := |ts|;
    if k < |f| {
      i := TileOf(ts, true, f[k]);
    }
    AddrsSorted(ts, true, 0);
    LaidBounds(ts, 0);
    forall j | 0 <= j < i && ts[j].free ensures ts[j].len < limit {
      AddrsMember(ts, true, ts[j].addr);
      var q :| 0 <= q < |f| && f[q] == ts[j].addr;
    }
    FirstFitIs(ts, limit, i);
  }

  /** Rewriting the headers of free blocks leaves the allocated list intact. */
  lemma MergeFrame(m: seq<int>, m': seq<int>, list: int, ts: seq<Tile>, i: int, p: int)
    requires Laid(ts, 0) && Headers(m, ts) && Chain(m, list, Addrs(ts, false), NULL)
    requires 0 <= i < |ts| && ts[i].free && 0 <= p < |ts| && ts[p].free && SameBut(m, m', ts[i].addr, ts[p].addr)
    ensures Chain(m', list, Addrs(ts, false), NULL)
  {
    FreeNotUsed(ts, i);
    FreeNotUsed(ts, p);
    ChainFrame(m, m', list, Addrs(ts, false), ts[i].addr, ts[p].addr);
  }

  /** Does some typed variable point to the data of the block `a`? */
  predicate Held(a: int, vars: seq<Variable>) {
    exists i :: 0 <= i < |vars| && vars[i].typed && vars[i].ptr == a + HEADER
  }

  /** The held blocks of a list. */
  function Live(used: seq<int>, vars: seq<Variable>): seq<int> {
    if used == [] then [] else (if Held(used[0], vars) then [used[0]] else []) + Live(used[1..], vars)
  }

  /** Every block allocated before and after has kept its length and its data. */
  ghost predicate UsedData(m: seq<int>, m': seq<int>, ts: seq<Tile>, ts': seq<Tile>) {
    forall t :: t in ts' && !t.free ==> t in ts && SameData(m, m', t)
  }

  lemma UsedDataSame(m: seq<int>, ts: seq<Tile>)
    ensures UsedData(m, m, ts, ts)
  {
  }

  /** The block behind one in the middle of a list. */
  lemma ListAt(m: seq<int>, list: int, live: seq<int>, h: int, rest: seq<int>)
    requires Chain(m, list, live + [h] + rest, NULL)
    ensures h in live + [h] + rest && IsHeader(m, h) && m[h + 4] == if rest == [] then NULL else rest[0]
  {
    var s, k := live + [h] + rest, |live|;
    assert s[k] == h && (rest != [] ==> s[k + 1] == rest[0]);
    assert IsHeader(m, s[k]) && Next(m, s[k]) == if k + 1 < |s| then s[k + 1] else NULL;
  }

  lemma UsedDataTrans(m: seq<int>, m1: seq<int>, m2: seq<int>, ts: seq<Tile>, ts1: seq<Tile>, ts2: seq<Tile>)
    requires UsedData(m, m1, ts, ts1) && UsedData(m1, m2, ts1, ts2)
    ensures UsedData(m, m2, ts, ts2)
  {
    forall t | t in ts2 && !t.free ensures t in ts && SameData(m, m2, t) {
      assert t in ts1;
    }
  }

  lemma ReleaseUsedData(m: seq<int>, m': seq<int>, ts: seq<Tile>, i: int)
    requires SameDatas(m, m', ts) && 0 <= i < |ts| && !ts[i].free
    ensures UsedData(m, m', ts, Release(ts, i))
  {
    forall t | t in Release(ts, i) && !t.free ensures t in ts && SameData(m, m', t) {
      ReleaseKeepsUsed(ts, i, t);
    }
  }

  lemma WithoutMiddle(a: seq<int>, x: int, b: seq<int>)
    requires Sorted(a + [x] + b)
    ensures Without(a + [x] + b, x) == a + b
  {
    var s := a + [x] + b;
    assert s[|a|] == x;
    assert forall j :: 0 <= j < |a| ==> a[j] == s[j] < s[|a|];
    assert forall j :: 0 <= j < |b| ==> b[j] == s[|a| + 1 + j] > s[|a|];
    WithoutAt(a, x, b);
  }

  ghost predicate UsedDatas(m: seq<int>, m': seq<int>, ts: seq<Tile>) {
    forall p :: 0 <= p < |ts| && !ts[p].free ==> SameData(m, m', ts[p])
  }

  lemma SplitBounds(m: seq<int>, ts: seq<Tile>, i: int, size: int)
    requires Laid(ts, 0) && Span(ts) == |m| && Headers(m, ts)
    requires 0 <= i < |ts| && ts[i].free && 0 <= size && size % 8 == 0 && size + HEADER <= ts[i].len
    ensures IsHeader(m, ts[i].addr + HEADER + size)
  {
    LaidBounds(ts, 0);
  }

  lemma SplitHeaders(m: seq<int>, m': seq<int>, ts: seq<Tile>, i: int, n: int, size: int)
    requires Laid(ts, 0) && Headers(m, ts)
    requires 0 <= i < |ts| && n == ts[i].addr + HEADER + size && 0 <= size && size + HEADER <= ts[i].len
    requires SameBut(m, m', ts[i].addr, n) && IsHeader(m, n) && m'[ts[i].addr] == size && m'[n] == ts[i].len - HEADER - size
    ensures Headers(m', Split(ts, i, size))
  {
    var ss := Split(ts, i, size);
    assert IsHeader(m, ts[i].addr);
    forall p | 0 <= p < |ts| && p != i ensures HasHeader(m', ts[p]) {
      OutsideKept(m, m', ts, i, n, p);
    }
    forall p | 0 <= p < |ss| ensures HasHeader(m', ss[p]) {
      assert p < i ==> ss[p] == ts[p];
      assert p > i + 1 ==> ss[p] == ts[p - 1];
    }
  }

  /** The length word of a tile survives the rewriting of headers inside another tile. */
  lemma OutsideKept(m: seq<int>, m': seq<int>, ts: seq<Tile>, i: int, n: int, p: int)
    requires Laid(ts, 0) && Headers(m, ts) && 0 <= i < |ts| && 0 <= p < |ts| && p != i
    requires ts[i].addr <= n && n + HEADER <= ts[i].End() && SameBut(m, m', ts[i].addr, n)
    ensures HasHeader(m', ts[p])
  {
    LaidBounds(ts, 0);
    assert IsHeader(m, ts[p].addr);
    assert p < i ==> ts[p].End() <= ts[i].addr;
    assert i < p ==> ts[i].End() <= ts[p].addr;
  }

  /** A split touches nothing outside the free block. */
  lemma SplitFrame(m: seq<int>, m': seq<int>, list: int, ts: seq<Tile>, i: int, size: int)
    requires Laid(ts, 0) && Headers(m, ts) && Chain(m, list, Addrs(ts, false), NULL)
    requires 0 <= i < |ts| && ts[i].free && 0 <= size && size % 8 == 0 && size + HEADER <= ts[i].len
    requires SameBut(m, m', ts[i].addr, ts[i].addr + HEADER + size) && IsHeader(m, ts[i].addr + HEADER + size)
    ensures Chain(m', list, Addrs(ts, false), NULL)
  {
    var n := ts[i].addr + HEADER + size;
    SplitNotUsed(ts, i, size);
    ChainFrame(m, m', list, Addrs(ts, false), ts[i].addr, n);
  }

  lemma SplitNotUsed(ts: seq<Tile>, i: int, size: int)
    requires Laid(ts, 0) && 0 <= i < |ts| && ts[i].free && 0 <= size && size % 8 == 0 && size + HEADER <= ts[i].len
    ensures ts[i].addr !in Addrs(ts, false) && ts[i].addr + HEADER + size !in Addrs(ts, false)
  {
    var ss := Split(ts, i, size);
    SplitLists(ts, i, size, |Addrs(ts[..i], true)|);
    assert ss[i] == Tile(ts[i].addr, size, true) && ss[i + 1].addr == ts[i].addr + HEADER + size && ss[i + 1].free;
    FreeNotUsed(ss, i);
    FreeNotUsed(ss, i + 1);
  }

  /** What a split writes, apart from the free list. */
  lemma SplitEffect(m: seq<int>, m': seq<int>, list: int, ts: seq<Tile>, i: int, size: int)
    requires Laid(ts, 0) && Headers(m, ts) && Chain(m, list, Addrs(ts, false), NULL)
    requires 0 <= i < |ts| && ts[i].free && 0 <= size && size % 8 == 0 && size + HEADER <= ts[i].len
    requires SameBut(m, m', ts[i].addr, ts[i].addr + HEADER + size) && IsHeader(m, ts[i].addr + HEADER + size)
    requires IsHeader(m, ts[i].addr) && m'[ts[i].addr] == size
    requires m'[ts[i].addr + HEADER + size] == m[ts[i].addr] - HEADER - size
    ensures Headers(m', Split(ts, i, size)) && UsedDatas(m, m', ts) && Chain(m', list, Addrs(ts, false), NULL)
  {
    assert HasHeader(m, ts[i]);
    SplitHeaders(m, m', ts, i, ts[i].addr + HEADER + size, size);
    SplitFrame(m, m', list, ts, i, size);
    SplitDatas(m, m', ts, i, ts[i].addr + HEADER + size);
  }

  lemma SplitDatas(m: seq<int>, m': seq<int>, ts: seq<Tile>, i: int, n: int)
    requires Laid(ts, 0) && 0 <= i < |ts| && ts[i].free && ts[i].addr < n && n + HEADER <= ts[i].End()
    requires SameBut(m, m', ts[i].addr, n)
    ensures UsedDatas(m, m', ts)
  {
    LaidBounds(ts, 0);
  }

  lemma SplitUsedDatas(m: seq<int>, m': seq<int>, ts: seq<Tile>, i: int, size: int)
    requires 0 <= i < |ts| && ts[i].free && SameDatas(m, m', Split(ts, i, size))
    ensures UsedDatas(m, m', ts)
  {
    var ss := Split(ts, i, size);
    forall p | 0 <= p < |ts| && !ts[p].free ensures SameData(m, m', ts[p]) {
      assert ts[p] == if p < i then ss[p] else ss[p + 1];
    }
  }

  /** Every allocated block but `h` was there before, and has kept its length and its data. */
  ghost predicate OthersData(m: seq<int>, m': seq<int>, ts: seq<Tile>, ts': seq<Tile>, h: int) {
    forall t :: t in ts' && !t.free && t.addr != h ==> t in ts && SameData(m, m', t)
  }

  lemma HeadersFlipped(m: seq<int>, ts: seq<Tile>, i: int)
    requires Headers(m, ts)
    ensures Headers(m, Flipped(ts, i))
  {
    var fs := Flipped(ts, i);
    forall p | 0 <= p < |fs| ensures IsHeader(m, fs[p].addr) && m[fs[p].addr] == fs[p].len {
      assert fs[p].addr == ts[p].addr && fs[p].len == ts[p].len;
    }
  }

  /** Only the data of tile `i` may differ. */
  ghost predicate SameOutside(m: seq<int>, m': seq<int>, t: Tile) {
    |m'| == |m| && forall x :: 0 <= x < |m| && !(t.addr + HEADER <= x < t.End()) ==> m'[x] == m[x]
  }

  /** Writing the data of one block disturbs neither the headers, nor the lists, nor other data. */
  lemma ClearFrame(m: seq<int>, m': seq<int>, ts: seq<Tile>, i: int, list: int, free: bool)
    requires Laid(ts, 0) && Headers(m, ts) && Chain(m, list, Addrs(ts, free), NULL)
    requires 0 <= i < |ts| && SameOutside(m, m', ts[i])
    ensures Headers(m', ts) && Chain(m', list, Addrs(ts, free), NULL)
    ensures forall p :: 0 <= p < |ts| && p != i ==> SameData(m, m', ts[p])
  {
    LaidBounds(ts, 0);
    var s := Addrs(ts, free);
    forall q | 0 <= q < |s| ensures IsHeader(m', s[q]) && Next(m', s[q]) == Next(m, s[q]) {
      var p := TileOf(ts, free, s[q]);
      assert p < i ==> ts[p].End() <= ts[i].addr;
      assert i < p ==> ts[i].End() <= ts[p].addr;
    }
  }

  lemma CarveData(m: seq<int>, m1: seq<int>, m2: seq<int>, ts: seq<Tile>, i: int, size: int)
    requires Laid(ts, 0) && 0 <= i < |ts| && ts[i].free && 0 <= size && size + HEADER <= ts[i].len
    requires UsedDatas(m, m1, ts) && SameOutside(m1, m2, Tile(ts[i].addr, size, false))
    ensures OthersData(m, m2, ts, Carve(ts, i, size), ts[i].addr)
  {
    LaidBounds(ts, 0);
    forall t | t in Carve(ts, i, size) && !t.free && t.addr != ts[i].addr ensures t in ts && SameData(m, m2, t) {
      CarveUsed(ts, i, size, t);
      var p :| 0 <= p < |ts| && ts[p] == t;
      assert SameData(m, m1, ts[p]);
      assert p < i ==> ts[p].End() <= ts[i].addr;
      assert i < p ==> ts[i].End() <= ts[p].addr;
    }
  }

  /** The data of the block whose header is at `a`. */
  function Data(m: seq<int>, a: int): seq<int> {
    if 0 <= a < |m| && 0 <= m[a] && a + HEADER + m[a] <= |m| then m[a + HEADER..a + HEADER + m[a]] else []
  }

  /** What the heap holds for its clients: the data of every allocated block. */
  function View(m: seq<int>, ts: seq<Tile>): map<int, seq<int>> {
    map a | a in Addrs(ts, false) :: Data(m, a)
  }

  /** The part of a view that variables hold. */
  function HeldView(v: map<int, seq<int>>, vars: seq<Variable>): map<int, seq<int>> {
    map a | a in v && Held(a, vars) :: v[a]
  }

  function Zeroed(size: nat): seq<int> { seq(size, _ => 0) }

  /** A view with a zeroed block added, unless the request failed. */
  function Granted(v: map<int, seq<int>>, ptr: int, size: nat): map<int, seq<int>> {
    if ptr == NULL then v else v[ptr - HEADER := Zeroed(size)]
  }

  /** Every allocated tile of `ts'` is one of `ts`. */
  ghost predicate UsedFrom(ts: seq<Tile>, ts': seq<Tile>) {
    forall t :: t in ts' && !t.free ==> t in ts
  }

  /** Blocks that survive keep their entry in the view. */
  lemma KeptData(m: seq<int>, m': seq<int>, ts: seq<Tile>, ts': seq<Tile>, h: int, a: int)
    requires Headers(m, ts) && Headers(m', ts') && OthersData(m, m', ts, ts', h)
    requires a in Addrs(ts', false) && a != h
    ensures a in Addrs(ts, false) && Data(m', a) == Data(m, a)
  {
    AddrsMember(ts', false, a);
    var p :| 0 <= p < |ts'| && ts'[p].addr == a && !ts'[p].free;
    var t := ts'[p];
    assert t in ts && SameData(m, m', t);
    var q :| 0 <= q < |ts| && ts[q] == t;
    AddrsMember(ts, false, a);
    assert HasHeader(m, t) && HasHeader(m', t);
    assert Data(m', a) == Data(m, a) by { DataSame(m, m', t); }
  }

  lemma DataSame(m: seq<int>, m': seq<int>, t: Tile)
    requires HasHeader(m, t) && HasHeader(m', t) && SameData(m, m', t)
    ensures Data(m', t.addr) == Data(m, t.addr)
  {
  }

  /** Allocating adds one zeroed block to the view. */
  lemma TakeView(m: seq<int>, m': seq<int>, ts: seq<Tile>, ts': seq<Tile>, h: int, size: nat)
    requires Headers(m, ts) && Headers(m', ts') && OthersData(m, m', ts, ts', h)
    requires forall a :: a in Addrs(ts', false) <==> a in Addrs(ts, false) || a == h
    requires h !in Addrs(ts, false) && 0 <= h && h + HEADER + size <= |m'| && m'[h] == size
    requires forall x :: h + HEADER <= x < h + HEADER + size ==> m'[x] == 0
    ensures View(m', ts') == View(m, ts)[h := Zeroed(size)]
  {
    var v, v' := View(m, ts), View(m', ts');
    forall a | a in v' && a != h ensures a in v && v'[a] == v[a] {
      KeptData(m, m', ts, ts', h, a);
    }
    ZeroData(m', h, size);
    ViewWith(v, v', h, Zeroed(size));
  }

  lemma ViewWith(v: map<int, seq<int>>, v': map<int, seq<int>>, h: int, d: seq<int>)
    requires forall a :: a in v' <==> a in v || a == h
    requires v'[h] == d && forall a :: a in v' && a != h ==> v'[a] == v[a]
    ensures v' == v[h := d]
  {
    var w := v[h := d];
    forall a ensures a in v' <==> a in w { }
    assert forall a :: a in v' ==> v'[a] == w[a];
  }

  lemma ZeroData(m: seq<int>, h: int, size: nat)
    requires 0 <= h && h + HEADER + size <= |m| && m[h] == size && forall x :: h + HEADER <= x < h + HEADER + size ==> m[x] == 0
    ensures Data(m, h) == Zeroed(size)
  {
  }

  lemma FreeView(m: seq<int>, m': seq<int>, ts: seq<Tile>, ts': seq<Tile>, h: int)
    requires Headers(m, ts) && Headers(m', ts') && UsedData(m, m', ts, ts')
    requires Addrs(ts', false) == Without(Addrs(ts, false), h)
    ensures View(m', ts') == View(m, ts) - {h}
  {
    WithoutMembers(Addrs(ts, false), h);
    var v, v' := View(m, ts), View(m', ts');
    forall a | a in v' ensures a in v && v'[a] == v[a] {
      KeptData(m, m', ts, ts', h, a);
    }
    ViewWithout(v, v', h);
  }

  lemma ViewWithout(v: map<int, seq<int>>, v': map<int, seq<int>>, h: int)
    requires forall a :: a in v' <==> a in v && a != h
    requires forall a :: a in v' ==> v'[a] == v[a]
    ensures v' == v - {h}
  {
    var w := v - {h};
    forall a ensures a in v' <==> a in w { }
    assert forall a :: a in v' ==> v'[a] == w[a];
  }

  lemma {:induction false} WithoutMembers(s: seq<int>, x: int)
    ensures forall a :: a in Without(s, x) <==> a in s && a != x
  {
    if s != [] { WithoutMembers(s[1..], x); }
  }

  lemma GcView(m: seq<int>, m': seq<int>, ts: seq<Tile>, ts': seq<Tile>, vars: seq<Variable>)
    requires Headers(m, ts) && Headers(m', ts') && UsedData(m, m', ts, ts')
    requires Addrs(ts', false) == Live(Addrs(ts, false), vars)
    ensures View(m', ts') == HeldView(View(m, ts), vars)
  {
    LiveMembers(Addrs(ts, false), vars);
    forall a | a in Addrs(ts', false) ensures a in Addrs(ts, false) && Data(m', a) == Data(m, a) {
      KeptData(m, m', ts, ts', a - 1, a);
    }
  }

  /** Moving the first block of `rest` on to `live`, if it is held, keeps what will be live at the end. */
  lemma ListStep(live: seq<int>, rest: seq<int>, vars: seq<Variable>, all: seq<int>)
    requires rest != [] && live + Live(rest, vars) == all
    ensures live + rest == live + [rest[0]] + rest[1..]
    ensures (if Held(rest[0], vars) then live + [rest[0]] else live) + Live(rest[1..], vars) == all
    ensures AllBlocks(rest) ==> AllBlocks(rest[1..])
  {
    Shift(live, [rest[0]], rest[1..]);
    assert rest == [rest[0]] + rest[1..];
    Shift(live, if Held(rest[0], vars) then [rest[0]] else [], Live(rest[1..], vars));
    assert live + [] == live;
  }

  lemma Shift(a: seq<int>, b: seq<int>, c: seq<int>)
    ensures a + b + c == a + (b + c)
  {
  }

  lemma NotNull(m: seq<int>, list: int, s: seq<int>)
    requires Chain(m, list, s, NULL)
    ensures AllBlocks(s)
  {
    assert forall i :: 0 <= i < |s| ==> IsHeader(m, s[i]);
  }

  ghost predicate AllBlocks(s: seq<int>) { forall i :: 0 <= i < |s| ==> s[i] != NULL }

  lemma {:induction false} LiveMembers(used: seq<int>, vars: seq<Variable>)
    ensures forall a :: a in Live(used, vars) <==> a in used && Held(a, vars)
  {
    if used != [] { LiveMembers(used[1..], vars); }
  }

  lemma CarvedAddrs(ts: seq<Tile>, i: int, size: int)
    requires Laid(ts, 0) && 0 <= i < |ts| && ts[i].free
    ensures ts[i].addr !in Addrs(ts, false)
    ensures forall a :: a in Addrs(Carve(ts, i, size), false) <==> a in Addrs(ts, false) || a == ts[i].addr
  {
    var k := OtherList(ts, i);
    SplitAddrs(ts, i, size, false);
    AddrsAround(ts, i, false);
    var ss := Split(ts, i, size);
    FlipList(ss, i, false);
    AddrsAround(ss, i, false);
  }

  /** HEAP_ALIGN_SIZE, in 32-bit arithmetic. */
  function AlignSize(size: nat): (r: nat)
    ensures r % 8 == 0
    ensures size + 7 < WORDS ==> size <= r < size + 8
  {
    (size + 7) % WORDS / 8 * 8
  }

  /** The requests whose aligned size plus header wraps around are exactly these eight; for them the
      remainder of every split would land on the block itself. */
  lemma WrappedRequests(size: nat, h: nat)
    requires size < WORDS && h < WORDS
    ensures AlignSize(size) + HEADER < WORDS <==> !(0xFFFF_FFF1 <= size <= 0xFFFF_FFF8)
    ensures 0xFFFF_FFF1 <= size <= 0xFFFF_FFF8 ==> (h + HEADER + AlignSize(size)) % WORDS == h
  {
    if size + 7 < WORDS {
      assert (size + 7) % WORDS == size + 7;
    } else {
      assert (size + 7) % WORDS == size + 7 - WORDS;
    }
    if 0xFFFF_FFF1 <= size <= 0xFFFF_FFF8 {
      assert AlignSize(size) == WORDS - 8;
      assert (h + WORDS) % WORDS == h;
    }
  }

  /** The two header writes of `finsh_block_split`, in 32-bit arithmetic. */
  function SplitWrites(m: seq<int>, h: int, size: nat): (m': seq<int>)
    requires IsHeader(m, h) && IsHeader(m, (h + HEADER + size) % WORDS)
  {
    var next := (h + HEADER + size) % WORDS;
    SetHeader(SetHeader(m, next, (m[h] - HEADER - size) % WORDS, Next(m, h)), h, size, next)
  }

  /** For those eight requests any free block is long enough, and splitting it ruins the heap: the block links to itself,
      is longer than the arena, and is on no list and part of no layout any more. */
  lemma WrappedSplit(m: seq<int>, h: int, size: nat)
    requires IsHeader(m, h) && |m| < WORDS - 8 && 0xFFFF_FFF1 <= size <= 0xFFFF_FFF8
    ensures (AlignSize(size) + HEADER) % WORDS == 0 && (h + HEADER + AlignSize(size)) % WORDS == h
    ensures var m' := SplitWrites(m, h, AlignSize(size));
            && Next(m', h) == h && m'[h] > |m'|
            && (forall list, s :: Chain(m', list, s, NULL) && Sorted(s) ==> h !in s)
            && (forall ts: seq<Tile>, i :: Laid(ts, 0) && Span(ts) == |m'| && Headers(m', ts) && 0 <= i < |ts| ==> ts[i].addr != h)
  {
    WrappedRequests(size, h);
    assert AlignSize(size) == WORDS - 8;
    var m' := SplitWrites(m, h, WORDS - 8);
    forall list, s | Chain(m', list, s, NULL) && Sorted(s) ensures h !in s {
      SelfLoop(m', list, s, h);
    }
    forall ts: seq<Tile>, i | Laid(ts, 0) && Span(ts) == |m'| && Headers(m', ts) && 0 <= i < |ts| ensures ts[i].addr != h {
      LaidBounds(ts, 0);
      assert HasHeader(m', ts[i]);
    }
  }

  lemma SelfLoop(m: seq<int>, list: int, s: seq<int>, h: int)
    requires Chain(m, list, s, NULL) && Sorted(s) && Next(m, h) == h
    ensures h !in s
  {
    forall i | 0 <= i < |s| ensures s[i] != h {
      assert Next(m, s[i]) == if i + 1 < |s| then s[i + 1] else NULL;
      assert IsHeader(m, s[i]);
    }
  }

  lemma HeaderOf(m: seq<int>, list: int, s: seq<int>, k: int)
    requires Chain(m, list, s, NULL) && 0 <= k < |s|
    ensures IsHeader(m, s[k])
  {
  }

  /** The two header writes of a split put the remainder behind the block. */
  lemma SplitChain(m: seq<int>, m1: seq<int>, m2: seq<int>, list: int, s: seq<int>, k: int, next: int, size: int)
    requires Chain(m, list, s, NULL) && Sorted(s) && 0 <= k < |s| && IsHeader(m, s[k])
    requires 0 <= size && next == s[k] + HEADER + size && IsHeader(m, next) && next !in s
    requires m1 == SetHeader(m, next, m[s[k]] - HEADER - size, Next(m, s[k])) && m2 == SetHeader(m1, s[k], size, next)
    ensures Chain(m2, list, s[..k + 1] + [next] + s[k + 1..], NULL)
    ensures m2[s[k]] == size && m2[next] == m[s[k]] - HEADER - size && SameBut(m, m2, s[k], next)
  {
    assert Next(m, s[k]) == if k + 1 < |s| then s[k + 1] else NULL;
    ChainFrame(m, m1, list, s, next, next);
    assert forall i {:trigger Next(m2, s[i])} :: 0 <= i < |s| && i != k ==> Next(m2, s[i]) == Next(m1, s[i]) by {
      assert forall i :: 0 <= i < |s| ==> IsHeader(m1, s[i]);
    }
    ChainInsert(m1, list, s, k + 1, next, m2);
  }

  class Heap {
    /** mem[a] is the 32-bit word at byte offset a; only offsets divisible by 4 are ever accessed. */
    const mem: array<int>
    var freeList: int
    var allocateList: int
    ghost var tiles: seq<Tile>

    method WriteHeader(a: int, len: int, next: int)
      requires 0 <= a && a + HEADER <= mem.Length
      modifies mem
      ensures mem[..] == SetHeader(old(mem[..]), a, len, next)
    {
      mem[a] := len;
      mem[a + 4] := next;
    }

    /** `finsh_block_insert`: a block put at the end of the list keeps whatever `next` it had. */
    method BlockInsert(list: int, header: int, ghost s: seq<int>) returns (list': int, ghost k: int)
      requires Chain(mem[..], list, s, NULL) && Sorted(s)
      requires IsHeader(mem[..], header) && header !in s
      modifies mem
      ensures 0 <= k <= |s|
      ensures forall i :: 0 <= i < k ==> s[i] < header
      ensures forall i :: k <= i < |s| ==> header < s[i]
      ensures Chain(mem[..], list', s[..k] + [header] + s[k..], if k == |s| then old(mem[header + 4]) else NULL)
      ensures OnlyNexts(old(mem[..]), mem[..], header, s)
    {
      ghost var m := mem[..];
      if list == NULL {
        k := 0;
        ChainInsert(m, list, s, k, header, mem[..]);
        return header, 0;
      }
      var node := list;
      if node > header {
        mem[header + 4] := node;
        list' := header;
        k := 0;
      } else {
        k := 1;
        while !(mem[node + 4] > header) && mem[node + 4] != NULL
          invariant 1 <= k <= |s| && node == s[k - 1]
          invariant s[k - 1] < header
          invariant mem[..] == m
          invariant Next(m, node) == if k < |s| then s[k] else NULL
          decreases |s| - k
        {
          node := mem[node + 4];
          k := k + 1;
        }
        if mem[node + 4] != NULL {
          mem[header + 4] := mem[node + 4];
        }
        mem[node + 4] := header;
        list' := list;
      }
      assert forall x :: 0 <= x < mem.Length && x != header + 4 && (k == 0 || x != s[k - 1] + 4) ==> mem[x] == m[x];
      OthersNext(m, mem[..], s, k, header);
      ChainInsert(m, list, s, k, header, mem[..]);
    }

    /** `finsh_block_remove`: a block that was not the list head keeps its stale `next`. */
    method BlockRemove(list: int, header: int, ghost s: seq<int>) returns (list': int, ghost k: int)
      requires Chain(mem[..], list, s, NULL) && Sorted(s)
      requires header in s
      modifies mem
      ensures 0 <= k < |s| && s[k] == header
      ensures Chain(mem[..], list', s[..k] + s[k + 1..], NULL)
      ensures mem[header + 4] == if k == 0 then NULL else old(mem[header + 4])
      ensures OnlyNexts(old(mem[..]), mem[..], header, s)
    {
      var node := list;
      if node == header {
        list' := mem[header + 4];
        mem[header + 4] := NULL;
        k := 0;
        ChainRemove(old(mem[..]), list, s, k, mem[..]);
        return;
      }
      k := 1;
      while mem[node + 4] != header
        invariant 1 <= k <= |s| && node == s[k - 1]
        invariant forall i :: 0 <= i < k ==> s[i] != header
        invariant mem[..] == old(mem[..])
        invariant Next(mem[..], node) == if k < |s| then s[k] else NULL
        decreases |s| - k
      {
        node := mem[node + 4];
        k := k + 1;
      }
      mem[node + 4] := mem[header + 4];
      list' := list;
      ChainRemove(old(mem[..]), list, s, k, mem[..]);
    }
  
    /** `finsh_block_split`: the remainder follows the block in its list. */
    method BlockSplit(header: int, size: int, ghost list: int, ghost s: seq<int>, ghost k: int)
      requires Chain(mem[..], list, s, NULL) && Sorted(s) && 0 <= k < |s| && s[k] == header
      requires 0 <= size && IsHeader(mem[..], header + HEADER + size) && header + HEADER + size !in s
      modifies mem
      ensures Chain(mem[..], list, s[..k + 1] + [header + HEADER + size] + s[k + 1..], NULL)
      ensures mem[header] == size && mem[header + HEADER + size] == old(mem[header]) - HEADER - size
      ensures SameBut(old(mem[..]), mem[..], header, header + HEADER + size)
    {
      hide Chain, SetHeader, SameBut;
      ghost var m := mem[..];
      HeaderOf(m, list, s, k);
      var next := header + HEADER + size;
      var rest, tail := mem[header] - HEADER - size, mem[header + 4];
      WriteHeader(next, rest, tail);
      ghost var m1 := mem[..];
      WriteHeader(header, size, next);
      SplitChain(m, m1, mem[..], list, s, k, next, size);
    }

    /** The search of `finsh_block_merge` for the block before `header`. */
    method Predecessor(list: int, header: int, ghost s: seq<int>, ghost k: int) returns (prevNode: int)
      requires Chain(mem[..], list, s, NULL) && Sorted(s) && 0 <= k < |s| && s[k] == header
      ensures prevNode == if k == 0 then NULL else s[k - 1]
    {
      if list == header {
        return NULL;
      }
      prevNode := list;
      ghost var j := 0;
      assert Next(mem[..], s[0]) == s[1];
      while prevNode != NULL && mem[prevNode + 4] != header
        invariant 0 <= j < k && prevNode == s[j]
        invariant Next(mem[..], s[j]) == s[j + 1]
        decreases k - j
      {
        prevNode := mem[prevNode + 4];
        j := j + 1;
        assert Next(mem[..], s[j]) == s[j + 1];
      }
    }

    /** `finsh_block_merge`: merges a free block with whichever neighbours are free. */
    method BlockMerge(list: int, header: int, ghost ts: seq<Tile>, ghost i: int)
      requires Laid(ts, 0) && Headers(mem[..], ts) && Chain(mem[..], list, Addrs(ts, true), NULL)
      requires 0 <= i < |ts| && ts[i].free && ts[i].addr == header
      modifies mem
      ensures Headers(mem[..], Join(ts, i)) && Chain(mem[..], list, Addrs(Join(ts, i), true), NULL)
      ensures SameBut(old(mem[..]), mem[..], header, if i > 0 && ts[i - 1].free then ts[i - 1].addr else header)
    {
      hide Chain, Join, Laid, Addrs;
      ghost var m := mem[..];
      ghost var s := Addrs(ts, true);
      ghost var k := FreeIndex(ts, i);
      AddrsSorted(ts, true, 0);
      assert HasHeader(m, ts[i]);
      var nextNode := mem[header + 4];
      var prevNode := Predecessor(list, header, s, k);
      MergeTests(m, list, ts, i, k, prevNode);
      if prevNode != NULL && prevNode + mem[prevNode] + HEADER == header {
        if nextNode != NULL && header + mem[header] + HEADER == nextNode {
          WriteHeader(prevNode, mem[prevNode] + mem[header] + mem[nextNode] + 2 * HEADER, mem[nextNode + 4]);
          MergeThree(m, list, ts, i, mem[..]);
        } else {
          WriteHeader(prevNode, mem[prevNode] + mem[header] + HEADER, mem[header + 4]);
          MergeLeft(m, list, ts, i, mem[..]);
        }
      } else if nextNode != NULL && header + mem[header] + HEADER == nextNode {
        WriteHeader(header, mem[header] + mem[nextNode] + HEADER, mem[nextNode + 4]);
        MergeRight(m, list, ts, i, mem[..]);
      } else {
        assert Join(ts, i) == ts by { NoNeighbours(ts, i); }
      }
    }
  
    ghost predicate Valid()
      reads this, mem
    {
      && Layout(tiles, mem.Length) && Headers(mem[..], tiles)
      && Chain(mem[..], freeList, Addrs(tiles, true), NULL)
      && Chain(mem[..], allocateList, Addrs(tiles, false), NULL)
    }

    /** Moves a block between the lists. `finsh_heap_allocate` clears its `next` on the way,
        `finsh_heap_free` does not: a block put at the end of a list would then keep the stale one. */
    method Transfer(src: int, dst: int, header: int, clear: bool, ghost u: seq<int>, ghost k: int, ghost f: seq<int>, ghost j: int)
      returns (src': int, dst': int)
      requires Chain(mem[..], src, u, NULL) && Sorted(u) && Chain(mem[..], dst, f, NULL) && Sorted(f)
      requires forall x :: x in u ==> x !in f
      requires 0 <= k < |u| && u[k] == header
      requires 0 <= j <= |f| && (forall i :: 0 <= i < j ==> f[i] < header) && (forall i :: j <= i < |f| ==> header < f[i])
      modifies mem
      ensures Chain(mem[..], src', u[..k] + u[k + 1..], NULL)
      ensures Chain(mem[..], dst', f[..j] + [header] + f[j..],
                    if j == |f| && !clear && k > 0 then Next(old(mem[..]), header) else NULL)
      ensures OnlyNexts(old(mem[..]), mem[..], header, u + f)
    {
      ghost var m := mem[..];
      ghost var k', j';
      src', k' := BlockRemove(src, header, u);
      assert k' == k;
      ghost var r := u[..k] + u[k + 1..];
      assert forall i :: 0 <= i < |r| ==> r[i] in u && r[i] != header;
      ghost var m1 := mem[..];
      if clear {
        mem[header + 4] := NULL;
        OtherChain(m1, mem[..], header, [], src', r);
      }
      OtherChain(m, mem[..], header, u, dst, f);
      ghost var m2 := mem[..];
      dst', j' := BlockInsert(dst, header, f);
      assert j' < |f| ==> header < f[j'];
      assert j < |f| ==> header < f[j];
      assert j' == j;
      OtherChain(m2, mem[..], header, f, src', r);
    }

    /** The list moves of `finsh_heap_free`. The block keeps a stale `next` across them; this does
        no harm only because the free list never ends below it. */
    method MoveToFree(header: int, ghost ts: seq<Tile>, ghost i: int)
      requires Laid(ts, 0) && TopFree(ts) && Headers(mem[..], ts)
      requires Chain(mem[..], freeList, Addrs(ts, true), NULL) && Chain(mem[..], allocateList, Addrs(ts, false), NULL)
      requires 0 <= i < |ts| && !ts[i].free && ts[i].addr == header
      modifies this`freeList, this`allocateList, mem
      ensures Headers(mem[..], ts) && SameDatas(old(mem[..]), mem[..], ts)
      ensures Chain(mem[..], freeList, Addrs(Flipped(ts, i), true), NULL)
      ensures Chain(mem[..], allocateList, Addrs(Flipped(ts, i), false), NULL)
    {
      ghost var u, f := Addrs(ts, false), Addrs(ts, true);
      ghost var k := OwnList(ts, i);
      ghost var j := OtherList(ts, i);
      AddrsSorted(ts, true, 0);
      ListsDisjoint(ts);
      NeverLast(ts, i);
      ghost var m := mem[..];
      allocateList, freeList := Transfer(allocateList, freeList, header, false, u, k, f, j);
      HeadersFrame(m, mem[..], ts, header, u + f);
      RelinkKeepsData(m, mem[..], ts, i, u + f);
      FlipList(ts, i, true);
      FlipList(ts, i, false);
    }

    /** The list moves of `finsh_heap_allocate`. */
    method MoveToAllocated(header: int, ghost ts: seq<Tile>, ghost i: int)
      requires Laid(ts, 0) && Headers(mem[..], ts)
      requires Chain(mem[..], freeList, Addrs(ts, true), NULL) && Chain(mem[..], allocateList, Addrs(ts, false), NULL)
      requires 0 <= i < |ts| && ts[i].free && ts[i].addr == header
      modifies this`freeList, this`allocateList, mem
      ensures Headers(mem[..], ts) && SameDatas(old(mem[..]), mem[..], ts)
      ensures Chain(mem[..], freeList, Addrs(Flipped(ts, i), true), NULL)
      ensures Chain(mem[..], allocateList, Addrs(Flipped(ts, i), false), NULL)
    {
      ghost var f, u := Addrs(ts, true), Addrs(ts, false);
      ghost var k := OwnList(ts, i);
      ghost var j := OtherList(ts, i);
      AddrsSorted(ts, false, 0);
      ListsDisjoint(ts);
      ghost var m := mem[..];
      freeList, allocateList := Transfer(freeList, allocateList, header, true, f, k, u, j);
      HeadersFrame(m, mem[..], ts, header, f + u);
      RelinkKeepsData(m, mem[..], ts, i, f + u);
      FlipList(ts, i, true);
      FlipList(ts, i, false);
    }

    /** Unlinks, relinks and merges the block of tile `i`. */
    method ReleaseTile(header: int, ghost ts: seq<Tile>, ghost i: int)
      requires Laid(ts, 0) && TopFree(ts) && Headers(mem[..], ts)
      requires Chain(mem[..], freeList, Addrs(ts, true), NULL) && Chain(mem[..], allocateList, Addrs(ts, false), NULL)
      requires 0 <= i < |ts| && !ts[i].free && ts[i].addr == header
      modifies this`freeList, this`allocateList, mem
      ensures Headers(mem[..], Release(ts, i)) && SameDatas(old(mem[..]), mem[..], ts)
      ensures Chain(mem[..], freeList, Addrs(Release(ts, i), true), NULL)
      ensures Chain(mem[..], allocateList, Addrs(Flipped(ts, i), false), NULL)
    {
      ghost var m := mem[..];
      MoveToFree(header, ts, i);
      ghost var m1, ts1 := mem[..], Flipped(ts, i);
      assert Laid(ts1, 0) && ts1[i].free && ts1[i].addr == header by {
        FlipKeepsTiles(ts, i);
      }
      HeadersFlipped(m1, ts, i);
      MergeTile(header, ts1, i);
      FlipDatas(m, m1, mem[..], ts, i);
    }

    /** Merges the block of free tile `i`; the allocated list and all data stay. */
    method MergeTile(header: int, ghost ts: seq<Tile>, ghost i: int)
      requires Laid(ts, 0) && Headers(mem[..], ts)
      requires Chain(mem[..], freeList, Addrs(ts, true), NULL) && Chain(mem[..], allocateList, Addrs(ts, false), NULL)
      requires 0 <= i < |ts| && ts[i].free && ts[i].addr == header
      modifies mem
      ensures Headers(mem[..], Join(ts, i)) && SameDatas(old(mem[..]), mem[..], ts)
      ensures Chain(mem[..], freeList, Addrs(Join(ts, i), true), NULL)
      ensures Chain(mem[..], allocateList, Addrs(ts, false), NULL)
    {
      ghost var m, p := mem[..], if i > 0 && ts[i - 1].free then i - 1 else i;
      BlockMerge(freeList, header, ts, i);
      MergeFrame(m, mem[..], allocateList, ts, i, p);
      RewriteKeepsData(m, mem[..], ts, i, p);
    }

    /** `finsh_heap_free`. */
    method Free(ptr: int)
      requires Valid() && ptr - HEADER in Addrs(tiles, false)
      modifies this, mem
      ensures Valid()
      ensures tiles == Release(old(tiles), IndexOf(old(tiles), ptr - HEADER))
      ensures Addrs(tiles, false) == Without(old(Addrs(tiles, false)), ptr - HEADER)
      ensures UsedData(old(mem[..]), mem[..], old(tiles), tiles)
      ensures View(mem[..], tiles) == old(View(mem[..], tiles)) - {ptr - HEADER}
    {
      hide Release, View, Addrs, Laid, Headers, Chain, UsedData;
      var header := ptr - HEADER;
      ghost var ts := tiles;
      ghost var i := TileOf(ts, false, header);
      ReleaseTile(header, ts, i);
      ReleaseUsedData(old(mem[..]), mem[..], ts, i);
      ReleaseKeepsLayout(ts, mem.Length, i);
      FlipList(ts, i, false);
      FreedList(ts, i);
      tiles := Release(ts, i);
      FreeView(old(mem[..]), mem[..], ts, tiles, header);
    }

    /** The first-fit search: the lowest free block of at least `limit` bytes. */
    method FindFit(limit: int) returns (header: int, ghost i: nat)
      requires Valid()
      ensures i == FirstFit(tiles, limit) <= |tiles|
      ensures header == if FirstFit(tiles, limit) == |tiles| then NULL else tiles[FirstFit(tiles, limit)].addr
      ensures header == NULL <==> i == |tiles|
      ensures NULL <= header
    {
      ghost var f := Addrs(tiles, true);
      header := freeList;
      ghost var k := 0;
      while header != NULL && mem[header] < limit
        invariant 0 <= k <= |f| && header == if k == |f| then NULL else f[k]
        invariant forall i :: 0 <= i < k ==> mem[f[i]] < limit
        decreases |f| - k
      {
        assert Next(mem[..], f[k]) == if k + 1 < |f| then f[k + 1] else NULL;
        header := mem[header + 4];
        k := k + 1;
      }
      i := FirstFitFound(mem[..], tiles, limit, k);
      assert i < |tiles| ==> HasHeader(mem[..], tiles[i]);
    }
  
    /** The variable scan of `finsh_heap_gc`. */
    method IsHeld(header: int, vars: seq<Variable>) returns (held: bool)
      ensures held == Held(header, vars)
    {
      var i := 0;
      while i < |vars| && !(vars[i].typed && vars[i].ptr == header + HEADER)
        invariant 0 <= i <= |vars|
        invariant forall j :: 0 <= j < i ==> !(vars[j].typed && vars[j].ptr == header + HEADER)
      {
        i := i + 1;
      }
      held := i < |vars|;
    }

    /** One round of `finsh_heap_gc`: steps to the next allocated block, then frees this one if unheld. */
    method Sweep(header: int, vars: seq<Variable>, ghost live: seq<int>, ghost rest: seq<int>) returns (next: int)
      requires Valid() && Addrs(tiles, false) == live + [header] + rest
      modifies this, mem
      ensures Valid() && next == if rest == [] then NULL else rest[0]
      ensures Addrs(tiles, false) == if Held(header, vars) then live + [header] + rest else live + rest
      ensures UsedData(old(mem[..]), mem[..], old(tiles), tiles)
    {
      ListAt(mem[..], allocateList, live, header, rest);
      var held := IsHeld(header, vars);
      next := mem[header + 4];
      if held {
        UsedDataSame(mem[..], tiles);
      } else {
        AddrsSorted(tiles, false, 0);
        WithoutMiddle(live, header, rest);
        Free(header + HEADER);
      }
    }

    /** `finsh_heap_gc`: frees every allocated block no typed variable points to. */
    method Gc(vars: seq<Variable>)
      requires Valid()
      modifies this, mem
      ensures Valid()
      ensures Addrs(tiles, false) == Live(old(Addrs(tiles, false)), vars) && UsedFrom(old(tiles), tiles)
      ensures View(mem[..], tiles) == HeldView(old(View(mem[..], tiles)), vars)
    {
      ghost var m, ts := mem[..], tiles;
      SweepAll(vars);
      GcView(m, mem[..], ts, tiles, vars);
    }

    method SweepAll(vars: seq<Variable>)
      requires Valid()
      modifies this, mem
      ensures Valid()
      ensures Addrs(tiles, false) == Live(old(Addrs(tiles, false)), vars)
      ensures UsedData(old(mem[..]), mem[..], old(tiles), tiles)
    {
      ghost var used, ts0, m0 := Addrs(tiles, false), tiles, mem[..];
      ghost var live, rest := [], used;
      var header := allocateList;
      NotNull(mem[..], header, used);
      while header != NULL
        invariant Valid() && UsedData(m0, mem[..], ts0, tiles)
        invariant header == if rest == [] then NULL else rest[0]
        invariant AllBlocks(rest)
        invariant Addrs(tiles, false) == live + rest && live + Live(rest, vars) == Live(used, vars)
        decreases |rest|
      {
        ghost var m, ts, a := mem[..], tiles, header;
        ListStep(live, rest, vars, Live(used, vars));
        header := Sweep(header, vars, live, rest[1..]);
        UsedDataTrans(m0, m, mem[..], ts0, ts, tiles);
        live, rest := if Held(a, vars) then live + [a] else live, rest[1..];
      }
      assert rest == [];
    }

    /** Splits the block of free tile `i`, and takes the front part off the free list. */
    method CarveTile(header: int, size: int, ghost ts: seq<Tile>, ghost i: int)
      requires Laid(ts, 0) && Span(ts) == mem.Length && Headers(mem[..], ts)
      requires Chain(mem[..], freeList, Addrs(ts, true), NULL) && Chain(mem[..], allocateList, Addrs(ts, false), NULL)
      requires 0 <= i < |ts| && ts[i].free && ts[i].addr == header
      requires 0 <= size && size % 8 == 0 && size + HEADER <= ts[i].len
      modifies this`freeList, this`allocateList, mem
      ensures Headers(mem[..], Split(ts, i, size))
      ensures Chain(mem[..], freeList, Addrs(Carve(ts, i, size), true), NULL)
      ensures Chain(mem[..], allocateList, Addrs(Carve(ts, i, size), false), NULL)
      ensures UsedDatas(old(mem[..]), mem[..], ts)
    {
      SplitTile(header, size, ts, i);
      ghost var m := mem[..];
      SplitLists(ts, i, size, |Addrs(ts[..i], true)|);
      MoveToAllocated(header, Split(ts, i, size), i);
      SplitUsedDatas(m, mem[..], ts, i, size);
    }

    /** Splits the block of free tile `i`. */
    method SplitTile(header: int, size: int, ghost ts: seq<Tile>, ghost i: int)
      requires Laid(ts, 0) && Span(ts) == mem.Length && Headers(mem[..], ts)
      requires Chain(mem[..], freeList, Addrs(ts, true), NULL) && Chain(mem[..], allocateList, Addrs(ts, false), NULL)
      requires 0 <= i < |ts| && ts[i].free && ts[i].addr == header
      requires 0 <= size && size % 8 == 0 && size + HEADER <= ts[i].len
      modifies mem
      ensures Headers(mem[..], Split(ts, i, size))
      ensures Chain(mem[..], freeList, Addrs(Split(ts, i, size), true), NULL)
      ensures Chain(mem[..], allocateList, Addrs(Split(ts, i, size), false), NULL)
      ensures UsedDatas(old(mem[..]), mem[..], ts)
    {
      ghost var m, f, k := mem[..], Addrs(ts, true), |Addrs(ts[..i], true)|;
      SplitBounds(m, ts, i, size);
      SplitLists(ts, i, size, k);
      AddrsSorted(ts, true, 0);
      BlockSplit(header, size, freeList, f, k);
      SplitEffect(m, mem[..], allocateList, ts, i, size);
    }
  
    /** The `memset` of a new block. */
    method Clear(a: int, size: nat)
      requires 0 <= a && a + size <= mem.Length
      modifies mem
      ensures forall x :: a <= x < a + size ==> mem[x] == 0
      ensures forall x :: 0 <= x < mem.Length && !(a <= x < a + size) ==> mem[x] == old(mem[x])
    {
      for x := a to a + size
        invariant forall y :: a <= y < x ==> mem[y] == 0
        invariant forall y :: 0 <= y < mem.Length && !(a <= y < x) ==> mem[y] == old(mem[y])
      {
        mem[x] := 0;
      }
    }

    /** Allocates `size` bytes from the free block of tile `i`. */
    method Take(header: int, size: int, ghost i: int)
      requires Valid() && 0 <= i < |tiles| && tiles[i].free && tiles[i].addr == header
      requires 0 <= size && size % 8 == 0 && size + HEADER <= tiles[i].len
      modifies this, mem
      ensures Valid() && tiles == Carve(old(tiles), i, size)
      ensures View(mem[..], tiles) == old(View(mem[..], tiles))[header := Zeroed(size)]
    {
      ghost var m, ts := mem[..], tiles;
      TakeBlock(header, size, i);
      CarvedAddrs(ts, i, size);
      TakeView(m, mem[..], ts, tiles, header, size);
    }

    method TakeBlock(header: int, size: int, ghost i: int)
      requires Valid() && 0 <= i < |tiles| && tiles[i].free && tiles[i].addr == header
      requires 0 <= size && size % 8 == 0 && size + HEADER <= tiles[i].len
      modifies this, mem
      ensures Valid() && tiles == Carve(old(tiles), i, size)
      ensures 0 <= header && header + HEADER + size <= mem.Length && mem[header] == size
      ensures forall x :: header + HEADER <= x < header + HEADER + size ==> mem[x] == 0
      ensures OthersData(old(mem[..]), mem[..], old(tiles), tiles, header)
    {
      ghost var ts, m := tiles, mem[..];
      CarveTile(header, size, ts, i);
      ghost var cs, m1 := Carve(ts, i, size), mem[..];
      CarveKeepsLayout(ts, mem.Length, i, size);
      assert cs[i] == Tile(header, size, false);
      HeadersFlipped(m1, Split(ts, i, size), i);
      LaidBounds(cs, 0);
      Clear(header + HEADER, size);
      ClearFrame(m1, mem[..], cs, i, freeList, true);
      ClearFrame(m1, mem[..], cs, i, allocateList, false);
      CarveData(m, m1, mem[..], ts, i, size);
      tiles := cs;
    }
  
    /** `finsh_heap_init`. */
    constructor (size: nat)
      requires HEADER <= size < WORDS && size % 8 == 0
      ensures Valid() && mem.Length == size && fresh(mem)
      ensures tiles == [Tile(0, size - HEADER, true)] && View(mem[..], tiles) == map[]
    {
      mem := new int[size](_ => 0);
      freeList := 0;
      allocateList := NULL;
      tiles := [Tile(0, size - HEADER, true)];
      new;
      WriteHeader(0, size - HEADER, NULL);
      assert tiles[1..] == [];
      assert Span(tiles) == size && Laid(tiles, 0);
    }

    /** Searches the free list for `limit` bytes, and allocates `size` bytes from what it finds. */
    method TryTake(limit: int, size: int) returns (ptr: int)
      requires Valid() && 0 <= size && size % 8 == 0 && size + HEADER <= limit
      modifies this, mem
      ensures Valid()
      ensures var i := FirstFit(old(tiles), limit);
              if i == |old(tiles)| then ptr == NULL && tiles == old(tiles) && mem[..] == old(mem[..])
              else 0 <= ptr == old(tiles)[i].addr + HEADER && tiles == Carve(old(tiles), i, size)
      ensures View(mem[..], tiles) == Granted(old(View(mem[..], tiles)), ptr, size)
    {
      hide Valid, View, Carve;
      var header;
      ghost var i;
      header, i := FindFit(limit);
      if header == NULL {
        return NULL;
      }
      Take(header, size, i);
      ptr := header + HEADER;
    }

    /** The second attempt of `finsh_heap_allocate`: collect garbage, then search again. */
    method Retry(limit: int, size: int, vars: seq<Variable>) returns (ptr: int, ghost base: seq<Tile>)
      requires Valid() && 0 <= size && size % 8 == 0 && size + HEADER <= limit
      modifies this, mem
      ensures Valid() && Layout(base, mem.Length)
      ensures Addrs(base, false) == Live(old(Addrs(tiles, false)), vars) && UsedFrom(old(tiles), base)
      ensures var i := FirstFit(base, limit);
              if i == |base| then ptr == NULL && tiles == base else 0 <= ptr == base[i].addr + HEADER && tiles == Carve(base, i, size)
      ensures View(mem[..], tiles) == Granted(HeldView(old(View(mem[..], tiles)), vars), ptr, size)
    {
      Gc(vars);
      base := tiles;
      ptr := TryTake(limit, size);
    }

    /** `finsh_heap_allocate`: first fit, after a garbage collection if need be. */
    method Allocate(size: nat, vars: seq<Variable>) returns (ptr: int, ghost base: seq<Tile>)
      requires Valid() && size < WORDS && AlignSize(size) + HEADER < WORDS
      modifies this, mem
      ensures Valid()
      ensures FirstFit(old(tiles), AlignSize(size) + HEADER + 1) < |old(tiles)| ==>
        && 0 <= ptr == old(tiles)[FirstFit(old(tiles), AlignSize(size) + HEADER + 1)].addr + HEADER
        && View(mem[..], tiles) == Granted(old(View(mem[..], tiles)), ptr, AlignSize(size))
      ensures FirstFit(old(tiles), AlignSize(size) + HEADER + 1) == |old(tiles)| ==>
        && Layout(base, mem.Length) && Addrs(base, false) == Live(old(Addrs(tiles, false)), vars) && UsedFrom(old(tiles), base)
        && (if FirstFit(base, AlignSize(size) + HEADER) == |base| then ptr == NULL && tiles == base
            else 0 <= ptr == base[FirstFit(base, AlignSize(size) + HEADER)].addr + HEADER)
        && View(mem[..], tiles) == Granted(HeldView(old(View(mem[..], tiles)), vars), ptr, AlignSize(size))
    {
      ptr, base := AllocateAligned(AlignSize(size), vars);
    }

    method AllocateAligned(size: nat, vars: seq<Variable>) returns (ptr: int, ghost base: seq<Tile>)
      requires Valid() && size % 8 == 0 && size + HEADER < WORDS
      modifies this, mem
      ensures Valid()
      ensures FirstFit(old(tiles), size + HEADER + 1) < |old(tiles)| ==>
        && 0 <= ptr == old(tiles)[FirstFit(old(tiles), size + HEADER + 1)].addr + HEADER
        && View(mem[..], tiles) == Granted(old(View(mem[..], tiles)), ptr, size)
      ensures FirstFit(old(tiles), size + HEADER + 1) == |old(tiles)| ==>
        && Layout(base, mem.Length) && Addrs(base, false) == Live(old(Addrs(tiles, false)), vars) && UsedFrom(old(tiles), base)
        && (if FirstFit(base, size + HEADER) == |base| then ptr == NULL && tiles == base
            else 0 <= ptr == base[FirstFit(base, size + HEADER)].addr + HEADER)
        && View(mem[..], tiles) == Granted(HeldView(old(View(mem[..], tiles)), vars), ptr, size)
    {
      base := tiles;
      ptr := TryTake(size + HEADER + 1, size);
      if ptr == NULL {
        ptr, base := Retry(size + HEADER, size, vars);
      }
    }
  }
}
