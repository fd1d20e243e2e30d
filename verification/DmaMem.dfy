/** The bump allocator for DMA buffers, in 32-bit arithmetic. */
module DmaMem {
  import opened Common

  const LINE := 64

  // ----- powers of two -----

  ghost predicate IsPow2(a: int) { exists k: nat :: a == Pow2(k) }

  /** The number of one bits. */
  function Ones(a: nat): nat {
    if a == 0 then 0 else a % 2 + Ones(a / 2)
  }

  lemma {:induction false} OneBit(a: nat)
    ensures Ones(a) == 1 <==> IsPow2(a)
    ensures Ones(a) == 0 <==> a == 0
  {
    if a > 0 {
      OneBit(a / 2);
      if a % 2 == 1 {
        if IsPow2(a) {
          var k: nat :| a == Pow2(k);
          assert k == 0;
        } else {
          assert a != Pow2(0);
        }
      } else {
        HalfPow2(a);
      }
    }
  }

  lemma HalfPow2(a: nat)
    requires a > 0 && a % 2 == 0
    ensures IsPow2(a) <==> IsPow2(a / 2)
  {
    if IsPow2(a) {
      var k: nat :| a == Pow2(k);
      assert k > 0 && a / 2 == Pow2(k - 1);
    }
    if IsPow2(a / 2) {
      var k: nat :| a / 2 == Pow2(k);
      assert a == Pow2(k + 1);
    }
  }

  /** The smaller of two powers of two divides the larger. */
  lemma {:induction false} Pow2Divides(j: nat, k: nat, x: nat)
    requires Pow2(j) <= Pow2(k) && x % Pow2(k) == 0
    ensures x % Pow2(j) == 0
    decreases k
  {
    if Pow2(j) < Pow2(k) {
      assert Pow2(j) >= 1;
      assert k > 0;
      Halves(j, k);
      var p, q := Pow2(k - 1), x / Pow2(k);
      assert x == q * (2 * p) == (2 * q) * p;
      Multiple(2 * q, p);
      Pow2Divides(j, k - 1, x);
    }
  }

  lemma {:induction false} Halves(j: nat, k: nat)
    requires Pow2(j) < Pow2(k) && k > 0
    ensures Pow2(j) <= Pow2(k - 1)
    decreases j
  {
    if j > 0 {
      assert Pow2(j) >= 2;
      Halves(j - 1, k - 1);
    }
  }

  lemma Multiple(q: int, p: nat)
    requires p > 0
    ensures (q * p) % p == 0
  {
    var x := q * p;
    var d, r := q - x / p, x % p;
    assert x == (x / p) * p + r;
    assert r == d * p by { Distribute(q, x / p, p); }
    if d >= 1 { Larger(d, 1, p); } else if d <= -1 { Larger(-1, d, p); }
  }

  lemma Distribute(a: int, b: int, p: int)
    ensures (a - b) * p == a * p - b * p
  {
  }

  lemma Larger(a: int, b: int, p: nat)
    requires a >= b
    ensures a * p >= b * p
  {
  }

  /** `align_check`. */
  method AlignCheck(align: nat) returns (ok: bool)
    requires align < WORDS
    ensures ok <==> IsPow2(align) && align < 0x1000_0000
  {
    if align / 0x1000_0000 != 0 {
      return false;
    }
    var bits, a := 0, align;
    while a != 0
      invariant bits + Ones(a) == Ones(align)
    {
      if a % 2 != 0 {
        bits := bits + 1;
      }
      a := a / 2;
    }
    OneBit(align);
    ok := bits == 1;
  }

  // ----- the allocator -----

  datatype Node = Node(base: nat, size: nat, align: nat)

  /** The distance to the next multiple of `align`; the bits below a power of two are the remainder. */
  function Extra(addr: nat, align: nat): (e: nat)
    requires align > 0
    ensures e < align
  {
    (align - addr % align) % align
  }

  lemma ExtraAligns(addr: nat, align: nat)
    requires align > 0
    ensures (addr + Extra(addr, align)) % align == 0
    ensures forall b: nat :: addr <= b && b % align == 0 ==> addr + Extra(addr, align) <= b
  {
    var q, r := addr / align, addr % align;
    assert addr == q * align + r;
    var e := Extra(addr, align);
    if r == 0 {
      assert align % align == 0 by { Multiple(1, align); }
      assert e == 0;
    } else {
      ExtraIs(align, r);
      assert addr + e == (q + 1) * align by { Distribute(q, -1, align); }
      Multiple(q + 1, align);
      forall b: nat | addr <= b && b % align == 0 ensures addr + e <= b {
        NextMultiple(b, align, q, r);
      }
    }
  }

  lemma ExtraIs(align: nat, r: nat)
    requires 0 < r < align
    ensures (align - r) % align == align - r
  {
    var x := align - r;
    var q := x / align;
    assert x == q * align + x % align;
    if q >= 1 { Larger(q, 1, align); } else if q <= -1 { Larger(-1, q, align); }
  }

  /** Between two neighbouring multiples there is no other. */
  lemma NextMultiple(b: nat, align: nat, q: nat, r: nat)
    requires 0 < r < align && b % align == 0 && q * align + r <= b
    ensures (q + 1) * align <= b
  {
    var p := b / align;
    assert b == p * align;
    if p <= q { Larger(q, p, align); } else { Larger(p, q + 1, align); }
  }

  /** The blocks lie in the region, one behind the other, each on its alignment and on a cache line. */
  ghost predicate NodesOk(nodes: seq<Node>, begin: nat, alloc: nat) {
    && (forall i :: 0 <= i < |nodes| ==>
          && begin <= nodes[i].base && 0 < nodes[i].size && nodes[i].base + nodes[i].size <= alloc
          && 0 < nodes[i].align && nodes[i].base % nodes[i].align == 0 && nodes[i].base % LINE == 0)
    && (forall i, j :: 0 <= i < j < |nodes| ==> nodes[i].base + nodes[i].size <= nodes[j].base)
  }

  /** No two blocks have a byte on the same cache line. */
  lemma LinesApart(nodes: seq<Node>, begin: nat, alloc: nat, i: nat, j: nat, x: nat, y: nat)
    requires NodesOk(nodes, begin, alloc) && i < |nodes| && j < |nodes| && i != j
    requires nodes[i].base <= x < nodes[i].base + nodes[i].size && nodes[j].base <= y < nodes[j].base + nodes[j].size
    ensures x / LINE != y / LINE
  {
    if i < j {
      assert x < nodes[j].base;
    } else {
      assert y < nodes[i].base;
    }
  }

  const LINE_POW := 6

  /** A power of two not below the cache line, or an address on one, is on a line. */
  lemma OnLine(base: nat, align: nat)
    requires IsPow2(align) && align >= LINE && base % align == 0
    ensures base % LINE == 0
  {
    var k: nat :| align == Pow2(k);
    assert Pow2(1) == 2 && Pow2(2) == 4 && Pow2(3) == 8 && Pow2(4) == 16 && Pow2(5) == 32 && Pow2(LINE_POW) == LINE;
    Pow2Divides(LINE_POW, k, base);
  }

  lemma AlsoAligned(base: nat, asked: nat, align: nat)
    requires IsPow2(align) && IsPow2(asked) && asked <= align && base % align == 0
    ensures asked > 0 && base % asked == 0
  {
    var j: nat, k: nat :| asked == Pow2(j) && align == Pow2(k);
    Pow2Divides(j, k, base);
  }

  /** No aligned place from `alloc` on has room for `size` bytes. */
  ghost predicate NoRoom(alloc: nat, a: nat, size: nat, end: int) {
    a > 0 ==> forall b: nat {:trigger b % a} :: alloc <= b && b % a == 0 ==> b + size > end + 1
  }

  lemma RoomIs(alloc: nat, a: nat, size: nat, end: int)
    requires a > 0
    ensures NoRoom(alloc, a, size, end) <==> size + Extra(alloc, a) > end + 1 - alloc
    ensures (alloc + Extra(alloc, a)) % a == 0
  {
    ExtraAligns(alloc, a);
  }

  lemma NodesMore(nodes: seq<Node>, begin: nat, alloc: nat, p: nat, size: nat, a: nat)
    requires NodesOk(nodes, begin, alloc) && begin <= alloc <= p && 0 < size && IsPow2(a) && LINE <= a && p % a == 0
    ensures NodesOk(nodes + [Node(p, size, a)], begin, p + size)
  {
    OnLine(p, a);
  }

  lemma NoWrap(x: nat)
    requires x < WORDS
    ensures x % WORDS == x
  {
  }

  class Manager {
    var align: nat
    var begin: nat
    /** The last address of the region. */
    var end: nat
    var alloc: nat
    var nodes: seq<Node>

    /** Unused, or set up: no bound ever wraps around. */
    ghost predicate Valid()
      reads this
    {
      align < WORDS &&
      (alloc != 0 ==>
        && 0 < begin <= alloc <= end + 1 < WORDS && LINE <= align < 0x1000_0000 && IsPow2(align)
        && NodesOk(nodes, begin, alloc))
    }

    constructor ()
      ensures Valid() && alloc == 0
    {
      align, begin, end, alloc, nodes := 0, 0, 0, 0, [];
    }

    /** `dma_mem_init`. */
    method Init(beginAddr: nat, bufSize: nat, bufAlign: nat) returns (ok: bool)
      requires beginAddr < WORDS && bufSize < WORDS && bufAlign < WORDS && Valid()
      modifies this
      ensures Valid()
      ensures var a := if bufAlign < LINE then LINE else bufAlign;
              && (ok <==> 0 < beginAddr && 0 < bufSize && beginAddr + bufSize < WORDS && IsPow2(a) && a < 0x1000_0000)
              && (ok ==> begin == alloc == beginAddr && end + 1 == beginAddr + bufSize && align == a && nodes == [])
      ensures !ok ==> begin == old(begin) && alloc == old(alloc) && end == old(end) && align == old(align) && nodes == old(nodes)
    {
      var a := if bufAlign < LINE then LINE else bufAlign;
      var maxsz := (WORDS - beginAddr) % WORDS;
      if beginAddr > 0 { NoWrap(WORDS - beginAddr); }
      ok := AlignCheck(a);
      if bufSize == 0 || bufSize >= maxsz || !ok {
        return false;
      }
      NoWrap(beginAddr + (bufSize - 1));
      align, begin, end, alloc, nodes := a, beginAddr, (beginAddr + (bufSize - 1)) % WORDS, beginAddr, [];
    }

    /** `dma_mem_malloc_with_name`; `nodeOk` tells whether there is memory for the node. */
    method Malloc(size: nat, asked: nat, nodeOk: bool) returns (p: nat)
      requires Valid() && size < WORDS && asked < WORDS
      modifies this`alloc, this`nodes
      ensures Valid()
      ensures var a := if asked < align then align else asked;
              && (p == 0 <==> !nodeOk || !IsPow2(a) || a >= 0x1000_0000 || old(alloc) == 0 || size == 0 || size >= 0x8000_0000
                              || NoRoom(old(alloc), a, size, end))
              && (p == 0 ==> alloc == old(alloc) && nodes == old(nodes))
              && (p != 0 ==> old(alloc) <= p && p % a == 0 && alloc == p + size && nodes == old(nodes) + [Node(p, size, a)])
      ensures p != 0 && IsPow2(asked) ==> p % asked == 0
    {
      var a := if asked < align then align else asked;
      var ok := AlignCheck(a);
      if !nodeOk || !ok || alloc == 0 || size == 0 || size >= 0x8000_0000 {
        return 0;
      }
      p := Place(size, a);
      if p != 0 && IsPow2(asked) {
        AlsoAligned(p, asked, a);
      }
    }

    /** The place of the block, and the new node. */
    method Place(size: nat, a: nat) returns (p: nat)
      requires Valid() && alloc != 0 && 0 < size < 0x8000_0000 && align <= a < 0x1000_0000 && IsPow2(a)
      modifies this`alloc, this`nodes
      ensures Valid() && (p == 0 <==> NoRoom(old(alloc), a, size, end))
      ensures p == 0 ==> alloc == old(alloc) && nodes == old(nodes)
      ensures p != 0 ==> old(alloc) <= p && p % a == 0 && alloc == p + size && nodes == old(nodes) + [Node(p, size, a)]
    {
      var extra := Extra(alloc, a);
      RoomIs(alloc, a, size, end);
      NoWrap(size + extra);
      NoWrap(end + 1 - alloc);
      if (size + extra) % WORDS > (end + 1 - alloc) % WORDS {
        return 0;
      }
      NoWrap(alloc + extra);
      NoWrap(alloc + (extra + size));
      p := (alloc + extra) % WORDS;
      NodesMore(nodes, begin, alloc, p, size, a);
      nodes := nodes + [Node(p, size, a)];
      alloc := (alloc + (extra + size)) % WORDS;
    }
  }
}
