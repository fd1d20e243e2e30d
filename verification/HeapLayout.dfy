/** The abstract state of the finsh heap: the arena as one sequence of tiles.
    Both block lists, their order and their disjointness are read off this sequence. */
module HeapLayout {

  const HEADER := 8

  /** One block: the offset of its header, the length of its data, and whether it is free. */
  datatype Tile = Tile(addr: int, len: int, free: bool) {
    function End(): int { addr + HEADER + len }
  }

  /** The bytes covered by a run of tiles, headers included. */
  function Span(ts: seq<Tile>): int {
    if ts == [] then 0 else HEADER + ts[0].len + Span(ts[1..])
  }

  /** The tiles follow one another without gap or overlap, from offset `lo` on. */
  ghost predicate Laid(ts: seq<Tile>, lo: int) {
    ts == [] ||
    (ts[0].addr == lo && 0 <= ts[0].len && ts[0].len % 8 == 0 && Laid(ts[1..], ts[0].End()))
  }

  /** The header offsets of the free, or of the allocated, tiles in address order. */
  function Addrs(ts: seq<Tile>, free: bool): seq<int> {
    if ts == [] then []
    else (if ts[0].free == free then [ts[0].addr] else []) + Addrs(ts[1..], free)
  }

  /** No two neighbouring tiles are both free. */
  ghost predicate Coalesced(ts: seq<Tile>) {
    forall i {:trigger ts[i].free} :: 0 <= i < |ts| - 1 && ts[i].free ==> !ts[i + 1].free
  }

  /** The topmost tile is free. */
  ghost predicate TopFree(ts: seq<Tile>) {
    ts != [] && ts[|ts| - 1].free
  }

  /** What every reachable heap satisfies. */
  ghost predicate Layout(ts: seq<Tile>, max: int) {
    Laid(ts, 0) && Span(ts) == max && TopFree(ts) && Coalesced(ts)
  }

  ghost predicate Sorted(s: seq<int>) {
    forall i, j :: 0 <= i < j < |s| ==> s[i] < s[j]
  }

  lemma {:induction false} SpanConcat(a: seq<Tile>, b: seq<Tile>)
    ensures Span(a + b) == Span(a) + Span(b)
  {
    if a == [] {
      assert a + b == b;
    } else {
      assert (a + b)[1..] == a[1..] + b;
      SpanConcat(a[1..], b);
    }
  }

  lemma {:induction false} LaidConcat(a: seq<Tile>, b: seq<Tile>, lo: int)
    ensures Laid(a + b, lo) <==> Laid(a, lo) && Laid(b, lo + Span(a))
  {
    if a == [] {
      assert a + b == b;
    } else {
      assert (a + b)[1..] == a[1..] + b;
      LaidConcat(a[1..], b, a[0].End());
    }
  }

  lemma {:induction false} AddrsConcat(a: seq<Tile>, b: seq<Tile>, free: bool)
    ensures Addrs(a + b, free) == Addrs(a, free) + Addrs(b, free)
  {
    if a == [] {
      assert a + b == b;
    } else {
      assert (a + b)[1..] == a[1..] + b;
      AddrsConcat(a[1..], b, free);
      Associate(if a[0].free == free then [a[0].addr] else [], Addrs(a[1..], free), Addrs(b, free));
    }
  }

  lemma Associate(a: seq<int>, b: seq<int>, c: seq<int>)
    ensures a + (b + c) == a + b + c
  {
  }

  /** Every tile lies inside the span, 8-aligned when the span starts so, and above its predecessors. */
  lemma {:induction false} LaidBounds(ts: seq<Tile>, lo: int)
    requires Laid(ts, lo)
    ensures 0 <= Span(ts)
    ensures forall i :: 0 <= i < |ts| ==>
      lo <= ts[i].addr && 0 <= ts[i].len && ts[i].len % 8 == 0 && ts[i].End() <= lo + Span(ts)
    ensures lo % 8 == 0 ==> forall i :: 0 <= i < |ts| ==> ts[i].addr % 8 == 0
    ensures forall i, j :: 0 <= i < j < |ts| ==> ts[i].End() <= ts[j].addr
  {
    if ts != [] {
      LaidBounds(ts[1..], ts[0].End());
      assert forall i :: 0 < i < |ts| ==> ts[i] == ts[1..][i - 1];
    }
  }

  /** A list holds exactly the addresses of the tiles of its kind. */
  lemma {:induction false} AddrsMember(ts: seq<Tile>, free: bool, x: int)
    ensures x in Addrs(ts, free) <==> exists i :: 0 <= i < |ts| && ts[i].addr == x && ts[i].free == free
  {
    if ts != [] {
      AddrsMember(ts[1..], free, x);
      assert forall i :: 0 <= i < |ts| - 1 ==> ts[1..][i] == ts[i + 1];
      if i :| 0 <= i < |ts| && ts[i].addr == x && ts[i].free == free {
        if i > 0 { assert ts[1..][i - 1] == ts[i]; }
      }
    }
  }

  /** Both lists are strictly address-sorted and stay inside the span. */
  lemma {:induction false} AddrsSorted(ts: seq<Tile>, free: bool, lo: int)
    requires Laid(ts, lo)
    ensures Sorted(Addrs(ts, free))
    ensures forall j :: 0 <= j < |Addrs(ts, free)| ==>
      lo <= Addrs(ts, free)[j] && Addrs(ts, free)[j] + HEADER <= lo + Span(ts)
  {
    if ts != [] {
      AddrsSorted(ts[1..], free, ts[0].End());
      LaidBounds(ts[1..], ts[0].End());
    }
  }

  /** The index of the tile whose header is at `a`. */
  function IndexOf(ts: seq<Tile>, a: int): nat {
    if ts == [] || ts[0].addr == a then 0 else 1 + IndexOf(ts[1..], a)
  }

  lemma {:induction false} IndexOfTile(ts: seq<Tile>, i: int, lo: int)
    requires Laid(ts, lo) && 0 <= i < |ts|
    ensures IndexOf(ts, ts[i].addr) == i
  {
    LaidBounds(ts, lo);
    if i > 0 {
      assert ts[1..][i - 1] == ts[i] && ts[0].addr < ts[i].addr;
      IndexOfTile(ts[1..], i - 1, ts[0].End());
    }
  }

  /** Locates the tile of a listed header. */
  lemma TileOf(ts: seq<Tile>, free: bool, x: int) returns (i: int)
    requires Laid(ts, 0) && x in Addrs(ts, free)
    ensures i == IndexOf(ts, x) && 0 <= i < |ts| && ts[i].addr == x && ts[i].free == free
  {
    AddrsMember(ts, free, x);
    i :| 0 <= i < |ts| && ts[i].addr == x && ts[i].free == free;
    IndexOfTile(ts, i, 0);
  }

  /** The list without the address `x`. */
  function Without(s: seq<int>, x: int): seq<int> {
    if s == [] then [] else (if s[0] == x then [] else [s[0]]) + Without(s[1..], x)
  }

  lemma {:induction false} WithoutAt(a: seq<int>, x: int, b: seq<int>)
    requires x !in a && x !in b
    ensures Without(a + [x] + b, x) == a + b
  {
    if a == [] {
      assert (a + [x] + b)[1..] == b;
      WithoutNone(b, x);
    } else {
      assert (a + [x] + b)[1..] == a[1..] + [x] + b;
      WithoutAt(a[1..], x, b);
    }
  }

  lemma {:induction false} WithoutNone(s: seq<int>, x: int)
    requires x !in s
    ensures Without(s, x) == s
  {
    if s != [] { WithoutNone(s[1..], x); }
  }

  lemma AddrsMid(a: seq<Tile>, t: Tile, b: seq<Tile>, free: bool)
    ensures Addrs(a + [t] + b, free) == Addrs(a, free) + (if t.free == free then [t.addr] else []) + Addrs(b, free)
  {
    assert a + [t] + b == a + ([t] + b);
    AddrsConcat(a, [t] + b, free);
    assert ([t] + b)[1..] == b;
  }

  /** The list around the tile at index `i`, when that tile is of the listed kind or not. */
  lemma AddrsAround(ts: seq<Tile>, i: int, free: bool)
    requires 0 <= i < |ts|
    ensures Addrs(ts, free) == Addrs(ts[..i], free) +
                               (if ts[i].free == free then [ts[i].addr] else []) + Addrs(ts[i + 1..], free)
  {
    assert ts == ts[..i] + [ts[i]] + ts[i + 1..];
    AddrsMid(ts[..i], ts[i], ts[i + 1..], free);
  }

  // ----- the three edits -----

  /** Takes `size` bytes from the front of free tile `i`; the rest, header included, stays free. */
  function Carve(ts: seq<Tile>, i: int, size: int): seq<Tile> {
    Flipped(Split(ts, i, size), i)
  }

  /** Tile `i` with its kind flipped. */
  function Flipped(ts: seq<Tile>, i: int): seq<Tile> {
    if 0 <= i < |ts| then ts[..i] + [ts[i].(free := !ts[i].free)] + ts[i + 1..] else ts
  }

  /** Splits free tile `i` in two free ones. */
  function Split(ts: seq<Tile>, i: int, size: int): seq<Tile> {
    if !(0 <= i < |ts|) then ts else
    ts[..i] + [Front(ts[i], size), Rear(ts[i], size)] + ts[i + 1..]
  }

  /** Merges tile `i` with its successor when both are free. */
  function JoinNext(ts: seq<Tile>, i: int): seq<Tile> {
    if 0 <= i < |ts| - 1 && ts[i].free && ts[i + 1].free then
      ts[..i] + [Tile(ts[i].addr, ts[i].len + HEADER + ts[i + 1].len, true)] + ts[i + 2..]
    else ts
  }

  /** Merges tile `i` with both neighbours. */
  function Join(ts: seq<Tile>, i: int): seq<Tile> {
    JoinNext(JoinNext(ts, i), i - 1)
  }

  /** Frees tile `i` and merges it with its free neighbours. */
  function Release(ts: seq<Tile>, i: int): seq<Tile> {
    Join(Flipped(ts, i), i)
  }

  /** Splitting a free tile keeps the layout: the remainder is what keeps the top tile free. */
  lemma CarveKeepsLayout(ts: seq<Tile>, max: int, i: int, size: int)
    requires Layout(ts, max) && 0 <= i < |ts| && ts[i].free
    requires 0 <= size && size % 8 == 0 && size + HEADER <= ts[i].len
    ensures Layout(Carve(ts, i, size), max)
  {
    var t := ts[i];
    var a := Tile(t.addr, size, false);
    var b := Tile(t.addr + HEADER + size, t.len - HEADER - size, true);
    CarveIs(ts, i, size);
    TwoForOne(ts, i, a, b, Carve(ts, i, size));
    CarveCoalesced(ts, i, a, b, Carve(ts, i, size));
  }

  lemma CarveIs(ts: seq<Tile>, i: int, size: int)
    requires 0 <= i < |ts|
    ensures var t := ts[i];
            Carve(ts, i, size) == ts[..i] + [Tile(t.addr, size, false), Tile(t.addr + HEADER + size, t.len - HEADER - size, true)] + ts[i + 1..]
  {
    var ss := Split(ts, i, size);
    assert ss[..i] == ts[..i] && ss[i + 1..] == [ss[i + 1]] + ts[i + 1..];
  }

  /** Two tiles in the place of one keep the arena tiled. */
  lemma TwoForOne(ts: seq<Tile>, i: int, a: Tile, b: Tile, ts': seq<Tile>)
    requires Laid(ts, 0) && 0 <= i < |ts| && ts' == ts[..i] + [a, b] + ts[i + 1..]
    requires a.addr == ts[i].addr && 0 <= a.len && a.len % 8 == 0 && b.addr == a.End() && b.End() == ts[i].End() && 0 <= b.len
    ensures Laid(ts', 0) && Span(ts') == Span(ts)
  {
    Middle(ts, i);
    SplitOne(ts[i], a, b, Span(ts[..i]));
    ReplaceMiddle(ts[..i], [ts[i]], [a, b], ts[i + 1..]);
  }

  lemma Middle(ts: seq<Tile>, i: int)
    requires 0 <= i < |ts|
    ensures ts[..i] + [ts[i]] + ts[i + 1..] == ts
  {
  }

  lemma CarveCoalesced(ts: seq<Tile>, i: int, a: Tile, b: Tile, cs: seq<Tile>)
    requires Coalesced(ts) && TopFree(ts) && 0 <= i < |ts| && ts[i].free && !a.free && b.free
    requires cs == ts[..i] + [a, b] + ts[i + 1..]
    ensures Coalesced(cs) && TopFree(cs)
  {
    forall j | 0 <= j < |cs| - 1 && cs[j].free ensures !cs[j + 1].free {
      CarveSeparates(ts, i, a, b, j);
    }
  }

  lemma CarveSeparates(ts: seq<Tile>, i: int, a: Tile, b: Tile, j: int)
    requires Coalesced(ts) && 0 <= i < |ts| && ts[i].free && !a.free && b.free && 0 <= j < |ts|
    ensures var cs := ts[..i] + [a, b] + ts[i + 1..]; cs[j].free ==> !cs[j + 1].free
  {
    var cs := ts[..i] + [a, b] + ts[i + 1..];
    if j < i {
      assert cs[j] == ts[j] && (j + 1 < i ==> cs[j + 1] == ts[j + 1]);
    } else if j > i {
      assert cs[j + 1] == ts[j] && (j > i + 1 ==> cs[j] == ts[j - 1]);
    }
  }

  /** Replacing a run of tiles by another one over the same bytes keeps the arena tiled. */
  lemma ReplaceKeepsSpan(ts: seq<Tile>, i: int, j: int, new_: seq<Tile>)
    requires 0 <= i <= j <= |ts| && Laid(ts, 0)
    requires Laid(ts[i..j], Span(ts[..i])) ==> Laid(new_, Span(ts[..i])) && Span(new_) == Span(ts[i..j])
    ensures Laid(ts[..i] + new_ + ts[j..], 0) && Span(ts[..i] + new_ + ts[j..]) == Span(ts)
  {
    assert ts == ts[..i] + ts[i..j] + ts[j..];
    ReplaceMiddle(ts[..i], ts[i..j], new_, ts[j..]);
  }

  lemma ReplaceMiddle(a: seq<Tile>, old_: seq<Tile>, new_: seq<Tile>, b: seq<Tile>)
    requires Laid(a + old_ + b, 0)
    requires Laid(old_, Span(a)) ==> Laid(new_, Span(a)) && Span(new_) == Span(old_)
    ensures Laid(a + new_ + b, 0) && Span(a + new_ + b) == Span(a + old_ + b)
  {
    MiddleLaid(a, old_, b);
    MiddleLaid(a, new_, b);
  }

  lemma MiddleLaid(a: seq<Tile>, m: seq<Tile>, b: seq<Tile>)
    ensures Laid(a + m + b, 0) <==> Laid(a, 0) && Laid(m, Span(a)) && Laid(b, Span(a) + Span(m))
    ensures Span(a + m + b) == Span(a) + Span(m) + Span(b)
  {
    LaidConcat(a + m, b, 0);
    LaidConcat(a, m, 0);
    SpanConcat(a + m, b);
    SpanConcat(a, m);
  }

  /** Merging two neighbours only drops the second one from the free list. */
  lemma JoinNextKeepsTiles(ts: seq<Tile>, i: int)
    requires Laid(ts, 0)
    ensures Laid(JoinNext(ts, i), 0) && Span(JoinNext(ts, i)) == Span(ts)
    ensures Addrs(JoinNext(ts, i), false) == Addrs(ts, false)
    ensures JoinNext(ts, i) != ts ==>
      Addrs(ts, true) == Addrs(ts[..i], true) + [ts[i].addr, ts[i + 1].addr] + Addrs(ts[i + 2..], true) &&
      Addrs(JoinNext(ts, i), true) == Addrs(ts[..i], true) + [ts[i].addr] + Addrs(ts[i + 2..], true)
  {
    var js := JoinNext(ts, i);
    if js != ts {
      var t := Tile(ts[i].addr, ts[i].len + HEADER + ts[i + 1].len, true);
      var pair := ts[i..i + 2];
      assert pair[1..] == [ts[i + 1]] && pair[1..][1..] == [];
      assert Span(pair) == Span([t]);
      assert Laid(pair, Span(ts[..i])) ==> Laid(pair[1..], ts[i].End());
      ReplaceKeepsSpan(ts, i, i + 2, [t]);
      AddrsPair(ts, i, true);
      AddrsPair(ts, i, false);
      assert js[..i] == ts[..i] && js[i] == t && js[i + 1..] == ts[i + 2..];
      AddrsAround(js, i, true);
      AddrsAround(js, i, false);
    }
  }

  /** The list position of the dropped address. */
  lemma JoinNextList(ts: seq<Tile>, i: int) returns (k: int)
    requires Laid(ts, 0) && 0 <= i < |ts| - 1 && ts[i].free && ts[i + 1].free
    ensures var s := Addrs(ts, true);
            && 0 < k < |s| && s[k - 1] == ts[i].addr && s[k] == ts[i + 1].addr
            && Addrs(JoinNext(ts, i), true) == s[..k] + s[k + 1..]
  {
    JoinNextKeepsTiles(ts, i);
    assert |JoinNext(ts, i)| == |ts| - 1;
    k := |Addrs(ts[..i], true)| + 1;
  }

  lemma AddrsPair(ts: seq<Tile>, i: int, free: bool)
    requires 0 <= i < |ts| - 1 && ts[i].free && ts[i + 1].free
    ensures Addrs(ts, free) == Addrs(ts[..i], free) +
                               (if free then [ts[i].addr, ts[i + 1].addr] else []) + Addrs(ts[i + 2..], free)
  {
    AddrsAround(ts, i, free);
    assert ts[i + 1..][1..] == ts[i + 2..];
  }

  /** Freeing a tile keeps the layout and takes exactly that tile off the allocated list. */
  lemma ReleaseKeepsLayout(ts: seq<Tile>, max: int, i: int)
    requires Layout(ts, max) && 0 <= i < |ts| && !ts[i].free
    ensures Layout(Release(ts, i), max)
    ensures Addrs(Release(ts, i), false) == Addrs(ts[..i], false) + Addrs(ts[i + 1..], false)
  {
    var ts1 := Flipped(ts, i);
    FlipFree(ts, i);
    JoinNextKeepsTiles(ts1, i);
    JoinNextKeepsTiles(JoinNext(ts1, i), i - 1);
    JoinCoalesces(ts, i);
  }

  lemma FlipFree(ts: seq<Tile>, i: int)
    requires Laid(ts, 0) && 0 <= i < |ts| && !ts[i].free
    ensures Laid(Flipped(ts, i), 0) && Span(Flipped(ts, i)) == Span(ts)
    ensures Addrs(Flipped(ts, i), false) == Addrs(ts[..i], false) + Addrs(ts[i + 1..], false)
  {
    FlipKeepsTiles(ts, i);
    AddrsMid(ts[..i], ts[i].(free := true), ts[i + 1..], false);
  }

  /** No two neighbouring tiles are both free, except possibly tiles `p` and `p + 1`. */
  ghost predicate CoalescedBut(ts: seq<Tile>, p: int, q: int) {
    forall j {:trigger ts[j].free} :: 0 <= j < |ts| - 1 && j != p && j != q && ts[j].free ==> !ts[j + 1].free
  }

  lemma JoinNextCoalesces(ts: seq<Tile>, i: int, q: int)
    requires CoalescedBut(ts, i, q) && TopFree(ts) && q < i
    ensures CoalescedBut(JoinNext(ts, i), q, q) && TopFree(JoinNext(ts, i))
  {
    var js := JoinNext(ts, i);
    if |js| != |ts| {
      forall j | 0 <= j < |js| - 1 && j != q && js[j].free ensures !js[j + 1].free {
        if j < i {
          assert js[j] == ts[j] && js[j + 1].free == ts[j + 1].free;
        } else {
          assert js[j].free == ts[j + 1].free && js[j + 1] == ts[j + 2];
        }
      }
    }
  }

  lemma JoinCoalesces(ts: seq<Tile>, i: int)
    requires Coalesced(ts) && TopFree(ts) && 0 <= i < |ts| && !ts[i].free
    ensures Coalesced(Release(ts, i)) && TopFree(Release(ts, i))
  {
    var fs := Flipped(ts, i);
    assert CoalescedBut(fs, i, i - 1);
    JoinNextCoalesces(fs, i, i - 1);
    JoinNextCoalesces(JoinNext(fs, i), i - 1, -2);
  }

  // ----- neighbours in the free list are neighbours in the arena exactly when they touch -----

  lemma FreeIndex(ts: seq<Tile>, i: int) returns (k: int)
    requires 0 <= i < |ts| && ts[i].free
    ensures k == |Addrs(ts[..i], true)| < |Addrs(ts, true)| && Addrs(ts, true)[k] == ts[i].addr
  {
    AddrsAround(ts, i, true);
    k := |Addrs(ts[..i], true)|;
  }

  lemma FreePredecessor(ts: seq<Tile>, i: int) returns (j: int)
    requires Laid(ts, 0) && 0 <= i < |ts| && ts[i].free
    ensures Addrs(ts[..i], true) == [] ==> i == 0 || !ts[i - 1].free
    ensures Addrs(ts[..i], true) != [] ==>
      && 0 <= j < i && ts[j].free && Addrs(ts[..i], true)[|Addrs(ts[..i], true)| - 1] == ts[j].addr
      && (ts[j].End() == ts[i].addr <==> ts[i - 1].free)
      && (ts[j].End() == ts[i].addr ==> j == i - 1)
  {
    var before := Addrs(ts[..i], true);
    LaidBounds(ts, 0);
    j := i - 1;
    if i > 0 {
      AddrsAround(ts[..i], i - 1, true);
      assert ts[..i][..i - 1] == ts[..i - 1] && ts[..i][i..] == [];
      if ts[i - 1].free {
        LaidNext(ts, i - 1);
      } else if before != [] {
        AddrsMember(ts[..i - 1], true, before[|before| - 1]);
        j :| 0 <= j < i - 1 && ts[..i - 1][j].addr == before[|before| - 1] && ts[..i - 1][j].free;
        assert ts[j].End() <= ts[i - 1].addr && ts[i - 1].End() <= ts[i].addr;
      }
    }
  }

  /** The next tile starts where this one ends. */
  lemma LaidNext(ts: seq<Tile>, i: int)
    requires Laid(ts, 0) && 0 <= i < |ts| - 1
    ensures ts[i].End() == ts[i + 1].addr
  {
    assert ts == ts[..i] + ts[i..];
    LaidConcat(ts[..i], ts[i..], 0);
    assert ts[i..][1..] == ts[i + 1..];
  }

  lemma FreeSuccessor(ts: seq<Tile>, i: int)
    requires Laid(ts, 0) && 0 <= i < |ts| && ts[i].free
    ensures var after := Addrs(ts[i + 1..], true);
            if i + 1 < |ts| && ts[i + 1].free then after != [] && after[0] == ts[i + 1].addr == ts[i].End()
            else after == [] || after[0] > ts[i].End()
  {
    assert ts == ts[..i] + ts[i..];
    LaidConcat(ts[..i], ts[i..], 0);
    assert ts[i..][1..] == ts[i + 1..];
    if i + 1 < |ts| {
      assert ts[i + 1..][1..] == ts[i + 2..];
      AddrsSorted(ts[i + 2..], true, ts[i + 1].End());
    }
  }

  // ----- where an edited tile stands in the two lists -----

  ghost predicate Below(s: seq<int>, x: int) { forall j :: 0 <= j < |s| ==> s[j] < x }

  ghost predicate Above(s: seq<int>, x: int) { forall j :: 0 <= j < |s| ==> x < s[j] }

  /** Listed tiles below index `i` come before it, the others after it. */
  lemma AddrsOrder(ts: seq<Tile>, i: int, free: bool)
    requires Laid(ts, 0) && 0 <= i < |ts|
    ensures Below(Addrs(ts[..i], free), ts[i].addr) && Above(Addrs(ts[i + 1..], free), ts[i].addr)
  {
    assert ts == ts[..i] + ts[i..];
    LaidConcat(ts[..i], ts[i..], 0);
    assert ts[i..][1..] == ts[i + 1..];
    AddrsSorted(ts[..i], free, 0);
    AddrsSorted(ts[i + 1..], free, ts[i].End());
    LaidBounds(ts, 0);
  }

  /** The list of the other kind, and the place in it where the address of tile `i` belongs. */
  lemma OtherList(ts: seq<Tile>, i: int) returns (k: int)
    requires Laid(ts, 0) && 0 <= i < |ts|
    ensures var s := Addrs(ts, !ts[i].free);
            && 0 <= k <= |s| && s[..k] == Addrs(ts[..i], !ts[i].free) && s[k..] == Addrs(ts[i + 1..], !ts[i].free)
            && ts[i].addr !in s
            && (forall j :: 0 <= j < k ==> s[j] < ts[i].addr) && (forall j :: k <= j < |s| ==> ts[i].addr < s[j])
  {
    AddrsAround(ts, i, !ts[i].free);
    AddrsOrder(ts, i, !ts[i].free);
    var s := Addrs(ts, !ts[i].free);
    k := |Addrs(ts[..i], !ts[i].free)|;
  }

  /** The list tile `i` is in, and its place there. */
  lemma OwnList(ts: seq<Tile>, i: int) returns (k: int)
    requires Laid(ts, 0) && 0 <= i < |ts|
    ensures var s := Addrs(ts, ts[i].free);
            && Sorted(s) && 0 <= k < |s| && s[k] == ts[i].addr
            && s[..k] == Addrs(ts[..i], ts[i].free) && s[k + 1..] == Addrs(ts[i + 1..], ts[i].free)
  {
    AddrsAround(ts, i, ts[i].free);
    AddrsSorted(ts, ts[i].free, 0);
    k := |Addrs(ts[..i], ts[i].free)|;
  }

  /** No block is on both lists. */
  lemma ListsDisjoint(ts: seq<Tile>)
    requires Laid(ts, 0)
    ensures forall x :: x in Addrs(ts, false) ==> x !in Addrs(ts, true)
  {
    forall x | x in Addrs(ts, false) ensures x !in Addrs(ts, true) {
      OneKind(ts, x);
    }
  }

  /** An address is on one list only. */
  lemma OneKind(ts: seq<Tile>, x: int)
    requires Laid(ts, 0) && x in Addrs(ts, false)
    ensures x !in Addrs(ts, true)
  {
    AddrsMember(ts, true, x);
    AddrsMember(ts, false, x);
    var i :| 0 <= i < |ts| && ts[i].addr == x && !ts[i].free;
    forall j | 0 <= j < |ts| && j != i ensures ts[j].addr != x {
      AddrsDiffer(ts, i, j);
    }
  }

  lemma AddrsDiffer(ts: seq<Tile>, i: int, j: int)
    requires Laid(ts, 0) && 0 <= i < |ts| && 0 <= j < |ts| && i != j
    ensures ts[i].addr != ts[j].addr
  {
    LaidBounds(ts, 0);
    assert i < j ==> ts[i].End() <= ts[j].addr;
    assert j < i ==> ts[j].End() <= ts[i].addr;
  }

  lemma FlipKeepsTiles(ts: seq<Tile>, i: int)
    requires Laid(ts, 0) && 0 <= i < |ts|
    ensures Laid(Flipped(ts, i), 0) && Span(Flipped(ts, i)) == Span(ts)
  {
    var t, u := ts[i], ts[i].(free := !ts[i].free);
    assert ts[i..i + 1] == [t] && [t][1..] == [] && [u][1..] == [];
    assert Span([u]) == Span([t]) && (Laid([t], Span(ts[..i])) ==> Laid([u], Span(ts[..i])));
    ReplaceKeepsSpan(ts, i, i + 1, [u]);
  }

  /** Flipping the kind of tile `i` moves its address from one list to the other. */
  lemma FlipList(ts: seq<Tile>, i: int, free: bool)
    requires 0 <= i < |ts|
    ensures ts[i].free == free ==> Addrs(Flipped(ts, i), free) == Addrs(ts[..i], free) + Addrs(ts[i + 1..], free)
    ensures ts[i].free != free ==> Addrs(Flipped(ts, i), free) == Addrs(ts[..i], free) + [ts[i].addr] + Addrs(ts[i + 1..], free)
  {
    var t := ts[i].(free := !ts[i].free);
    AddrsMid(ts[..i], t, ts[i + 1..], free);
    FlipIs(ts, i, t, Flipped(ts, i));
    assert Addrs(ts[..i], free) + [] == Addrs(ts[..i], free);
  }

  lemma FlipIs(ts: seq<Tile>, i: int, t: Tile, ts': seq<Tile>)
    requires 0 <= i < |ts| && t == ts[i].(free := !ts[i].free) && ts' == Flipped(ts, i)
    ensures ts' == ts[..i] + [t] + ts[i + 1..]
  {
  }

  /** Because the topmost tile is free, a freed address never goes to the end of the free list. */
  lemma NeverLast(ts: seq<Tile>, i: int)
    requires TopFree(ts) && 0 <= i < |ts| && !ts[i].free
    ensures |Addrs(ts[..i], true)| < |Addrs(ts, true)|
  {
    AddrsAround(ts, i, true);
    AddrsMember(ts[i + 1..], true, ts[|ts| - 1].addr);
    assert ts[i + 1..][|ts| - 2 - i] == ts[|ts| - 1];
  }

  lemma FreedList(ts: seq<Tile>, i: int)
    requires Laid(ts, 0) && 0 <= i < |ts| && !ts[i].free
    ensures Without(Addrs(ts, false), ts[i].addr) == Addrs(ts[..i], false) + Addrs(ts[i + 1..], false)
  {
    var a, b := Addrs(ts[..i], false), Addrs(ts[i + 1..], false);
    assert Addrs(ts, false) == a + [ts[i].addr] + b by { AddrsAround(ts, i, false); }
    AddrsOrder(ts, i, false);
    WithoutAt(a, ts[i].addr, b);
  }

  /** Splitting a free tile puts the remainder right behind it on the free list. */
  lemma SplitLists(ts: seq<Tile>, i: int, size: int, k: int)
    requires Laid(ts, 0) && 0 <= i < |ts| && ts[i].free && 0 <= size && size % 8 == 0 && size + HEADER <= ts[i].len
    requires k == |Addrs(ts[..i], true)|
    ensures Laid(Split(ts, i, size), 0) && Span(Split(ts, i, size)) == Span(ts)
    ensures Addrs(Split(ts, i, size), false) == Addrs(ts, false)
    ensures var f := Addrs(ts, true);
            && k < |f| && f[k] == ts[i].addr && ts[i].addr + HEADER + size !in f
            && Addrs(Split(ts, i, size), true) == f[..k + 1] + [ts[i].addr + HEADER + size] + f[k + 1..]
  {
    SplitTiles(ts, i, size);
    SplitAddrs(ts, i, size, false);
    AddrsAround(ts, i, false);
    SplitFree(ts, i, size, k);
  }

  lemma SplitTiles(ts: seq<Tile>, i: int, size: int)
    requires Laid(ts, 0) && 0 <= i < |ts| && 0 <= size && size % 8 == 0 && size + HEADER <= ts[i].len
    ensures Laid(Split(ts, i, size), 0) && Span(Split(ts, i, size)) == Span(ts)
  {
    SplitIs(ts, i, size, Split(ts, i, size));
    TwoForOne(ts, i, Front(ts[i], size), Rear(ts[i], size), Split(ts, i, size));
  }

  /** The two parts of a split tile. */
  function Front(t: Tile, size: int): Tile { Tile(t.addr, size, true) }

  function Rear(t: Tile, size: int): Tile { Tile(t.addr + HEADER + size, t.len - HEADER - size, true) }

  lemma SplitIs(ts: seq<Tile>, i: int, size: int, ts': seq<Tile>)
    requires 0 <= i < |ts| && ts' == Split(ts, i, size)
    ensures ts' == ts[..i] + [Front(ts[i], size), Rear(ts[i], size)] + ts[i + 1..]
  {
  }

  /** Two tiles in the place of one. */
  lemma SplitOne(t: Tile, a: Tile, b: Tile, lo: int)
    requires a.addr == t.addr && 0 <= a.len && a.len % 8 == 0 && b.addr == a.End() && b.End() == t.End() && 0 <= b.len
    ensures Span([a, b]) == Span([t])
    ensures Laid([t], lo) ==> Laid([a, b], lo)
  {
    assert [a, b][1..] == [b] && [b][1..] == [] && [t][1..] == [];
    assert Laid([b], a.End()) <==> b.len % 8 == 0;
  }

  /** The free list after a split. */
  lemma SplitFree(ts: seq<Tile>, i: int, size: int, k: int)
    requires Laid(Split(ts, i, size), 0) && 0 <= i < |ts| && ts[i].free && k == |Addrs(ts[..i], true)|
    ensures var f := Addrs(ts, true);
            && k < |f| && f[k] == ts[i].addr && ts[i].addr + HEADER + size !in f
            && Addrs(Split(ts, i, size), true) == f[..k + 1] + [ts[i].addr + HEADER + size] + f[k + 1..]
  {
    SplitAddrs(ts, i, size, true);
    AddrsAround(ts, i, true);
    AddrsSorted(Split(ts, i, size), true, 0);
    InsertedOnce(Addrs(ts[..i], true), ts[i].addr, ts[i].addr + HEADER + size, Addrs(ts[i + 1..], true));
  }

  lemma InsertedOnce(a: seq<int>, x: int, n: int, b: seq<int>)
    requires Sorted(a + [x, n] + b)
    ensures var f := a + [x] + b; n !in f && f[..|a| + 1] + [n] + f[|a| + 1..] == a + [x, n] + b
  {
    var f, g, k := a + [x] + b, a + [x, n] + b, |a|;
    InsertedSlices(a, x, n, b);
    assert g[k + 1] == n;
    forall q | 0 <= q < |f| ensures f[q] != n {
      if q <= k { assert f[q] == g[q]; } else { assert f[q] == g[q + 1]; }
    }
  }

  lemma InsertedSlices(a: seq<int>, x: int, n: int, b: seq<int>)
    ensures var f := a + [x] + b; f[..|a| + 1] + [n] + f[|a| + 1..] == a + [x, n] + b
  {
    var f := a + [x] + b;
    assert f[..|a| + 1] == a + [x] && f[|a| + 1..] == b;
  }

  lemma SplitAddrs(ts: seq<Tile>, i: int, size: int, free: bool)
    requires 0 <= i < |ts|
    ensures Addrs(Split(ts, i, size), free) ==
            Addrs(ts[..i], free) + (if free then [ts[i].addr, ts[i].addr + HEADER + size] else []) + Addrs(ts[i + 1..], free)
  {
    var t, ss := ts[i], Split(ts, i, size);
    assert ss[..i] == ts[..i] && ss[i + 2..] == ts[i + 1..];
    AddrsPair(ss, i, free);
  }

  // ----- first fit -----

  /** The index of the lowest free tile with at least `limit` bytes of data, or |ts|. */
  function FirstFit(ts: seq<Tile>, limit: int): (i: nat)
    ensures i <= |ts|
    ensures i < |ts| ==> ts[i].free && limit <= ts[i].len
    ensures forall j :: 0 <= j < i && ts[j].free ==> ts[j].len < limit
  {
    if ts == [] || (ts[0].free && limit <= ts[0].len) then 0 else 1 + FirstFit(ts[1..], limit)
  }

  lemma FirstFitIs(ts: seq<Tile>, limit: int, i: nat)
    requires i <= |ts| && (i < |ts| ==> ts[i].free && limit <= ts[i].len)
    requires forall j :: 0 <= j < i && ts[j].free ==> ts[j].len < limit
    ensures FirstFit(ts, limit) == i
  {
    var k := FirstFit(ts, limit);
    assert k < |ts| ==> ts[k].free && limit <= ts[k].len;
    assert i < |ts| ==> ts[i].free && limit <= ts[i].len;
  }

  // ----- garbage collection -----

  /** Freeing never makes an allocated tile, and leaves the other allocated tiles as they are. */
  lemma ReleaseKeepsUsed(ts: seq<Tile>, i: int, t: Tile)
    requires 0 <= i < |ts| && !ts[i].free && !t.free
    ensures t in Release(ts, i) ==> t in ts
    ensures t in ts && t != ts[i] ==> t in Release(ts, i)
  {
    var fs := Flipped(ts, i);
    assert fs[..i] == ts[..i] && fs[i + 1..] == ts[i + 1..];
    assert t in fs ==> t in ts;
    assert t in ts && t != ts[i] ==> t in fs by {
      if p :| 0 <= p < |ts| && ts[p] == t && t != ts[i] { assert fs[p] == t; }
    }
    JoinNextKeepsUsed(fs, i, t);
    JoinNextKeepsUsed(JoinNext(fs, i), i - 1, t);
  }

  lemma JoinNextKeepsUsed(ts: seq<Tile>, i: int, t: Tile)
    requires !t.free
    ensures t in JoinNext(ts, i) <==> t in ts
  {
    var js := JoinNext(ts, i);
    if |js| != |ts| {
      if p :| 0 <= p < |ts| && ts[p] == t {
        assert if p < i then js[p] == t else js[p - 1] == t;
      }
    }
  }

  /** Carving adds one allocated tile and leaves the others as they are. */
  lemma CarveUsed(ts: seq<Tile>, i: int, size: int, t: Tile)
    requires 0 <= i < |ts| && ts[i].free && !t.free
    ensures t in Carve(ts, i, size) <==> t in ts || t == Tile(ts[i].addr, size, false)
  {
    var cs := Carve(ts, i, size);
    assert cs[..i] == ts[..i] && cs[i] == Tile(ts[i].addr, size, false) && cs[i + 1].free && cs[i + 2..] == ts[i + 1..];
    if p :| 0 <= p < |ts| && ts[p] == t {
      assert cs[if p < i then p else p + 1] == t;
    }
    if p :| 0 <= p < |cs| && cs[p] == t && p != i {
      assert ts[if p < i then p else p - 1] == t;
    }
  }

  // ----- what the layout means -----

  /** Every byte of the arena belongs to exactly one block, header or data. */
  lemma {:induction false} TilesCover(ts: seq<Tile>, lo: int, x: int)
    requires Laid(ts, lo) && lo <= x < lo + Span(ts)
    ensures exists i :: 0 <= i < |ts| && ts[i].addr <= x < ts[i].End()
    ensures forall i, j :: 0 <= i < |ts| && 0 <= j < |ts| && ts[i].addr <= x < ts[i].End() && ts[j].addr <= x < ts[j].End() ==> i == j
  {
    LaidBounds(ts, lo);
    if x < ts[0].End() {
      assert ts[0].addr <= x;
    } else {
      TilesCover(ts[1..], ts[0].End(), x);
      var i :| 0 <= i < |ts| - 1 && ts[1..][i].addr <= x < ts[1..][i].End();
      assert ts[i + 1] == ts[1..][i];
    }
  }

  /** The allocated blocks determine the whole heap: the free blocks are the maximal gaps. */
  lemma {:induction false} Canonical(ts: seq<Tile>, ts': seq<Tile>, lo: int)
    requires Laid(ts, lo) && Laid(ts', lo) && Span(ts) == Span(ts') && Coalesced(ts) && Coalesced(ts')
    requires forall t: Tile :: !t.free ==> (t in ts <==> t in ts')
    ensures ts == ts'
  {
    LaidBounds(ts, lo);
    LaidBounds(ts', lo);
    if ts != [] && ts' != [] {
      SameFirst(ts, ts', lo);
      LaidBounds(ts[1..], ts[0].End());
      forall t: Tile | !t.free ensures t in ts[1..] <==> t in ts'[1..] {
        TailMember(ts, t, lo);
        TailMember(ts', t, lo);
      }
      Coalesced1(ts);
      Coalesced1(ts');
      Canonical(ts[1..], ts'[1..], ts[0].End());
    }
  }

  lemma Coalesced1(ts: seq<Tile>)
    requires Coalesced(ts) && ts != []
    ensures Coalesced(ts[1..])
  {
    forall i | 0 <= i < |ts| - 2 && ts[1..][i].free ensures !ts[1..][i + 1].free {
      assert ts[i + 1].free;
    }
  }

  lemma TailMember(ts: seq<Tile>, t: Tile, lo: int)
    requires Laid(ts, lo) && ts != []
    ensures t in ts[1..] <==> t in ts && t != ts[0]
  {
    LaidBounds(ts, lo);
    if t in ts && t != ts[0] {
      var i :| 0 <= i < |ts| && ts[i] == t;
      assert ts[1..][i - 1] == t;
    }
  }

  lemma SameFirst(ts: seq<Tile>, ts': seq<Tile>, lo: int)
    requires Laid(ts, lo) && Laid(ts', lo) && Span(ts) == Span(ts') && Coalesced(ts) && Coalesced(ts')
    requires forall t: Tile :: !t.free ==> (t in ts <==> t in ts')
    requires ts != [] && ts' != []
    ensures ts[0] == ts'[0]
  {
    FirstNoLonger(ts, ts', lo);
    FirstNoLonger(ts', ts, lo);
  }

  lemma FirstNoLonger(ts: seq<Tile>, ts': seq<Tile>, lo: int)
    requires Laid(ts, lo) && Laid(ts', lo) && Span(ts) == Span(ts') && Coalesced(ts)
    requires forall t: Tile :: !t.free ==> (t in ts <==> t in ts')
    requires ts != [] && ts' != []
    ensures !ts[0].free ==> ts'[0] == ts[0]
    ensures ts[0].free ==> ts'[0].free && ts'[0].len <= ts[0].len
  {
    LaidBounds(ts, lo);
    LaidBounds(ts', lo);
    if !ts[0].free {
      assert ts[0] in ts';
    } else {
      var t := ts'[0];
      assert t in ts';
      assert !t.free ==> t in ts;
      if |ts| > 1 {
        assert !ts[1].free && ts[1] in ts && ts[1] in ts';
        assert ts[1..][0].addr == ts[0].End();
        var j :| 0 <= j < |ts'| && ts'[j] == ts[1];
        assert ts'[0].End() <= ts'[j].addr;
      }
    }
  }

  /** Freeing the block just allocated restores the heap. */
  lemma ReleaseUndoesCarve(ts: seq<Tile>, max: int, i: int, size: int)
    requires Layout(ts, max) && 0 <= i < |ts| && ts[i].free && 0 <= size && size + HEADER <= ts[i].len
    ensures Release(Carve(ts, i, size), i) == ts
  {
    FlippedTwice(Split(ts, i, size), i);
    SplitJoined(ts, i, size);
    var t := ts[i];
    assert i > 0 && ts[i - 1].free ==> !t.free;
    assert JoinNext(ts, i - 1) == ts;
  }

  lemma FlippedTwice(ts: seq<Tile>, i: int)
    requires 0 <= i < |ts|
    ensures Flipped(Flipped(ts, i), i) == ts
  {
  }

  lemma SplitJoined(ts: seq<Tile>, i: int, size: int)
    requires 0 <= i < |ts| && ts[i].free
    ensures JoinNext(Split(ts, i, size), i) == ts
  {
    var ss := Split(ts, i, size);
    assert ss[..i] == ts[..i] && ss[i + 2..] == ts[i + 1..];
    Middle(ts, i);
  }

  // ----- every run -----

  /** One allocation from a large enough free tile, or one release. */
  ghost predicate Step(ts: seq<Tile>, ts': seq<Tile>) {
    || (exists i, size :: 0 <= i < |ts| && ts[i].free && 0 <= size && size % 8 == 0 && size + HEADER <= ts[i].len
          && ts' == Carve(ts, i, size))
    || (exists i :: 0 <= i < |ts| && !ts[i].free && ts' == Release(ts, i))
  }

  /** In every state of every run the layout holds; in particular the topmost tile is free. */
  lemma RunKeepsLayout(run: seq<seq<Tile>>, max: int)
    requires max >= HEADER && max % 8 == 0 && run != [] && run[0] == [Tile(0, max - HEADER, true)]
    requires forall n :: 0 <= n < |run| - 1 ==> Step(run[n], run[n + 1])
    ensures forall n :: 0 <= n < |run| ==> Layout(run[n], max)
  {
    forall n | 0 <= n < |run| ensures Layout(run[n], max) {
      RunLayout(run, max, n);
    }
  }

  lemma {:induction false} RunLayout(run: seq<seq<Tile>>, max: int, n: nat)
    requires max >= HEADER && max % 8 == 0 && n < |run| && run[0] == [Tile(0, max - HEADER, true)]
    requires forall k :: 0 <= k < |run| - 1 ==> Step(run[k], run[k + 1])
    ensures Layout(run[n], max)
  {
    if n == 0 {
      assert run[0][1..] == [];
    } else {
      RunLayout(run, max, n - 1);
      assert Step(run[n - 1], run[n - 1 + 1]);
      StepKeepsLayout(run[n - 1], run[n], max);
    }
  }

  lemma StepKeepsLayout(ts: seq<Tile>, ts': seq<Tile>, max: int)
    requires Layout(ts, max) && Step(ts, ts')
    ensures Layout(ts', max)
  {
    if i, size :| 0 <= i < |ts| && ts[i].free && 0 <= size && size % 8 == 0 && size + HEADER <= ts[i].len && ts' == Carve(ts, i, size) {
      CarveKeepsLayout(ts, max, i, size);
    } else {
      var i :| 0 <= i < |ts| && !ts[i].free && ts' == Release(ts, i);
      ReleaseKeepsLayout(ts, max, i);
    }
  }
}
