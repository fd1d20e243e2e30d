/** Setting a clock's rate and reading it back from the registers. */
module ClockRate {
  import opened Common
  import opened ClockPower

  // ----- numbers in fields -----

  /** The bits of a number, the lowest one at position `i`. */
  function OfFrom(v: nat, i: nat): (w: Word)
    ensures forall b :: b in w ==> i <= b
    decreases 32 - i, v
  {
    if i >= 32 then {} else (if v % 2 == 1 then {i} else {}) + OfFrom(v / 2, i + 1)
  }

  function Of(v: nat): Word { OfFrom(v, 0) }

  lemma {:induction false} NumAgrees(v: Word, w: Word, i: nat)
    requires forall b :: b >= i ==> (b in v <==> b in w)
    ensures NumFrom(v, i) == NumFrom(w, i)
    decreases 32 - i
  {
    if i < 32 { NumAgrees(v, w, i + 1); }
  }

  lemma {:induction false} NumOf(v: nat, i: nat)
    requires i <= 32 && v < Pow2(32 - i)
    ensures NumFrom(OfFrom(v, i), i) == v
    decreases 32 - i
  {
    if i < 32 {
      NumOf(v / 2, i + 1);
      NumAgrees(OfFrom(v, i), OfFrom(v / 2, i + 1), i + 1);
    }
  }

  lemma {:induction false} OfBelow(v: nat, i: nat, k: nat)
    requires v < Pow2(k)
    ensures forall b :: b in OfFrom(v, i) ==> b < i + k
    decreases 32 - i
  {
    if i < 32 {
      if k == 0 {
        assert v / 2 == 0;
        OfBelow(v / 2, i + 1, 0);
        OfZero(i + 1);
      } else {
        OfBelow(v / 2, i + 1, k - 1);
      }
    }
  }

  lemma {:induction false} OfZero(i: nat)
    ensures OfFrom(0, i) == {}
    decreases 32 - i
  {
    if i < 32 { OfZero(i + 1); }
  }

  /** The number fits the mask: each of its bits has a place. */
  predicate Fits(v: nat, mask: Word)
    requires mask != {}
  {
    Of(v) <= ShiftRight(mask, Shift(mask))
  }

  /** A word with the lowest `k` bits set. */
  function Low(k: nat): Word { set b | b in ALL && b < k }

  lemma {:induction false} NumLow(i: nat, k: nat)
    requires i <= k <= 32
    ensures NumFrom(Low(k), i) == Pow2(k - i) - 1
    decreases 32 - i
  {
    if i < 32 {
      if i < k { NumLow(i + 1, k); } else { NumAgrees(Low(k), {}, i); NumZero(i); }
    }
  }

  lemma {:induction false} NumZero(i: nat)
    ensures NumFrom({}, i) == 0
    decreases 32 - i
  {
    if i < 32 { NumZero(i + 1); }
  }

  /** For a mask without gaps, a number fits exactly when the driver accepts it. */
  lemma ContiguousFits(v: nat, mask: Word, k: nat)
    requires mask != {} && k <= 32 && v < WORDS && ShiftRight(mask, Shift(mask)) == Low(k)
    ensures Fits(v, mask) <==> v <= Num(ShiftRight(mask, Shift(mask)))
  {
    NumLow(0, k);
    Pow32();
    NumOf(v, 0);
    if v <= Num(Low(k)) {
      OfBelow(v, 0, k);
    }
    if Fits(v, mask) {
      NumSubset(Of(v), Low(k), 0);
    }
  }

  lemma Pow32()
    ensures Pow2(32) == WORDS
  {
    assert Pow2(8) == 256;
    assert Pow2(16) == 0x1_0000;
    assert Pow2(24) == 0x100_0000;
  }

  /** What was written is accepted and read back exactly when it fits. */
  lemma ReadsBack(r: Word, v: nat, mask: Word)
    requires mask != {} && v < WORDS
    ensures Fits(v, mask) ==> Num(Of(v)) <= Num(ShiftRight(mask, Shift(mask)))
    ensures Read((r - mask) + ShiftLeft(Of(v), Shift(mask)), mask) == Of(v) <==> Fits(v, mask)
  {
    var s, w := Shift(mask), Of(v);
    var x := (r - mask) + ShiftLeft(w, s);
    if Fits(v, mask) {
      NumSubset(w, ShiftRight(mask, s), 0);
      HasPlace(w, mask, s);
      assert x * mask == ShiftLeft(w, s);
    }
    RightSubset(x * mask, mask, s);
  }

  lemma HasPlace(w: Word, mask: Word, s: nat)
    requires w <= ShiftRight(mask, s)
    ensures ShiftLeft(w, s) <= mask && ShiftRight(ShiftLeft(w, s), s) == w
  {
    LeftSubset(w, mask, s);
    ShiftedBack(w, mask, s);
  }

  lemma LeftSubset(w: Word, mask: Word, s: nat)
    requires w <= ShiftRight(mask, s)
    ensures ShiftLeft(w, s) <= mask
  {
    forall b | b in w ensures b + s in mask {
      assert b in ShiftRight(mask, s);
    }
  }

  lemma ShiftedBack(w: Word, mask: Word, s: nat)
    requires w <= ShiftRight(mask, s)
    ensures ShiftRight(ShiftLeft(w, s), s) == w
  {
    forall b ensures b in ShiftRight(ShiftLeft(w, s), s) <==> b in w {
      if b in w { assert b + s in ShiftLeft(w, s); }
    }
  }

  // ----- fields that do not disturb each other -----

  /** The field's value has a place in its mask. */
  ghost predicate Placed(f: Option<Field>) {
    f.Some? ==> f.value.mask != {} && f.value.value <= ShiftRight(f.value.mask, Shift(f.value.mask))
  }

  /** Writing a field whose value has a place changes nothing outside its mask. */
  lemma WriteElsewhere(regs: seq<Word>, f: Option<Field>, o: nat)
    requires FieldOk(f, |regs|) && Placed(f) && o < |regs|
    ensures FieldWritten(regs, f)[o] - Mask(f, o) == regs[o] - Mask(f, o)
  {
    if f.Some? {
      HasPlace(f.value.value, f.value.mask, Shift(f.value.mask));
    }
  }

  /** Writing a field whose value has a place puts it there. */
  lemma WriteThere(regs: seq<Word>, f: Field)
    requires FieldOk(Some(f), |regs|) && Placed(Some(f))
    ensures Read(FieldWritten(regs, Some(f))[f.reg], f.mask) == f.value
  {
    var s := Shift(f.mask);
    NumSubset(f.value, ShiftRight(f.mask, s), 0);
    HasPlace(f.value, f.mask, s);
    assert ((regs[f.reg] - f.mask) + ShiftLeft(f.value, s)) * f.mask == ShiftLeft(f.value, s);
  }

  ghost predicate Apart(f: Option<Field>, g: Option<Field>) {
    f.Some? && g.Some? && f.value.reg == g.value.reg ==> f.value.mask !! g.value.mask
  }

  lemma ReadSame(v: Word, w: Word, mask: Word, other: Word)
    requires mask != {} && v - other == w - other && mask !! other
    ensures Read(v, mask) == Read(w, mask)
  {
    forall b ensures b in v * mask <==> b in w * mask {
      if b in mask { assert b in v - other <==> b in w - other; }
    }
  }

  /** A field keeps its value when another field is written. */
  lemma ReadKept(regs: seq<Word>, f: Field, g: Option<Field>)
    requires FieldOk(Some(f), |regs|) && FieldOk(g, |regs|) && Placed(g) && Apart(Some(f), g)
    ensures Read(FieldWritten(regs, g)[f.reg], f.mask) == Read(regs[f.reg], f.mask)
  {
    WriteElsewhere(regs, g, f.reg);
    ReadSame(FieldWritten(regs, g)[f.reg], regs[f.reg], f.mask, Mask(g, f.reg));
  }

  /** The fields of a clock that is not a PLL: every value has a place, and the masks are apart. */
  ghost predicate Tidy(c: Clk) {
    c.pll.None? && Placed(c.mux) && Placed(c.div) && Placed(c.gate) && Apart(c.mux, c.div) && Apart(c.mux, c.gate) && Apart(c.div, c.gate)
  }

  /** A tidy clock reads back as it was written. */
  lemma ClkReadsBack(regs: seq<Word>, c: Clk)
    requires ClkOk(c, |regs|) && Tidy(c)
    ensures Synced(c, ClkWritten(regs, c)) == c
  {
    var r1 := FieldWritten(regs, c.mux);
    var r2 := FieldWritten(r1, c.div);
    if c.mux.Some? {
      WriteThere(regs, c.mux.value);
      ReadKept(r1, c.mux.value, c.div);
      ReadKept(r2, c.mux.value, c.gate);
    }
    if c.div.Some? {
      WriteThere(r1, c.div.value);
      ReadKept(r2, c.div.value, c.gate);
    }
    if c.gate.Some? {
      WriteThere(r2, c.gate.value);
    }
  }

  /** ... and nothing outside its masks changes. */
  lemma ClkElsewhere(regs: seq<Word>, c: Clk, o: nat)
    requires ClkOk(c, |regs|) && Tidy(c) && o < |regs|
    ensures ClkWritten(regs, c)[o] - Bits(c, o) == regs[o] - Bits(c, o)
  {
    var r1 := FieldWritten(regs, c.mux);
    WriteElsewhere(regs, c.mux, o);
    WriteElsewhere(r1, c.div, o);
    WriteElsewhere(FieldWritten(r1, c.div), c.gate, o);
    Outside(r1[o], regs[o], Mask(c.mux, o), Bits(c, o));
    Outside(FieldWritten(r1, c.div)[o], r1[o], Mask(c.div, o), Bits(c, o));
    Outside(ClkWritten(regs, c)[o], FieldWritten(r1, c.div)[o], Mask(c.gate, o), Bits(c, o));
  }

  lemma Elsewhere(regs: seq<Word>, regs': seq<Word>, c: Clk)
    requires ClkOk(c, |regs|) && Tidy(c) && regs' == ClkWritten(regs, c)
    ensures forall o :: 0 <= o < |regs| ==> regs'[o] - Bits(c, o) == regs[o] - Bits(c, o)
  {
    forall o | 0 <= o < |regs| ensures regs'[o] - Bits(c, o) == regs[o] - Bits(c, o) {
      ClkElsewhere(regs, c, o);
    }
  }

  lemma Outside(v: Word, w: Word, m: Word, all: Word)
    requires v - m == w - m && m <= all
    ensures v - all == w - all
  {
    assert v - all == (v - m) - all;
    assert w - all == (w - m) - all;
  }

  // ----- rates -----

  /** A divided parent rate is reported as the rate asked for exactly when the remainder is small enough; in particular
      when there is none. */
  lemma RateExact(parent: nat, pre: nat, rate: nat)
    requires 0 < pre && 0 < rate && 0 < pre * rate <= parent
    ensures var q := parent / (pre * rate);
            0 < q && 0 < pre * q && (parent / (pre * q) == rate <==> parent % (pre * rate) < pre * q)
  {
    var d := pre * rate;
    var q, r := parent / d, parent % d;
    assert parent == q * d + r;
    assert 0 <= r < d && (q == 0 ==> parent == r);
    assert q > 0;
    var m := pre * q;
    assert m > 0 by { Positive(pre, q); }
    assert q * d == m * rate by { Reorder(q, pre, rate); }
    Quotient(m, rate, r);
  }

  lemma Positive(a: nat, b: nat)
    requires a > 0 && b > 0
    ensures a * b > 0
  {
  }

  lemma Reorder(q: int, pre: int, rate: int)
    ensures q * (pre * rate) == (pre * q) * rate
  {
  }

  lemma Quotient(m: nat, rate: nat, r: nat)
    requires m > 0
    ensures (m * rate + r) / m == rate <==> r < m
  {
    var x := m * rate + r;
    var y, z := x / m, x % m;
    assert x == y * m + z && 0 <= z < m;
    assert (y - rate) * m == r - z by { Spread(y, rate, m); }
    if y == rate {
    } else if r < m {
      if y - rate >= 1 { Grow(y - rate, 1, m); } else { Grow(-1, y - rate, m); }
    }
  }

  lemma Spread(a: int, b: int, m: int)
    ensures (a - b) * m == a * m - b * m && b * m == m * b
  {
  }

  lemma Grow(a: int, b: int, m: nat)
    requires a >= b
    ensures a * m >= b * m
  {
  }

  // ----- the clock tree -----

  const MAX_PARENT := 8

  /** What the driver knows of a clock besides its fields: `pre` counts if the clock has a fixed divider. */
  datatype Info = Info(name: string, parents: seq<string>, usesPre: bool, pre: nat, rate: nat)

  /** The rate of the first clock of that name, or 0. Clocks of the always-on domain are passed over. */
  function RateOf(infos: seq<Info>, clks: seq<Clk>, name: string): nat
    requires |infos| == |clks|
  {
    if infos == [] then 0
    else if !clks[0].aon && infos[0].name == name then infos[0].rate
    else RateOf(infos[1..], clks[1..], name)
  }

  function ParentRate(infos: seq<Info>, clks: seq<Clk>, parents: seq<string>, k: nat): nat
    requires |infos| == |clks|
  {
    if k < |parents| then RateOf(infos, clks, parents[k]) else 0
  }

  function ParentRates(infos: seq<Info>, clks: seq<Clk>, parents: seq<string>): seq<nat>
    requires |infos| == |clks|
  {
    seq(MAX_PARENT, k requires 0 <= k < MAX_PARENT => ParentRate(infos, clks, parents, k))
  }

  /** The selected parent: the first one if there is no choice. */
  function Selected(c: Clk): nat {
    if c.mux.Some? then Num(c.mux.value.value) else 0
  }

  function Pre(info: Info): nat { if info.usesPre then info.pre else 1 }

  function Divider(c: Clk, info: Info): nat {
    Times(Pre(info), if c.div.Some? then Num(c.div.value.value) + 1 else 1)
  }

  /** 32-bit multiplication. */
  function Times(a: nat, b: nat): (m: nat)
    ensures a * b < WORDS ==> m == a * b
  {
    a * b % WORDS
  }

  function Over(a: nat, b: nat): nat
    requires b > 0
  {
    a / b
  }

  /** The rate `rt_fh_clk_outrate_cal` computes. */
  function RateNow(infos: seq<Info>, clks: seq<Clk>, c: Clk, info: Info): nat
    requires |infos| == |clks| && Divider(c, info) > 0
  {
    Over(ParentRate(infos, clks, info.parents, Selected(c)), Divider(c, info))
  }

  /** The first parent, from `k` on, whose rate is a multiple of `d`. */
  function Divisible(rates: seq<nat>, d: nat, k: nat): (i: nat)
    requires d > 0 && k <= |rates|
    ensures k <= i <= |rates| && (i < |rates| ==> rates[i] != 0 && rates[i] % d == 0)
    ensures forall j :: k <= j < i ==> rates[j] == 0 || rates[j] % d != 0
    decreases |rates| - k
  {
    if k == |rates| || (rates[k] != 0 && rates[k] % d == 0) then k else Divisible(rates, d, k + 1)
  }

  function Equal(rates: seq<nat>, rate: nat, k: nat): (i: nat)
    requires k <= |rates|
    ensures k <= i <= |rates| && (i < |rates| ==> rates[i] == rate) && forall j :: k <= j < i ==> rates[j] != rate
    decreases |rates| - k
  {
    if k == |rates| || rates[k] == rate then k else Equal(rates, rate, k + 1)
  }

  /** What `clk_set_rate` decides on: a parent and a divider. */
  datatype Plan = Leave | Use(parent: nat, div: nat)

  function PlanFor(c: Clk, rates: seq<nat>, d: nat, rate: nat): (p: Plan)
    requires |rates| == MAX_PARENT && d > 0 && Selected(c) < MAX_PARENT
    ensures p.Use? ==> p.parent < MAX_PARENT && p.div < WORDS
  {
    var cur := Selected(c);
    if c.div.Some? && c.mux.Some? then
      if rates[cur] % d == 0 then Use(cur, (rates[cur] / d - 1) % WORDS)
      else
        var k := Divisible(rates, d, 0);
        if k < |rates| then Use(k, (rates[k] / d - 1) % WORDS) else Leave
    else if c.div.Some? then Use(cur, (rates[cur] / d - 1) % WORDS)
    else if c.mux.Some? then
      var k := Equal(rates, rate, 0);
      if k < |rates| then Use(k, 0) else Leave
    else Leave
  }

  /** The rate `clk_set_rate` remembers: what was asked for, or what a newly chosen parent gives. */
  function Remembered(c: Clk, rates: seq<nat>, d: nat, pre: nat, rate: nat, p: Plan): nat
    requires |rates| == MAX_PARENT && d > 0 && Selected(c) < MAX_PARENT && p.Use? && p.parent < MAX_PARENT && pre > 0
  {
    if c.div.Some? && c.mux.Some? && rates[Selected(c)] % d != 0 then Over(Over(rates[p.parent], p.div + 1), pre) else rate
  }

  function WithValue(f: Option<Field>, v: nat): Option<Field> {
    if f.Some? then Some(f.value.(value := Of(v))) else None
  }

  /** The clock with the plan's values. */
  function Planned(c: Clk, p: Plan): Clk {
    if p.Leave? then c else c.(mux := WithValue(c.mux, p.parent), div := WithValue(c.div, p.div))
  }

  /** Updating one clock's rate leaves the rates of clocks of other names. */
  lemma {:induction false} RateElsewhere(infos: seq<Info>, clks: seq<Clk>, i: nat, info: Info, c: Clk, name: string)
    requires |infos| == |clks| && i < |infos| && info.name == infos[i].name != name && c.aon == clks[i].aon
    ensures RateOf(infos[i := info], clks[i := c], name) == RateOf(infos, clks, name)
  {
    if i > 0 {
      assert infos[i := info][1..] == infos[1..][i - 1 := info] && clks[i := c][1..] == clks[1..][i - 1 := c];
      RateElsewhere(infos[1..], clks[1..], i - 1, info, c, name);
    } else {
      assert infos[i := info][1..] == infos[1..] && clks[i := c][1..] == clks[1..];
    }
  }

  /** The divider of a clock that has been given the plan's values. */
  lemma DividerIs(c: Clk, info: Info, q: nat, pre: nat)
    requires c.div.Some? && 0 < q < WORDS && c.div.value.value == Of(q - 1) && pre == Pre(info) && pre * q < WORDS
    ensures Divider(c, info) == pre * q
  {
    hide Pow2, OfFrom, NumFrom, Pre;
    Pow32();
    NumOf(q - 1, 0);
  }

  /** The arithmetic of an exact division: nothing wraps around. */
  lemma Quotient32(parent: nat, pre: nat, rate: nat, q: nat)
    requires 0 < rate && 0 < pre * rate <= parent < WORDS && q == parent / (pre * rate)
    ensures 0 < q < WORDS && (q - 1) % WORDS == q - 1 && 0 < pre * q < WORDS
    ensures Over(parent, pre * q) == rate <==> parent % (pre * rate) < pre * q
  {
    var d := pre * rate;
    assert pre > 0;
    RateExact(parent, pre, rate);
    assert q * d <= parent;
    Grow(d, 1, q);
    assert d * q == q * d;
    var m := pre * q;
    Reorder(q, pre, rate);
    Grow(rate, 1, m);
    assert rate * m == m * rate;
  }

  /** Does the divided parent rate come out as asked for? The remainder must be small; without a divider of its own,
      the clock must not have a fixed one. */
  predicate Exactly(parent: nat, pre: nat, rate: nat, divides: bool) {
    if divides then 0 < pre * rate && parent % (pre * rate) < pre * (parent / (pre * rate)) else pre == 1
  }

  /** The first clock of that name outside the always-on domain. */
  function IndexOf(infos: seq<Info>, clks: seq<Clk>, name: string): (k: nat)
    requires |infos| == |clks|
    ensures k <= |infos|
  {
    if infos == [] || (!clks[0].aon && infos[0].name == name) then 0 else 1 + IndexOf(infos[1..], clks[1..], name)
  }

  lemma {:induction false} SameIndex(infos: seq<Info>, clks: seq<Clk>, i: nat, info: Info, c: Clk, name: string)
    requires |infos| == |clks| && i < |infos| && info.name == infos[i].name && c.aon == clks[i].aon
    ensures IndexOf(infos[i := info], clks[i := c], name) == IndexOf(infos, clks, name)
  {
    if i > 0 {
      assert infos[i := info][1..] == infos[1..][i - 1 := info] && clks[i := c][1..] == clks[1..][i - 1 := c];
      SameIndex(infos[1..], clks[1..], i - 1, info, c, name);
    } else {
      assert infos[i := info][1..] == infos[1..] && clks[i := c][1..] == clks[1..];
    }
  }

  /** The plan for a rate can be carried out: its values have a place in masks that are apart, the parent is fast enough,
      and the clock is not its own parent. */
  ghost predicate Settable(infos: seq<Info>, clks: seq<Clk>, i: nat, rate: nat)
    requires |infos| == |clks| && i < |infos|
  {
    var c, info, rates := clks[i], infos[i], ParentRates(infos, clks, infos[i].parents);
    && 0 < rate && 0 < Pre(info) * rate < WORDS && Selected(c) < MAX_PARENT
    && var p := PlanFor(c, rates, Pre(info) * rate, rate);
       && p.Use? && rates[p.parent] < WORDS && Tidy(Planned(c, p))
       && (if c.div.Some? then Pre(info) * rate <= rates[p.parent] else 0 < rates[p.parent])
       && info.parents[p.parent] != info.name
  }

  /** The rate of the parent the plan chooses. */
  function PlanParent(infos: seq<Info>, clks: seq<Clk>, i: nat, rate: nat): nat
    requires Asked(infos, clks, i, rate) && SetPlan(infos, clks, i, rate).Use?
  {
    ParentRate(infos, clks, infos[i].parents, SetPlan(infos, clks, i, rate).parent)
  }

  lemma PlanSelects(c: Clk, p: Plan)
    requires p.Use? && p.parent < MAX_PARENT && (c.mux.None? ==> p.parent == 0)
    ensures Selected(Planned(c, p)) == p.parent
  {
    Pow32();
    NumOf(p.parent, 0);
  }

  /** After the plan is carried out, the rate computed from the registers is the one asked for exactly when the
      parent's rate allows it. */
  lemma PlanRead(infos: seq<Info>, clks: seq<Clk>, i: nat, rate: nat, info: Info, p: Plan)
    requires |infos| == |clks| && i < |infos| && Settable(infos, clks, i, rate)
    requires p == PlanFor(clks[i], ParentRates(infos, clks, infos[i].parents), Pre(infos[i]) * rate, rate)
    requires info.name == infos[i].name && info.parents == infos[i].parents && Pre(info) == Pre(infos[i])
    ensures var c := Planned(clks[i], p);
            && Divider(c, info) > 0
            && (RateNow(infos[i := info], clks[i := c], c, info) == rate <==>
                Exactly(ParentRate(infos, clks, infos[i].parents, p.parent), Pre(info), rate, clks[i].div.Some?))
  {
    var c, rates := Planned(clks[i], p), ParentRates(infos, clks, infos[i].parents);
    PlanSelects(clks[i], p);
    RateElsewhere(infos, clks, i, info, c, info.parents[p.parent]);
    assert ParentRate(infos[i := info], clks[i := c], info.parents, Selected(c)) == rates[p.parent];
    if c.div.Some? {
      Divided(c, info, rates[p.parent], Pre(info), rate, p.div);
    } else {
      assert rates[p.parent] == rate;
      Undivided(c, info, rate);
    }
  }

  lemma Divided(c: Clk, info: Info, parent: nat, pre: nat, rate: nat, div: nat)
    requires c.div.Some? && c.div.value.value == Of(div) && pre == Pre(info) && 0 < rate && 0 < pre * rate <= parent < WORDS
    requires div == (parent / (pre * rate) - 1) % WORDS
    ensures Divider(c, info) > 0 && (Over(parent, Divider(c, info)) == rate <==> Exactly(parent, pre, rate, true))
  {
    hide Divider, Pre, Of, Over, Exactly;
    var q := parent / (pre * rate);
    Quotient32(parent, pre, rate, q);
    DividerIs(c, info, q, pre);
    DividesExactly(parent, pre, rate, q);
  }

  lemma DividesExactly(parent: nat, pre: nat, rate: nat, q: nat)
    requires 0 < pre * rate && q == parent / (pre * rate)
    ensures Exactly(parent, pre, rate, true) <==> parent % (pre * rate) < pre * q
  {
  }

  lemma Undivided(c: Clk, info: Info, rate: nat)
    requires c.div.None? && 0 < rate && 0 < Pre(info) * rate < WORDS
    ensures Divider(c, info) > 0 && (Over(rate, Divider(c, info)) == rate <==> Pre(info) == 1)
  {
    var pre := Pre(info);
    assert pre > 0;
    Grow(rate, 1, pre);
    assert rate * pre == pre * rate;
    assert Divider(c, info) == pre;
    assert Over(rate, 1) == rate;
    if pre > 1 { Smaller(rate, pre); }
  }

  lemma Smaller(x: nat, d: nat)
    requires x > 0 && d > 1
    ensures Over(x, d) != x
  {
    var q := x / d;
    assert x == q * d + x % d;
    Grow(d, 2, q);
    assert d * q == q * d;
  }

  /** Can `clk_set_rate` get as far as a plan? */
  predicate Asked(infos: seq<Info>, clks: seq<Clk>, i: nat, rate: nat) {
    |infos| == |clks| && i < |infos| && 0 < rate && Times(Pre(infos[i]), rate) > 0 && Selected(clks[i]) < MAX_PARENT
  }

  function SetPlan(infos: seq<Info>, clks: seq<Clk>, i: nat, rate: nat): Plan
    requires Asked(infos, clks, i, rate)
  {
    PlanFor(clks[i], ParentRates(infos, clks, infos[i].parents), Times(Pre(infos[i]), rate), rate)
  }

  /** What the driver knows of the clock after `clk_set_rate`. */
  function SetInfo(infos: seq<Info>, clks: seq<Clk>, i: nat, rate: nat): (info: Info)
    requires Asked(infos, clks, i, rate)
    ensures info.name == infos[i].name && info.parents == infos[i].parents && Pre(info) == Pre(infos[i])
  {
    var info, rates, p := infos[i], ParentRates(infos, clks, infos[i].parents), SetPlan(infos, clks, i, rate);
    info.(pre := Pre(info),
          rate := if p.Leave? then info.rate else Remembered(clks[i], rates, Times(Pre(info), rate), Pre(info), rate, p))
  }

  /** Reading the clock back after setting it. */
  lemma SetReadsBack(infos: seq<Info>, clks: seq<Clk>, i: nat, rate: nat, regs: seq<Word>)
    requires |infos| == |clks| && i < |infos| && Settable(infos, clks, i, rate) && ClkOk(clks[i], |regs|)
    ensures Asked(infos, clks, i, rate) && SetPlan(infos, clks, i, rate).Use?
    ensures var c, info := Planned(clks[i], SetPlan(infos, clks, i, rate)), SetInfo(infos, clks, i, rate);
            && ClkOk(c, |regs|) && Tidy(c) && Synced(c, ClkWritten(regs, c)) == c
            && IndexOf(infos[i := info], clks[i := c], info.name) == IndexOf(infos, clks, info.name)
            && Divider(c, info) > 0
            && (RateNow(infos[i := info], clks[i := c], c, info) == rate <==>
                Exactly(PlanParent(infos, clks, i, rate), Pre(infos[i]), rate, clks[i].div.Some?))
  {
    var p, info := SetPlan(infos, clks, i, rate), SetInfo(infos, clks, i, rate);
    var c := Planned(clks[i], p);
    ClkReadsBack(regs, c);
    PlanRead(infos, clks, i, rate, info, p);
    SameIndex(infos, clks, i, info, c, info.name);
  }

  class RateTree {
    const tree: ClockTree
    const infos: array<Info>

    constructor (tree: ClockTree, infos: array<Info>)
      ensures this.tree == tree && this.infos == infos
    {
      this.tree, this.infos := tree, infos;
    }

    ghost predicate Valid()
      reads this, tree, tree.clks
    {
      tree.Valid() && tree.clks.Length == infos.Length
    }

    /** The search for a parent's rate. */
    method FindRate(name: string) returns (r: nat)
      requires Valid()
      ensures r == RateOf(infos[..], tree.clks[..], name)
    {
      var j := 0;
      while j < infos.Length && !(!tree.clks[j].aon && infos[j].name == name)
        invariant 0 <= j <= infos.Length
        invariant RateOf(infos[..], tree.clks[..], name) == RateOf(infos[j..], tree.clks[j..], name)
      {
        assert infos[j..][1..] == infos[j + 1..] && tree.clks[j..][1..] == tree.clks[j + 1..];
        j := j + 1;
      }
      r := if j < infos.Length then infos[j].rate else 0;
    }

    /** The parents' rates, 0 where there is no such parent. */
    method FindRates(parents: seq<string>) returns (rates: array<nat>)
      requires Valid()
      ensures fresh(rates) && rates[..] == ParentRates(infos[..], tree.clks[..], parents)
    {
      rates := new nat[MAX_PARENT](_ => 0);
      var k := 0;
      while k < MAX_PARENT && k < |parents|
        invariant 0 <= k <= MAX_PARENT
        invariant forall j :: 0 <= j < k ==> rates[j] == ParentRate(infos[..], tree.clks[..], parents, j)
        invariant forall j :: k <= j < MAX_PARENT ==> rates[j] == 0
        invariant k <= |parents|
      {
        rates[k] := FindRate(parents[k]);
        k := k + 1;
      }
    }

    /** The search for a parent and a divider in `clk_set_rate`. */
    method ChoosePlan(c: Clk, rates: array<nat>, d: nat, rate: nat) returns (p: Plan)
      requires rates.Length == MAX_PARENT && d > 0 && Selected(c) < MAX_PARENT
      ensures p == PlanFor(c, rates[..], d, rate)
    {
      var cur := Selected(c);
      p := Leave;
      if c.div.Some? && (c.mux.None? || rates[cur] % d == 0) {
        p := Use(cur, (rates[cur] / d - 1) % WORDS);
      } else if c.mux.Some? {
        var k := 0;
        while k < MAX_PARENT && !(if c.div.Some? then rates[k] != 0 && rates[k] % d == 0 else rates[k] == rate)
          invariant 0 <= k <= MAX_PARENT
          invariant if c.div.Some? then Divisible(rates[..], d, 0) == Divisible(rates[..], d, k) else Equal(rates[..], rate, 0) == Equal(rates[..], rate, k)
        {
          k := k + 1;
        }
        if k < MAX_PARENT {
          p := Use(k, if c.div.Some? then (rates[k] / d - 1) % WORDS else 0);
        }
      }
    }

    /** `clk_set_rate`, for a clock that is neither fixed nor a PLL. */
    method SetRate(i: nat, rate: nat) returns (ok: bool)
      requires Valid() && i < infos.Length && rate < WORDS && (rate > 0 ==> Asked(infos[..], tree.clks[..], i, rate))
      modifies infos, tree.clks, tree.regs
      ensures Valid() && ok == (rate > 0)
      ensures rate == 0 || infos[i].parents == [] ==>
        infos[..] == old(infos[..]) && tree.clks[..] == old(tree.clks[..]) && tree.regs[..] == old(tree.regs[..])
      ensures rate > 0 && infos[i].parents != [] ==>
        var p := SetPlan(old(infos[..]), old(tree.clks[..]), i, rate);
        var c := Planned(old(tree.clks[i]), p);
        && tree.clks[..] == old(tree.clks[..])[i := c] && ClkOk(c, tree.regs.Length)
        && tree.regs[..] == (if p.Use? then ClkWritten(old(tree.regs[..]), c) else old(tree.regs[..]))
        && infos[..] == old(infos[..])[i := SetInfo(old(infos[..]), old(tree.clks[..]), i, rate)]
    {
      ok := rate > 0;
      if rate == 0 || infos[i].parents == [] {
        return;
      }
      var c, info := tree.clks[i], infos[i];
      var rates := FindRates(info.parents);
      var d := Times(Pre(info), rate);
      info := info.(pre := Pre(info));
      var p := ChoosePlan(c, rates, d, rate);
      infos[i] := if p.Leave? then info else info.(rate := Remembered(c, rates[..], d, info.pre, rate, p));
      if p.Use? {
        Store(i, Planned(c, p));
      }
    }

    /** Stores a clock's new values and writes them to the registers. */
    method Store(i: nat, c: Clk)
      requires Valid() && i < infos.Length && ClkOk(c, tree.regs.Length)
      modifies tree.clks, tree.regs
      ensures Valid() && tree.clks[..] == old(tree.clks[..])[i := c] && tree.regs[..] == ClkWritten(old(tree.regs[..]), c)
    {
      tree.clks[i] := c;
      tree.HwConfig(c);
    }

    /** The search of `clk_get`. */
    method FindClock(name: string) returns (k: nat)
      requires Valid()
      ensures k == IndexOf(infos[..], tree.clks[..], name)
    {
      k := 0;
      while k < infos.Length && !(!tree.clks[k].aon && infos[k].name == name)
        invariant 0 <= k <= infos.Length
        invariant IndexOf(infos[..], tree.clks[..], name) == k + IndexOf(infos[k..], tree.clks[k..], name)
      {
        assert infos[k..][1..] == infos[k + 1..] && tree.clks[k..][1..] == tree.clks[k + 1..];
        k := k + 1;
      }
    }

    /** `clk_get`: the clock's fields are read from the registers and its rate computed anew. */
    method Get(name: string) returns (k: nat)
      requires Valid()
      requires var k := IndexOf(infos[..], tree.clks[..], name);
               k < infos.Length ==> Divider(Synced(tree.clks[k], tree.regs[..]), infos[k]) > 0
      modifies infos, tree.clks
      ensures Valid() && k == IndexOf(old(infos[..]), old(tree.clks[..]), name)
      ensures k == infos.Length ==> infos[..] == old(infos[..]) && tree.clks[..] == old(tree.clks[..])
      ensures k < infos.Length ==>
        var c := Synced(old(tree.clks[k]), tree.regs[..]);
        && tree.clks[..] == old(tree.clks[..])[k := c]
        && infos[..] == old(infos[..])[k := old(infos[k]).(rate := RateNow(old(infos[..]), tree.clks[..], c, old(infos[k])))]
    {
      k := FindClock(name);
      if k < infos.Length {
        tree.Sync(k);
        var c, info := tree.clks[k], infos[k];
        var parent := 0;
        if Selected(c) < |info.parents| {
          parent := FindRate(info.parents[Selected(c)]);
        }
        infos[k] := info.(rate := Over(parent, Divider(c, info)));
      }
    }

    /** A rate whose plan can be carried out is the rate read back from the registers exactly when the parent's rate allows
        it, as every multiple does; and no bit outside the clock's masks changes. */
    method SetThenGet(i: nat, rate: nat) returns (r: nat)
      requires Valid() && i < infos.Length && rate < WORDS && infos[i].parents != []
      requires Settable(infos[..], tree.clks[..], i, rate) && IndexOf(infos[..], tree.clks[..], infos[i].name) == i
      modifies infos, tree.clks, tree.regs
      ensures Valid()
      ensures r == rate <==> Exactly(PlanParent(old(infos[..]), old(tree.clks[..]), i, rate), old(Pre(infos[i])), rate, old(tree.clks[i]).div.Some?)
      ensures forall o :: 0 <= o < tree.regs.Length ==> tree.regs[o] - Bits(tree.clks[i], o) == old(tree.regs[o]) - Bits(tree.clks[i], o)
    {
      hide Settable, Exactly, Tidy, RateNow, Divider, IndexOf, ClkOk, Synced, Planned, SetInfo, PlanParent, ClkWritten;
      ghost var ins, cs, rs := infos[..], tree.clks[..], tree.regs[..];
      SetReadsBack(ins, cs, i, rate, rs);
      ghost var c := Planned(cs[i], SetPlan(ins, cs, i, rate));
      var _ := SetRate(i, rate);
      assert infos[..][i] == infos[i] && tree.clks[..][i] == c;
      var k := Get(infos[i].name);
      assert tree.clks[..] == cs[i := c];
      r := infos[k].rate;
      Elsewhere(rs, tree.regs[..], c);
    }
  }
}
