/** Clock registers across a power cycle: what `clock_suspend` saves and `clock_resume` brings back.
    A register word is the set of the positions of its one bits. */
module ClockPower {
  import opened Common

  type Word = w: set<int> | forall b :: b in w ==> 0 <= b < 32

  function ShiftLeft(w: Word, s: nat): Word { set b | b in w && b + s < 32 :: b + s }

  function ShiftRight(w: Word, s: nat): Word { set b | b in w && b >= s :: b - s }

  /** The number a word stands for, from bit `i` on. */
  function NumFrom(w: Word, i: nat): nat
    decreases 32 - i, w
  {
    if i >= 32 then 0 else (if i in w then 1 else 0) + 2 * NumFrom(w, i + 1)
  }

  function Num(w: Word): nat { NumFrom(w, 0) }

  lemma {:induction false} NumSubset(v: Word, w: Word, i: nat)
    requires v <= w
    ensures NumFrom(v, i) <= NumFrom(w, i)
    decreases 32 - i
  {
    if i < 32 { NumSubset(v, w, i + 1); }
  }

  /** A field of a register: the register's number, the value last read or to be written, and the bits it covers. */
  datatype Field = Field(reg: nat, value: Word, mask: Word)

  /** A clock. It has the fields its flags tell; a PLL saves a whole register, so its mask is ALL. */
  datatype Clk = Clk(aon: bool, mux: Option<Field>, div: Option<Field>, gate: Option<Field>, pll: Option<Field>)

  const ALL: Word := set b: int | 0 <= b < 32

  /** The number of zero bits below the lowest one bit of a mask: `__rt_ffs(mask) - 1`. */
  function Lowest(mask: Word, i: nat): (s: nat)
    requires mask != {} && forall b :: b in mask ==> i <= b
    ensures s in mask && forall b :: b in mask ==> s <= b
    decreases 32 - i, mask
  {
    assert i >= 32 ==> forall b :: b in mask ==> b < i;
    if i in mask then i else Lowest(mask, i + 1)
  }

  function Shift(mask: Word): (s: nat)
    requires mask != {}
    ensures s in mask && forall b :: b in mask ==> s <= b
  {
    Lowest(mask, 0)
  }

  /** The field as `fh_clk_sync` reads it from a register. */
  function Read(r: Word, mask: Word): Word
    requires mask != {}
  {
    ShiftRight(r * mask, Shift(mask))
  }

  /** The register with the bits of the mask taken from `from`. */
  function Mix(r: Word, from: Word, mask: Word): Word { (r - mask) + (from * mask) }

  /** A field that was read is never too large, and writing it back restores its bits. */
  lemma WriteRead(r: Word, from: Word, mask: Word)
    requires mask != {}
    ensures Num(Read(from, mask)) <= Num(ShiftRight(mask, Shift(mask)))
    ensures (r - mask) + ShiftLeft(Read(from, mask), Shift(mask)) == Mix(r, from, mask)
  {
    var s, f := Shift(mask), from * mask;
    RightSubset(f, mask, s);
    NumSubset(ShiftRight(f, s), ShiftRight(mask, s), 0);
    LeftRight(f, s);
  }

  lemma RightSubset(v: Word, w: Word, s: nat)
    requires v <= w
    ensures ShiftRight(v, s) <= ShiftRight(w, s)
  {
    forall b | b in ShiftRight(v, s) ensures b in ShiftRight(w, s) {
      assert b + s in v;
    }
  }

  /** Shifting down and up again loses nothing when the low bits are zero. */
  lemma LeftRight(f: Word, s: nat)
    requires forall b :: b in f ==> s <= b
    ensures ShiftLeft(ShiftRight(f, s), s) == f
  {
    forall b ensures b in ShiftLeft(ShiftRight(f, s), s) <==> b in f {
      if b in f { assert b - s in ShiftRight(f, s); }
    }
  }

  // ----- clocks -----

  predicate FieldOk(f: Option<Field>, n: nat) { f.Some? ==> f.value.reg < n && f.value.mask != {} }

  /** The fields lie in the registers. */
  ghost predicate ClkOk(c: Clk, n: nat) {
    FieldOk(c.mux, n) && FieldOk(c.div, n) && FieldOk(c.gate, n) && FieldOk(c.pll, n) && (c.pll.Some? ==> c.pll.value.mask == ALL)
  }

  /** A field with the value the registers have. */
  function Fetched(f: Option<Field>, regs: seq<Word>): Option<Field>
    requires FieldOk(f, |regs|)
  {
    if f.None? then None else Some(f.value.(value := Read(regs[f.value.reg], f.value.mask)))
  }

  /** A clock with the values the registers have. */
  function Synced(c: Clk, regs: seq<Word>): Clk
    requires FieldOk(c.mux, |regs|) && FieldOk(c.div, |regs|) && FieldOk(c.gate, |regs|) && FieldOk(c.pll, |regs|)
  {
    Clk(c.aon, Fetched(c.mux, regs), Fetched(c.div, regs), Fetched(c.gate, regs), Fetched(c.pll, regs))
  }

  function Mask(f: Option<Field>, o: nat): Word {
    if f.Some? && f.value.reg == o then f.value.mask else {}
  }

  /** The bits of register `o` that belong to the clock. */
  function Bits(c: Clk, o: nat): Word {
    Mask(c.mux, o) + Mask(c.div, o) + Mask(c.gate, o) + Mask(c.pll, o)
  }

  /** The bits of register `o` that belong to some clock that loses power. */
  function Covered(cs: seq<Clk>, o: nat): Word {
    if cs == [] then {} else (if cs[0].aon then {} else Bits(cs[0], o)) + Covered(cs[1..], o)
  }

  lemma MixTwice(r: Word, from: Word, m1: Word, m2: Word)
    ensures Mix(Mix(r, from, m1), from, m2) == Mix(r, from, m1 + m2)
  {
  }

  /** The registers after `rt_fh_clock_config`: a value too large for the field is refused. */
  function FieldWritten(regs: seq<Word>, f: Option<Field>): (regs': seq<Word>)
    requires FieldOk(f, |regs|)
    ensures |regs'| == |regs|
  {
    if f.None? || Num(f.value.value) > Num(ShiftRight(f.value.mask, Shift(f.value.mask))) then regs
    else
      var r := regs[f.value.reg];
      regs[f.value.reg := (r - f.value.mask) + ShiftLeft(f.value.value, Shift(f.value.mask))]
  }

  /** The registers after `rt_hw_clock_config`. */
  function ClkWritten(regs: seq<Word>, c: Clk): (regs': seq<Word>)
    requires FieldOk(c.mux, |regs|) && FieldOk(c.div, |regs|) && FieldOk(c.gate, |regs|) && FieldOk(c.pll, |regs|)
    ensures |regs'| == |regs|
  {
    var r := FieldWritten(FieldWritten(FieldWritten(regs, c.mux), c.div), c.gate);
    if c.pll.Some? then r[c.pll.value.reg := c.pll.value.value] else r
  }

  /** Writing a field that was read from `from` takes over just its bits. */
  lemma FieldRestored(regs: seq<Word>, f: Option<Field>, from: seq<Word>, o: nat)
    requires FieldOk(f, |regs|) && |from| == |regs| && f == Fetched(f, from) && o < |regs|
    ensures FieldWritten(regs, f)[o] == Mix(regs[o], from[o], Mask(f, o))
  {
    if f.Some? {
      WriteRead(regs[f.value.reg], from[f.value.reg], f.value.mask);
    }
  }

  lemma ReadAll(r: Word)
    ensures ALL != {} && Shift(ALL) == 0 && Read(r, ALL) == r && Mix({}, r, ALL) == r
  {
    assert 0 in ALL;
    assert r * ALL == r;
    forall b ensures b in ShiftRight(r, 0) <==> b in r {
      if b in r { assert b - 0 in ShiftRight(r, 0); }
    }
  }

  /** Configuring a clock whose values were read from `from` takes over just the clock's bits, whether or not its
      masks overlap. */
  lemma ClkRestored(regs: seq<Word>, c: Clk, from: seq<Word>, o: nat)
    requires ClkOk(c, |regs|) && |from| == |regs| && c == Synced(c, from) && o < |regs|
    ensures ClkWritten(regs, c)[o] == Mix(regs[o], from[o], Bits(c, o))
  {
    var r1 := FieldWritten(regs, c.mux);
    var r2 := FieldWritten(r1, c.div);
    var r3 := FieldWritten(r2, c.gate);
    FieldRestored(regs, c.mux, from, o);
    FieldRestored(r1, c.div, from, o);
    FieldRestored(r2, c.gate, from, o);
    MixTwice(regs[o], from[o], Mask(c.mux, o), Mask(c.div, o));
    MixTwice(regs[o], from[o], Mask(c.mux, o) + Mask(c.div, o), Mask(c.gate, o));
    MixTwice(regs[o], from[o], Mask(c.mux, o) + Mask(c.div, o) + Mask(c.gate, o), Mask(c.pll, o));
    if c.pll.Some? && c.pll.value.reg == o {
      ReadAll(from[o]);
      assert c.pll.value.value == from[o];
    }
  }

  /** The registers after `clock_resume`. */
  function Resumed(regs: seq<Word>, cs: seq<Clk>): (regs': seq<Word>)
    requires forall i :: 0 <= i < |cs| ==> ClkOk(cs[i], |regs|)
    ensures |regs'| == |regs|
    decreases cs
  {
    if cs == [] then regs
    else
      assert ClkOk(cs[0], |regs|);
      Resumed(if cs[0].aon then regs else ClkWritten(regs, cs[0]), cs[1..])
  }

  lemma {:induction false} ResumedSnoc(regs: seq<Word>, cs: seq<Clk>, c: Clk)
    requires ClkOk(c, |regs|) && forall i :: 0 <= i < |cs| ==> ClkOk(cs[i], |regs|)
    ensures Resumed(regs, cs + [c]) == if c.aon then Resumed(regs, cs) else ClkWritten(Resumed(regs, cs), c)
    decreases cs
  {
    var all := cs + [c];
    if cs == [] {
      assert all[1..] == [];
    } else {
      assert all[1..] == cs[1..] + [c];
      ResumedSnoc(if cs[0].aon then regs else ClkWritten(regs, cs[0]), cs[1..], c);
    }
  }

  /** Resuming clocks whose values were read from `from` takes over exactly the covered bits. */
  lemma {:induction false} ResumedMixes(regs: seq<Word>, cs: seq<Clk>, from: seq<Word>, o: nat)
    requires |from| == |regs| && o < |regs|
    requires forall i :: 0 <= i < |cs| ==> ClkOk(cs[i], |regs|) && cs[i] == Synced(cs[i], from)
    ensures Resumed(regs, cs)[o] == Mix(regs[o], from[o], Covered(cs, o))
    decreases cs
  {
    if cs != [] {
      var regs1 := if cs[0].aon then regs else ClkWritten(regs, cs[0]);
      if !cs[0].aon { ClkRestored(regs, cs[0], from, o); }
      ResumedMixes(regs1, cs[1..], from, o);
      MixTwice(regs[o], from[o], if cs[0].aon then {} else Bits(cs[0], o), Covered(cs[1..], o));
      assert Mix(regs[o], from[o], {}) == regs[o];
    }
  }

  lemma SyncedBits(c: Clk, from: seq<Word>, o: nat)
    requires ClkOk(c, |from|)
    ensures Bits(Synced(c, from), o) == Bits(c, o) && Synced(c, from).aon == c.aon
  {
  }

  /** Saving does not change which bits are covered. */
  lemma {:induction false} SyncedCovers(cs: seq<Clk>, ds: seq<Clk>, from: seq<Word>, o: nat)
    requires |ds| == |cs| && forall i :: 0 <= i < |cs| ==> ClkOk(cs[i], |from|) && ds[i] == Synced(cs[i], from)
    ensures Covered(ds, o) == Covered(cs, o)
  {
    if cs != [] {
      assert ClkOk(cs[0], |from|);
      SyncedBits(cs[0], from, o);
      forall i | 0 <= i < |cs[1..]| ensures ClkOk(cs[1..][i], |from|) && ds[1..][i] == Synced(cs[1..][i], from) {
        assert ClkOk(cs[i + 1], |from|) && ds[i + 1] == Synced(cs[i + 1], from);
      }
      SyncedCovers(cs[1..], ds[1..], from, o);
    }
  }

  /** Clocks saved from `from` and resumed over anything. */
  lemma CycleMixes(regs: seq<Word>, cs: seq<Clk>, ds: seq<Clk>, from: seq<Word>)
    requires |from| == |regs| && |ds| == |cs|
    requires forall i :: 0 <= i < |cs| ==> ClkOk(cs[i], |regs|) && ds[i] == Synced(cs[i], from)
    ensures forall i :: 0 <= i < |ds| ==> ClkOk(ds[i], |regs|)
    ensures forall o :: 0 <= o < |regs| ==> Resumed(regs, ds)[o] == Mix(regs[o], from[o], Covered(cs, o))
  {
    forall i | 0 <= i < |ds| ensures ClkOk(ds[i], |regs|) && Synced(ds[i], from) == ds[i] {
      assert ClkOk(cs[i], |regs|);
    }
    forall o | 0 <= o < |regs| ensures Resumed(regs, ds)[o] == Mix(regs[o], from[o], Covered(cs, o)) {
      ResumedMixes(regs, ds, from, o);
      SyncedCovers(cs, ds, from, o);
    }
  }

  class ClockTree {
    const regs: array<Word>
    const clks: array<Clk>

    constructor (regs: array<Word>, clks: array<Clk>)
      ensures this.regs == regs && this.clks == clks
    {
      this.regs, this.clks := regs, clks;
    }

    ghost predicate Valid()
      reads this, clks
    {
      forall i :: 0 <= i < clks.Length ==> ClkOk(clks[i], regs.Length)
    }

    /** `rt_fh_clock_config`. */
    method FieldConfig(f: Field) returns (ok: bool)
      requires FieldOk(Some(f), regs.Length)
      modifies regs
      ensures regs[..] == FieldWritten(old(regs[..]), Some(f)) && (ok <==> Num(f.value) <= Num(ShiftRight(f.mask, Shift(f.mask))))
    {
      var s := Shift(f.mask);
      if Num(f.value) > Num(ShiftRight(f.mask, s)) {
        return false;
      }
      var r := regs[f.reg];
      regs[f.reg] := (r - f.mask) + ShiftLeft(f.value, s);
      ok := true;
    }

    /** `rt_hw_clock_config`. */
    method HwConfig(c: Clk)
      requires ClkOk(c, regs.Length)
      modifies regs
      ensures regs[..] == ClkWritten(old(regs[..]), c)
    {
      if c.mux.Some? {
        var _ := FieldConfig(c.mux.value);
      }
      if c.div.Some? {
        var _ := FieldConfig(c.div.value);
      }
      if c.gate.Some? {
        var _ := FieldConfig(c.gate.value);
      }
      if c.pll.Some? {
        regs[c.pll.value.reg] := c.pll.value.value;
      }
    }

    method ReadField(f: Option<Field>) returns (f': Option<Field>)
      requires FieldOk(f, regs.Length)
      ensures f' == Fetched(f, regs[..])
    {
      f' := f;
      if f.Some? {
        var r := regs[f.value.reg];
        f' := Some(f.value.(value := ShiftRight(r * f.value.mask, Shift(f.value.mask))));
      }
    }

    /** `fh_clk_sync`. */
    method Sync(i: nat)
      requires Valid() && i < clks.Length
      modifies clks
      ensures Valid() && clks[..] == old(clks[..])[i := Synced(old(clks[i]), regs[..])]
    {
      var c := clks[i];
      var div := ReadField(c.div);
      var gate := ReadField(c.gate);
      var mux := ReadField(c.mux);
      var pll := ReadField(c.pll);
      clks[i] := Clk(c.aon, mux, div, gate, pll);
    }

    /** `clock_suspend`. */
    method Suspend()
      requires Valid()
      modifies clks
      ensures Valid() && forall i :: 0 <= i < clks.Length ==> clks[i] == Synced(old(clks[i]), regs[..])
    {
      for i := 0 to clks.Length
        invariant Valid()
        invariant forall j :: 0 <= j < i ==> clks[j] == Synced(old(clks[j]), regs[..])
        invariant forall j :: i <= j < clks.Length ==> clks[j] == old(clks[j])
      {
        Sync(i);
      }
    }

    /** `clock_resume`. */
    method Resume()
      requires Valid()
      modifies regs
      ensures regs[..] == Resumed(old(regs[..]), clks[..])
    {
      ghost var r := regs[..];
      for i := 0 to clks.Length
        invariant regs[..] == Resumed(r, clks[..i])
      {
        assert clks[..i + 1] == clks[..i] + [clks[i]];
        ResumedSnoc(r, clks[..i], clks[i]);
        if !clks[i].aon {
          HwConfig(clks[i]);
        }
      }
      assert clks[..clks.Length] == clks[..];
    }

    /** A power cycle in which the registers come back with anything in them: every bit that belongs to a clock losing
        power is as before, and every other bit is as it came back. */
    method PowerCycle(lost: seq<Word>)
      requires Valid() && |lost| == regs.Length
      modifies regs, clks
      ensures Valid()
      ensures forall o :: 0 <= o < regs.Length ==> regs[o] == Mix(lost[o], old(regs[o]), Covered(old(clks[..]), o))
    {
      ghost var from, cs := regs[..], clks[..];
      Suspend();
      Lose(lost);
      Resume();
      CycleMixes(lost, cs, clks[..], from);
    }

    method Lose(lost: seq<Word>)
      requires |lost| == regs.Length
      modifies regs
      ensures regs[..] == lost
    {
      for i := 0 to regs.Length
        invariant forall j :: 0 <= j < i ==> regs[j] == lost[j]
      {
        regs[i] := lost[i];
      }
    }
  }
}
