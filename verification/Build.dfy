/** How trees grow in the node table while it is being filled. */
module FinshBuild {
  import opened FinshMachine
  import opened FinshSyntax
  import opened FinshNodeTable

  const BLANK := Cell(Unknown, VOID, false, NULL, NULL)

  /** Free entries are blank. */
  ghost predicate Clean(t: seq<Cell>) {
    forall i :: 0 <= i < |t| && t[i].kind == Unknown ==> t[i] == BLANK
  }

  /** The number of free entries. */
  function Free(t: seq<Cell>): nat {
    if t == [] then 0 else (if t[0].kind == Unknown then 1 else 0) + Free(t[1..])
  }

  lemma {:induction false} FreeUpdate(t: seq<Cell>, i: int, c: Cell)
    requires 0 <= i < |t|
    ensures Free(t[i := c]) == Free(t) - (if t[i].kind == Unknown then 1 else 0) + (if c.kind == Unknown then 1 else 0)
  {
    if i == 0 {
      assert t[i := c][1..] == t[1..];
    } else {
      assert t[i := c][1..] == t[1..][i - 1 := c];
      FreeUpdate(t[1..], i - 1, c);
    }
  }

  lemma {:induction false} FreeExists(t: seq<Cell>)
    requires forall i :: 0 <= i < |t| ==> t[i].kind != Unknown
    ensures Free(t) == 0
  {
    if t != [] { FreeExists(t[1..]); }
  }

  /** `k` entries were claimed; those in use before are untouched. */
  ghost predicate Grown(t: seq<Cell>, t': seq<Cell>, k: int) {
    && |t'| == |t| && Clean(t') && Free(t') == Free(t) - k
    && forall i :: 0 <= i < |t| && t[i].kind != Unknown ==> t'[i] == t[i]
  }

  /** No node of the tree is of unknown kind. */
  ghost predicate Proper(n: Node) {
    n.Node? ==> n.kind != Unknown && Proper(n.child) && Proper(n.sibling)
  }

  /** The tree stands in `t'`, on entries that were free in `t`. */
  ghost predicate Planted(t: seq<Cell>, t': seq<Cell>, n: Node) {
    Holds(t', n) && Distinct(n) && Proper(n) && |t'| == |t| && forall s :: s in Slots(n) ==> 0 <= s < |t| && t[s].kind == Unknown
  }

  lemma {:induction false} SlotsUsed(t: seq<Cell>, n: Node)
    requires Holds(t, n) && Proper(n)
    ensures forall s :: s in Slots(n) ==> 0 <= s < |t| && t[s].kind != Unknown
  {
    if n.Node? {
      SlotsUsed(t, n.child);
      SlotsUsed(t, n.sibling);
    }
  }

  lemma {:induction false} HoldsGrown(t: seq<Cell>, t': seq<Cell>, n: Node, k: int)
    requires Holds(t, n) && Proper(n) && Grown(t, t', k)
    ensures Holds(t', n)
  {
    if n.Node? {
      HoldsGrown(t, t', n.child, k);
      HoldsGrown(t, t', n.sibling, k);
    }
  }

  /** A tree stays planted while others are added, and does not overlap them. */
  lemma PlantedGrown(t: seq<Cell>, t1: seq<Cell>, t2: seq<Cell>, n: Node, k: int)
    requires Planted(t, t1, n) && Grown(t1, t2, k)
    ensures Planted(t, t2, n)
  {
    HoldsGrown(t1, t2, n, k);
  }

  lemma PlantedApart(t: seq<Cell>, t1: seq<Cell>, t2: seq<Cell>, n1: Node, n2: Node)
    requires Planted(t, t1, n1) && Planted(t1, t2, n2)
    ensures Slots(n1) !! Slots(n2)
  {
    SlotsUsed(t1, n1);
  }

  lemma GrownTwice(t: seq<Cell>, t1: seq<Cell>, t2: seq<Cell>, k1: int, k2: int)
    requires Grown(t, t1, k1) && Grown(t1, t2, k2)
    ensures Grown(t, t2, k1 + k2)
  {
  }

  /** A tree planted later was also free earlier. */
  lemma PlantedEarlier(t: seq<Cell>, t1: seq<Cell>, t2: seq<Cell>, n: Node, k: int)
    requires Grown(t, t1, k) && Planted(t1, t2, n)
    ensures Planted(t, t2, n)
  {
  }

  /** The table after `make_sys_node` has put a node in `slot` above `n1`, and `n2` behind `n1`. */
  function Linked(t: seq<Cell>, slot: int, kind: Kind, n1: Node, n2: Node): seq<Cell>
    requires 0 <= slot < |t| && n1.Node? && 0 <= n1.slot < |t|
  {
    var t1 := t[slot := Cell(kind, VOID, false, Ref(n1), NULL)];
    t1[n1.slot := t1[n1.slot].(sibling := Ref(n2))]
  }

  /** The new tree. */
  function Joined(slot: int, kind: Kind, n1: Node, n2: Node): Node
    requires n1.Node?
  {
    Node(slot, kind, VOID, false, n1.(sibling := n2), Nil)
  }

  lemma LinkedHolds(t: seq<Cell>, slot: int, kind: Kind, n1: Node, n2: Node)
    requires 0 <= slot < |t| && n1.Node? && n1.sibling == Nil && Holds(t, n1) && Holds(t, n2)
    requires Distinct(n1) && Distinct(n2) && Slots(n1) !! Slots(n2) && slot !in Slots(n1) && slot !in Slots(n2)
    ensures Holds(Linked(t, slot, kind, n1, n2), Joined(slot, kind, n1, n2)) && Distinct(Joined(slot, kind, n1, n2))
    ensures Slots(Joined(slot, kind, n1, n2)) == {slot} + Slots(n1) + Slots(n2)
  {
    var t' := Linked(t, slot, kind, n1, n2);
    var s := {slot, n1.slot};
    HoldsFrame(t, t', n1.child, s);
    HoldsFrame(t, t', n2, s);
    assert Slots(n1) == {n1.slot} + Slots(n1.child) by { assert Slots(Nil) == {}; }
  }

  /** Joining two freshly planted trees plants the result. */
  lemma Join(t: seq<Cell>, t1: seq<Cell>, slot: int, kind: Kind, n1: Node, n2: Node, k: int)
    requires Grown(t, t1, k) && Planted(t, t1, n1) && Planted(t, t1, n2) && Slots(n1) !! Slots(n2)
    requires n1.Node? && n1.sibling == Nil && kind != Unknown
    requires 0 <= slot < |t1| && t1[slot].kind == Unknown && 0 <= n1.slot < |t1|
    ensures Planted(t, Linked(t1, slot, kind, n1, n2), Joined(slot, kind, n1, n2))
    ensures Grown(t, Linked(t1, slot, kind, n1, n2), k + 1)
  {
    SlotsUsed(t1, n1);
    SlotsUsed(t1, n2);
    LinkedHolds(t1, slot, kind, n1, n2);
    var c := Cell(kind, VOID, false, Ref(n1), NULL);
    var t2 := t1[slot := c];
    FreeUpdate(t1, slot, c);
    FreeUpdate(t2, n1.slot, t2[n1.slot].(sibling := Ref(n2)));
    assert n1.slot in Slots(n1);
  }

  /** A leaf planted in a free entry. */
  lemma PlantLeaf(t: seq<Cell>, slot: int, kind: Kind)
    requires Clean(t) && 0 <= slot < |t| && t[slot].kind == Unknown && kind != Unknown
    ensures var t', n := t[slot := Cell(kind, VOID, false, NULL, NULL)], Node(slot, kind, VOID, false, Nil, Nil);
            Planted(t, t', n) && Grown(t, t', 1)
  {
    FreeUpdate(t, slot, Cell(kind, VOID, false, NULL, NULL));
  }

  // ----- sibling chains -----

  /** The chain with `m` behind its last node. */
  function Append(n: Node, m: Node): Node {
    if n.Nil? then m else n.(sibling := Append(n.sibling, m))
  }

  /** The slot of the last node of a chain. */
  function LastSlot(n: Node): int {
    if n.Nil? then NULL else if n.sibling.Nil? then n.slot else LastSlot(n.sibling)
  }

  lemma {:induction false} LastSlotIn(n: Node)
    requires n.Node?
    ensures LastSlot(n) in Slots(n)
  {
    if n.sibling.Node? { LastSlotIn(n.sibling); }
  }

  lemma {:induction false} AppendHolds(t: seq<Cell>, n: Node, m: Node, t': seq<Cell>)
    requires n.Node? && Holds(t, n) && Holds(t, m) && Distinct(n) && Distinct(m) && Slots(n) !! Slots(m)
    requires 0 <= LastSlot(n) < |t| && t' == t[LastSlot(n) := t[LastSlot(n)].(sibling := Ref(m))]
    ensures Holds(t', Append(n, m)) && Distinct(Append(n, m)) && Slots(Append(n, m)) == Slots(n) + Slots(m)
    ensures Ref(Append(n, m)) == Ref(n)
    ensures m.Node? ==> LastSlot(Append(n, m)) == LastSlot(m)
  {
    LastSlotIn(n);
    if n.sibling.Nil? {
      HoldsFrame(t, t', n.child, {n.slot});
      HoldsFrame(t, t', m, {n.slot});
      assert Append(n.sibling, m) == m;
    } else {
      LastSlotIn(n.sibling);
      AppendHolds(t, n.sibling, m, t');
      HoldsFrame(t, t', n.child, {LastSlot(n)});
    }
  }

  lemma {:induction false} AppendProper(n: Node, m: Node)
    requires Proper(n) && Proper(m)
    ensures Proper(Append(n, m))
  {
    if n.Node? { AppendProper(n.sibling, m); }
  }

  lemma {:induction false} AppendDenotes(n: Node, es: seq<Expr>, m: Node, e: Expr)
    requires DenotesAll(n, es) && Denotes(m, e) && m.sibling == Nil
    ensures DenotesAll(Append(n, m), es + [e])
    decreases es
  {
    var all := es + [e];
    if es == [] {
      assert all[0] == e && all[1..] == [] && DenotesAll(Nil, []);
    } else {
      AppendDenotes(n.sibling, es[1..], m, e);
      assert all[1..] == es[1..] + [e];
      assert Denotes(Append(n, m), es[0]);
    }
  }

  /** Linking a newly planted tree behind a planted chain. */
  lemma AppendPlanted(t: seq<Cell>, t1: seq<Cell>, t2: seq<Cell>, n: Node, m: Node, k1: int, k2: int, t3: seq<Cell>)
    requires n.Node? && Planted(t, t1, n) && Grown(t, t1, k1) && Planted(t1, t2, m) && Grown(t1, t2, k2)
    requires 0 <= LastSlot(n) < |t2| && t3 == t2[LastSlot(n) := t2[LastSlot(n)].(sibling := Ref(m))]
    ensures Planted(t, t3, Append(n, m)) && Grown(t, t3, k1 + k2)
  {
    PlantedGrown(t, t1, t2, n, k2);
    PlantedApart(t, t1, t2, n, m);
    PlantedEarlier(t, t1, t2, m, k1);
    GrownTwice(t, t1, t2, k1, k2);
    AppendHolds(t2, n, m, t3);
    AppendProper(n, m);
    LastSlotIn(n);
    SlotsUsed(t2, n);
    FreeUpdate(t2, LastSlot(n), t2[LastSlot(n)].(sibling := Ref(m)));
  }
}
