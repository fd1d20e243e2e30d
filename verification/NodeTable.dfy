/** The node table of finsh, and trees stored in it. */
module FinshNodeTable {
  import opened FinshMachine
  import opened FinshSyntax
  import opened FinshCompiler

  /** No node. */
  const NULL := -1

  /** A table entry; links are slot numbers. */
  datatype Cell = Cell(kind: Kind, dtype: int, addr: bool, child: int, sibling: int)

  /** The link to a tree. */
  function Ref(n: Node): int { if n.Nil? then NULL else n.slot }

  /** The tree `n` is stored in the table, at its slots. */
  ghost predicate Holds(t: seq<Cell>, n: Node) {
    n.Node? ==>
      && 0 <= n.slot < |t| && t[n.slot] == Cell(n.kind, n.dtype, n.addr, Ref(n.child), Ref(n.sibling))
      && Holds(t, n.child) && Holds(t, n.sibling)
  }

  function Slots(n: Node): set<int> {
    if n.Nil? then {} else {n.slot} + Slots(n.child) + Slots(n.sibling)
  }

  /** No slot is used twice. */
  ghost predicate Distinct(n: Node) {
    n.Node? ==> n.slot !in Slots(n.child) && n.slot !in Slots(n.sibling) && Slots(n.child) !! Slots(n.sibling) &&
                Distinct(n.child) && Distinct(n.sibling)
  }

  /** Outside `s`, the tables agree. */
  ghost predicate SameBut(t: seq<Cell>, t': seq<Cell>, s: set<int>) {
    |t'| == |t| && forall i :: 0 <= i < |t| && i !in s ==> t'[i] == t[i]
  }

  /** A tree survives changes outside its slots. */
  lemma {:induction false} HoldsFrame(t: seq<Cell>, t': seq<Cell>, n: Node, s: set<int>)
    requires Holds(t, n) && SameBut(t, t', s) && s !! Slots(n)
    ensures Holds(t', n)
  {
    if n.Node? {
      HoldsFrame(t, t', n.child, s);
      HoldsFrame(t, t', n.sibling, s);
    }
  }

  lemma {:induction false} CheckSlots(n: Node, isAddr: bool)
    ensures Slots(Check(n, isAddr)) == Slots(n) && Ref(Check(n, isAddr)) == Ref(n)
    ensures Distinct(n) ==> Distinct(Check(n, isAddr))
  {
    if n.Node? {
      CheckSlots(n.child, ChildWantsAddr(n.kind, isAddr));
      CheckSlots(n.sibling, false);
    }
  }

  class NodeTable {
    const nodes: array<Cell>

    /** `finsh_node_init`. */
    constructor (max: nat)
      ensures nodes.Length == max && fresh(nodes) && forall i :: 0 <= i < max ==> nodes[i] == Cell(Unknown, VOID, false, NULL, NULL)
    {
      nodes := new Cell[max](_ => Cell(Unknown, VOID, false, NULL, NULL));
    }

    /** `finsh_type_check`. */
    method TypeCheck(i: int, isAddr: bool, ghost n: Node)
      requires i == Ref(n) && Holds(nodes[..], n) && Distinct(n)
      modifies nodes
      ensures Holds(nodes[..], Check(n, isAddr)) && SameBut(old(nodes[..]), nodes[..], Slots(n))
      decreases n, 0
    {
      if i == NULL {
        return;
      }
      hide Check;
      ghost var t := nodes[..];
      ghost var wants := ChildWantsAddr(n.kind, isAddr);
      TypeCheckChild(nodes[i].kind, nodes[i].child, isAddr, n.child);
      ghost var t1 := nodes[..];
      HoldsFrame(t, t1, n.sibling, Slots(n.child));
      CheckSlots(n.child, wants);
      TypeCheck(nodes[i].sibling, false, n.sibling);
      ghost var t2 := nodes[..];
      CheckSlots(n.sibling, false);
      HoldsFrame(t1, t2, Check(n.child, wants), Slots(n.sibling));
      SetAttributes(i, isAddr);
      CheckNode(t2, nodes[..], n, isAddr);
    }

    /** The child of a node of kind `kind`. */
    method TypeCheckChild(kind: Kind, i: int, isAddr: bool, ghost n: Node)
      requires i == Ref(n) && Holds(nodes[..], n) && Distinct(n)
      modifies nodes
      ensures Holds(nodes[..], Check(n, ChildWantsAddr(kind, isAddr))) && SameBut(old(nodes[..]), nodes[..], Slots(n))
      decreases n, 1
    {
      if kind.Assignment? || kind.PreStep? || kind.GetAddr? {
        TypeCheck(i, true, n);
      } else if kind.GetValue? && isAddr {
        TypeCheck(i, false, n);
      } else {
        TypeCheck(i, isAddr, n);
      }
    }

    /** The attribute part of `finsh_type_check`. */
    method SetAttributes(i: int, isAddr: bool)
      requires 0 <= i < nodes.Length && -1 <= nodes[i].child < nodes.Length
      modifies nodes
      ensures var c := old(nodes[i]);
              nodes[..] == old(nodes[..])[i := c.(
                addr := if c.kind.Id? && c.kind.sym.SyscallSymbol? && !c.addr then c.addr else c.addr || isAddr,
                dtype := if c.child != NULL then old(nodes[c.child]).dtype else LeafType(c.kind, c.dtype))]
    {
      var kind := nodes[i].kind;
      if !(kind.Id? && kind.sym.SyscallSymbol? && !nodes[i].addr) {
        nodes[i] := nodes[i].(addr := nodes[i].addr || isAddr);
      }
      if nodes[i].child != NULL {
        nodes[i] := nodes[i].(dtype := nodes[nodes[i].child].dtype);
        return;
      }
      if (kind.Id? && !kind.sym.SyscallSymbol?) || kind.Value? {
        nodes[i] := nodes[i].(dtype := DWORD);
      }
    }
  }

  /** Once both sub-trees are checked, setting the attributes completes the node. */
  lemma CheckNode(t: seq<Cell>, t': seq<Cell>, n: Node, isAddr: bool)
    requires n.Node? && Distinct(n) && 0 <= n.slot < |t|
    requires t[n.slot] == Cell(n.kind, n.dtype, n.addr, Ref(n.child), Ref(n.sibling))
    requires Holds(t, Check(n.child, ChildWantsAddr(n.kind, isAddr))) && Holds(t, Check(n.sibling, false))
    requires var c := t[n.slot];
             && c.child < |t|
             && t' == t[n.slot := c.(
               addr := if c.kind.Id? && c.kind.sym.SyscallSymbol? && !c.addr then c.addr else c.addr || isAddr,
               dtype := if c.child >= 0 then t[c.child].dtype else LeafType(c.kind, c.dtype))]
    ensures Holds(t', Check(n, isAddr))
  {
    var c := Check(n.child, ChildWantsAddr(n.kind, isAddr));
    CheckSlots(n.child, ChildWantsAddr(n.kind, isAddr));
    CheckSlots(n.sibling, false);
    HoldsFrame(t, t', c, {n.slot});
    HoldsFrame(t, t', Check(n.sibling, false), {n.slot});
  }
}
