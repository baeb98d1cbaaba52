/** Compiling extracted content and a state into a pruned tree of patch
    operations (src/helper.rs:273-335).

    The program labels each operation with a descriptive string; here a
    label is an action paired with the field name it concerns.
 */
module ModOps {
  import opened Content
  import opened States

  /** What a leaf operation does to its field, one per label the program
      writes ("Replace", "Allow .. from ancestor", "Keep", ...). */
  datatype Action =
    | Replace
    | AllowFromAncestor
    | Keep
    | EnforceFromAncestor
    | KeepFromAncestor
    | ChangeToNewValue
    | SetToNewValue
    | Change
  {
    /** The value concerned is the one inherited from an ancestor. */
    predicate FromAncestor() {
      this == AllowFromAncestor || this == EnforceFromAncestor || this == KeepFromAncestor
    }

    /** The field is to receive a new value. */
    predicate Changes() {
      this == ChangeToNewValue || this == SetToNewValue || this == Change
    }

    /** The field's current value is to be left as it is. */
    predicate Preserves() {
      this == Keep || this == KeepFromAncestor
    }
  }

  /** `ModOpsStructure`: an "add intermediate node" for a container the
      element does not define, the operations below a container it does
      define, one leaf operation, or nothing. */
  datatype ModOps =
    | AddIntermediate(field: string, children: seq<ModOps>)
    | Leafs(children: seq<ModOps>)
    | LeafOp(action: Action, field: string)
    | NoOps

  /** The decision table for a leaf, over (state, present). */
  function LeafAction(s: State, present: bool): (a: Action)
    ensures a.FromAncestor() <==> !present && s != Forced
    ensures a.Changes() <==> IntentOf(s) == Force && (present || s == Forced)
    ensures a.Preserves() <==> IntentOf(s) == Exclude && (present || s == ExcludedByAncestor)
    ensures a == EnforceFromAncestor <==> s == Excluded && !present
    ensures a == Replace <==> s == Included && present
    ensures a == AllowFromAncestor <==> !present && (s == Included || s == ForcedByAncestor)
    ensures a == Keep <==> present && (s == Excluded || s == ExcludedByAncestor)
    ensures a == KeepFromAncestor <==> s == ExcludedByAncestor && !present
    ensures a == ChangeToNewValue <==> s == Forced && present
    ensures a == SetToNewValue <==> s == Forced && !present
    ensures a == Change <==> s == ForcedByAncestor && present
  {
    match (s, present)
    case (Included, true) => Replace
    case (Included, false) => AllowFromAncestor
    case (Excluded, true) => Keep
    case (Excluded, false) => EnforceFromAncestor
    case (ExcludedByAncestor, true) => Keep
    case (ExcludedByAncestor, false) => KeepFromAncestor
    case (Forced, true) => ChangeToNewValue
    case (Forced, false) => SetToNewValue
    case (ForcedByAncestor, true) => Change
    case (ForcedByAncestor, false) => AllowFromAncestor
  }

  /** A leaf's action records whether the element defined the field, and,
      except for "allow from ancestor", the intent of its state. */
  lemma LeafActionRecords(s1: State, p1: bool, s2: State, p2: bool)
    requires LeafAction(s1, p1) == LeafAction(s2, p2)
    ensures p1 == p2
    ensures LeafAction(s1, p1) != AllowFromAncestor ==> IntentOf(s1) == IntentOf(s2)
  {
  }

  /** Some node of the content carries a leaf value. */
  ghost predicate HasLeafData(c: XmlNode)
    decreases c
  {
    match c.data
    case Leaf(_) => true
    case NoData => false
    case Branch(cs) => exists i :: 0 <= i < |cs| && HasLeafData(cs[i])
  }

  /** The number of content nodes that carry a leaf value. */
  function LeafDataCount(c: XmlNode): nat
    decreases c
  {
    match c.data
    case Leaf(_) => 1
    case NoData => 0
    case Branch(cs) => LeafDataCounts(cs)
  }

  function LeafDataCounts(cs: seq<XmlNode>): nat
    decreases cs
  {
    if cs == [] then 0 else LeafDataCount(cs[0]) + LeafDataCounts(cs[1..])
  }

  /** The number of leaf operations. */
  function LeafOpCount(o: ModOps): nat
    decreases o
  {
    match o
    case AddIntermediate(_, os) => LeafOpCounts(os)
    case Leafs(os) => LeafOpCounts(os)
    case LeafOp(_, _) => 1
    case NoOps => 0
  }

  function LeafOpCounts(os: seq<ModOps>): nat
    decreases os
  {
    if os == [] then 0 else LeafOpCount(os[0]) + LeafOpCounts(os[1..])
  }

  /** No operation list is empty or holds a `NoOps`, at any depth. */
  ghost predicate Pruned(o: ModOps)
    decreases o
  {
    match o
    case AddIntermediate(_, os) => os != [] && forall k :: 0 <= k < |os| ==> !os[k].NoOps? && Pruned(os[k])
    case Leafs(os) => os != [] && forall k :: 0 <= k < |os| ==> !os[k].NoOps? && Pruned(os[k])
    case LeafOp(_, _) => true
    case NoOps => true
  }

  /** `create_mod_ops`: a leaf value always yields a leaf operation chosen by
      the decision table; no value yields nothing; a container yields nothing
      when nothing below it survives, and otherwise lists what survives,
      asking first to add the container when the element does not define it.
      Nothing is pruned that carries a leaf value, and no leaf is invented. */
  function CreateModOps(c: XmlNode, s: State): (r: ModOps)
    ensures r.NoOps? <==> !HasLeafData(c)
    ensures c.data.Leaf? ==> r == LeafOp(LeafAction(s, c.present), c.name)
    ensures c.data.NoData? ==> r.NoOps?
    ensures c.data.Branch? && !r.NoOps? ==> (r.Leafs? <==> c.present) && (r.AddIntermediate? <==> !c.present)
    ensures r.AddIntermediate? ==> r.field == c.name
    ensures Pruned(r)
    ensures LeafOpCount(r) == LeafDataCount(c)
    decreases c
  {
    match c.data
    case Branch(cs) =>
      var os := ChildOps(cs, s);
      if os == [] then NoOps
      else if c.present then Leafs(os)
      else AddIntermediate(c.name, os)
    case Leaf(_) => LeafOp(LeafAction(s, c.present), c.name)
    case NoData => NoOps
  }

  /** The surviving operations of a container's children, in order (see
      `ChildOpsOrdered` for which operations they are). */
  function ChildOps(cs: seq<XmlNode>, s: State): (r: seq<ModOps>)
    ensures |r| <= |cs|
    ensures forall k :: 0 <= k < |r| ==> !r[k].NoOps? && Pruned(r[k])
    ensures r == [] <==> forall k :: 0 <= k < |cs| ==> !HasLeafData(cs[k])
    ensures LeafOpCounts(r) == LeafDataCounts(cs)
    decreases cs
  {
    if cs == [] then []
    else
      var first := CreateModOps(cs[0], s);
      var rest := ChildOps(cs[1..], s);
      assert forall k :: 1 <= k < |cs| ==> cs[1..][k - 1] == cs[k];
      if first.NoOps? then rest else [first] + rest
  }

  /** Every leaf operation of `o` has one of the `allowed` actions. */
  ghost predicate ActionsAmong(o: ModOps, allowed: set<Action>)
    decreases o
  {
    match o
    case AddIntermediate(_, os) => forall k :: 0 <= k < |os| ==> ActionsAmong(os[k], allowed)
    case Leafs(os) => forall k :: 0 <= k < |os| ==> ActionsAmong(os[k], allowed)
    case LeafOp(a, _) => a in allowed
    case NoOps => true
  }

  /** The actions a node's state permits: the table's row for that state. */
  function Permitted(s: State): (acts: set<Action>)
    ensures forall a :: a in acts ==> a.Changes() ==> IntentOf(s) == Force
    ensures forall a :: a in acts ==> a.Preserves() ==> IntentOf(s) == Exclude
    ensures s == Included ==> acts == {Replace, AllowFromAncestor}
  {
    {LeafAction(s, true), LeafAction(s, false)}
  }

  /** One state governs the whole tree of operations: every leaf action is
      taken from the state's row of the table, so an included node only
      replaces or allows, an excluded one never changes a value, and a
      forced one never keeps one. */
  lemma {:induction false} CreateModOpsActions(c: XmlNode, s: State)
    ensures ActionsAmong(CreateModOps(c, s), Permitted(s))
    decreases c
  {
    match c.data
    case Branch(cs) => ChildOpsActions(cs, s);
    case Leaf(_) =>
    case NoData =>
  }

  lemma {:induction false} ChildOpsActions(cs: seq<XmlNode>, s: State)
    ensures forall k :: 0 <= k < |ChildOps(cs, s)| ==> ActionsAmong(ChildOps(cs, s)[k], Permitted(s))
    decreases cs
  {
    if cs != [] {
      CreateModOpsActions(cs[0], s);
      ChildOpsActions(cs[1..], s);
    }
  }

  /** The positions from `i` on of the children that carry a leaf value,
      in document order. */
  function KeptFrom(cs: seq<XmlNode>, s: State, i: nat): (r: seq<nat>)
    requires i <= |cs|
    ensures forall j :: 0 <= j < |r| ==> i <= r[j] < |cs| && HasLeafData(cs[r[j]])
    ensures forall a, b :: 0 <= a < b < |r| ==> r[a] < r[b]
    ensures forall k :: i <= k < |cs| && HasLeafData(cs[k]) ==> k in r
    decreases |cs| - i
  {
    if i == |cs| then []
    else (if CreateModOps(cs[i], s).NoOps? then [] else [i]) + KeptFrom(cs, s, i + 1)
  }

  /** The operations of the children at the positions `kept`, in that order. */
  function OpsAt(cs: seq<XmlNode>, s: State, kept: seq<nat>): seq<ModOps>
    requires forall j :: 0 <= j < |kept| ==> kept[j] < |cs|
  {
    if kept == [] then [] else [CreateModOps(cs[kept[0]], s)] + OpsAt(cs, s, kept[1..])
  }

  /** The `j`-th entry of `OpsAt` is the operations of the child at the
      `j`-th position. */
  lemma {:induction false} OpsAtIndex(cs: seq<XmlNode>, s: State, kept: seq<nat>)
    requires forall j :: 0 <= j < |kept| ==> kept[j] < |cs|
    ensures |OpsAt(cs, s, kept)| == |kept|
    ensures forall j :: 0 <= j < |kept| ==> OpsAt(cs, s, kept)[j] == CreateModOps(cs[kept[j]], s)
  {
    if kept != [] {
      OpsAtIndex(cs, s, kept[1..]);
      forall j | 1 <= j < |kept| ensures OpsAt(cs, s, kept)[j] == CreateModOps(cs[kept[j]], s) {
        assert OpsAt(cs, s, kept)[j] == OpsAt(cs, s, kept[1..])[j - 1];
        assert kept[1..][j - 1] == kept[j];
      }
    }
  }

  /** The operations of the children from `i` on are those of the children
      `KeptFrom` lists. */
  lemma {:induction false} ChildOpsFrom(cs: seq<XmlNode>, s: State, i: nat)
    requires i <= |cs|
    ensures ChildOps(cs[i..], s) == OpsAt(cs, s, KeptFrom(cs, s, i))
    decreases |cs| - i
  {
    if i < |cs| {
      ChildOpsFrom(cs, s, i + 1);
      var t := cs[i..];
      assert t[1..] == cs[i + 1..];
      var first, later := CreateModOps(cs[i], s), KeptFrom(cs, s, i + 1);
      assert t[0] == cs[i];
      if first.NoOps? {
        assert KeptFrom(cs, s, i) == later;
        assert ChildOps(t, s) == ChildOps(cs[i + 1..], s);
      } else {
        var kept := KeptFrom(cs, s, i);
        assert kept == [i] + later;
        assert kept[0] == i && kept[1..] == later;
        assert OpsAt(cs, s, kept) == [first] + OpsAt(cs, s, later);
        assert ChildOps(t, s) == [first] + ChildOps(cs[i + 1..], s);
      }
    }
  }

  /** A container lists the operations of its children that carry a leaf
      value, each child's own, in document order: the `j`-th listed
      operation is that of the `j`-th such child. */
  lemma ChildOpsOrdered(cs: seq<XmlNode>, s: State)
    ensures |ChildOps(cs, s)| == |KeptFrom(cs, s, 0)|
    ensures forall j :: 0 <= j < |ChildOps(cs, s)| ==>
      ChildOps(cs, s)[j] == CreateModOps(cs[KeptFrom(cs, s, 0)[j]], s)
  {
    ChildOpsFrom(cs, s, 0);
    assert cs[0..] == cs;
    OpsAtIndex(cs, s, KeptFrom(cs, s, 0));
  }

  /** Every child that carries a leaf value has its operations listed. */
  lemma ChildOpsIncludes(cs: seq<XmlNode>, s: State, k: nat)
    requires k < |cs| && HasLeafData(cs[k])
    ensures CreateModOps(cs[k], s) in ChildOps(cs, s)
  {
    ChildOpsOrdered(cs, s);
    var kept := KeptFrom(cs, s, 0);
    assert k in kept;
    var j :| 0 <= j < |kept| && kept[j] == k;
    assert ChildOps(cs, s)[j] == CreateModOps(cs[k], s);
  }

  /** Nothing but the operations of a child that carries a leaf value is
      listed. */
  lemma ChildOpsOnly(cs: seq<XmlNode>, s: State, o: ModOps)
    requires o in ChildOps(cs, s)
    ensures exists k :: 0 <= k < |cs| && HasLeafData(cs[k]) && o == CreateModOps(cs[k], s)
  {
    ChildOpsOrdered(cs, s);
    var r, kept := ChildOps(cs, s), KeptFrom(cs, s, 0);
    var j :| 0 <= j < |r| && r[j] == o;
    assert HasLeafData(cs[kept[j]]) && o == CreateModOps(cs[kept[j]], s);
  }
}
