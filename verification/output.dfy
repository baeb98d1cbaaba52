/** The output step of `create_mod` (src/helper.rs:240-256): the operations
    of every registered node, in registration order, leaving out the nodes
    whose operations are empty.
 */
module Output {
  import opened Wrappers
  import opened Paths
  import opened Content
  import opened States
  import opened Identifiers
  import opened ModOps
  import opened Registration

  /** The operations written for one node. */
  datatype Patch = Patch(id: Identifier, ops: ModOps)

  /** The patches of `ids`: exactly the nodes whose content carries some
      leaf value get one, holding the operations their content and state
      compile to. */
  function ModOutputs(ids: seq<Identifier>, states: map<Identifier, State>, contents: map<Identifier, XmlNode>): (r: seq<Patch>)
    requires forall i :: 0 <= i < |ids| ==> ids[i] in states && ids[i] in contents
    ensures |r| <= |ids|
    ensures forall k :: 0 <= k < |r| ==>
      && r[k].id in ids
      && !r[k].ops.NoOps?
      && r[k].ops == CreateModOps(contents[r[k].id], states[r[k].id])
    ensures forall i :: 0 <= i < |ids| ==>
      (HasLeafData(contents[ids[i]]) <==> exists k :: 0 <= k < |r| && r[k].id == ids[i])
    decreases |ids|
  {
    if ids == [] then []
    else
      var rest := ModOutputs(ids[1..], states, contents);
      var ops := CreateModOps(contents[ids[0]], states[ids[0]]);
      assert forall i :: 1 <= i < |ids| ==> ids[1..][i - 1] == ids[i];
      if ops.NoOps? then rest
      else
        var out := [Patch(ids[0], ops)] + rest;
        assert forall k :: 0 <= k < |rest| ==> out[k + 1] == rest[k];
        assert out[0].id == ids[0];
        out
  }

  /** The positions from `i` on of the nodes of `ids` whose content
      carries a leaf value, in registration order. */
  ghost function LeafPositions(ids: seq<Identifier>, contents: map<Identifier, XmlNode>, i: nat): (r: seq<nat>)
    requires i <= |ids|
    requires forall j :: 0 <= j < |ids| ==> ids[j] in contents
    ensures forall j :: 0 <= j < |r| ==> i <= r[j] < |ids| && HasLeafData(contents[ids[r[j]]])
    ensures forall a, b :: 0 <= a < b < |r| ==> r[a] < r[b]
    ensures forall k :: i <= k < |ids| && HasLeafData(contents[ids[k]]) ==> k in r
    decreases |ids| - i
  {
    if i == |ids| then []
    else (if HasLeafData(contents[ids[i]]) then [i] else []) + LeafPositions(ids, contents, i + 1)
  }

  /** The patches of the nodes at the positions `kept`, in that order. */
  function PatchesAt(ids: seq<Identifier>, states: map<Identifier, State>, contents: map<Identifier, XmlNode>, kept: seq<nat>): seq<Patch>
    requires forall i :: 0 <= i < |ids| ==> ids[i] in states && ids[i] in contents
    requires forall j :: 0 <= j < |kept| ==> kept[j] < |ids|
  {
    if kept == [] then []
    else [Patch(ids[kept[0]], CreateModOps(contents[ids[kept[0]]], states[ids[kept[0]]]))]
         + PatchesAt(ids, states, contents, kept[1..])
  }

  /** The `j`-th patch of `PatchesAt` is that of the node at the `j`-th position. */
  lemma {:induction false} PatchesAtIndex(ids: seq<Identifier>, states: map<Identifier, State>, contents: map<Identifier, XmlNode>, kept: seq<nat>)
    requires forall i :: 0 <= i < |ids| ==> ids[i] in states && ids[i] in contents
    requires forall j :: 0 <= j < |kept| ==> kept[j] < |ids|
    ensures |PatchesAt(ids, states, contents, kept)| == |kept|
    ensures forall j :: 0 <= j < |kept| ==> PatchesAt(ids, states, contents, kept)[j].id == ids[kept[j]]
  {
    if kept != [] {
      PatchesAtIndex(ids, states, contents, kept[1..]);
      forall j | 1 <= j < |kept| ensures PatchesAt(ids, states, contents, kept)[j].id == ids[kept[j]] {
        assert PatchesAt(ids, states, contents, kept)[j] == PatchesAt(ids, states, contents, kept[1..])[j - 1];
        assert kept[1..][j - 1] == kept[j];
      }
    }
  }

  /** The first node's patch, if it gets one, then the rest's. */
  lemma ModOutputsCons(ids: seq<Identifier>, states: map<Identifier, State>, contents: map<Identifier, XmlNode>)
    requires ids != []
    requires forall i :: 0 <= i < |ids| ==> ids[i] in states && ids[i] in contents
    ensures ModOutputs(ids, states, contents)
            == (if HasLeafData(contents[ids[0]])
                then [Patch(ids[0], CreateModOps(contents[ids[0]], states[ids[0]]))] else [])
               + ModOutputs(ids[1..], states, contents)
  {
  }

  /** The patches of the nodes from `i` on are those of the nodes
      `LeafPositions` lists. */
  lemma {:induction false} ModOutputsFrom(ids: seq<Identifier>, states: map<Identifier, State>, contents: map<Identifier, XmlNode>, i: nat)
    requires i <= |ids|
    requires forall i :: 0 <= i < |ids| ==> ids[i] in states && ids[i] in contents
    ensures ModOutputs(ids[i..], states, contents) == PatchesAt(ids, states, contents, LeafPositions(ids, contents, i))
    decreases |ids| - i
  {
    if i < |ids| {
      ModOutputsFrom(ids, states, contents, i + 1);
      var t := ids[i..];
      assert t[1..] == ids[i + 1..] && t[0] == ids[i];
      ModOutputsCons(t, states, contents);
      var later := LeafPositions(ids, contents, i + 1);
      if HasLeafData(contents[ids[i]]) {
        var kept := LeafPositions(ids, contents, i);
        assert kept[0] == i && kept[1..] == later;
      } else {
        assert LeafPositions(ids, contents, i) == later;
      }
    }
  }

  /** The patches follow registration order: the `j`-th patch is that of
      the `j`-th node whose content carries a leaf value. */
  lemma ModOutputsOrdered(ids: seq<Identifier>, states: map<Identifier, State>, contents: map<Identifier, XmlNode>)
    requires forall i :: 0 <= i < |ids| ==> ids[i] in states && ids[i] in contents
    ensures |ModOutputs(ids, states, contents)| == |LeafPositions(ids, contents, 0)|
    ensures forall j :: 0 <= j < |ModOutputs(ids, states, contents)| ==>
      ModOutputs(ids, states, contents)[j].id == ids[LeafPositions(ids, contents, 0)[j]]
  {
    ModOutputsFrom(ids, states, contents, 0);
    assert ids[0..] == ids;
    PatchesAtIndex(ids, states, contents, LeafPositions(ids, contents, 0));
  }

  /** `out` holds, for every node of `reg` whose content carries a leaf
      value and for no other, in registration order, the operations its
      content and state compile to. */
  ghost predicate Writes(out: seq<Patch>, reg: Registry)
    requires KeysAgree(reg)
  {
    && (forall k :: 0 <= k < |out| ==>
          out[k].id in reg.ids && out[k].ops == CreateModOps(reg.contents[out[k].id], reg.states[out[k].id]))
    && (forall i :: 0 <= i < |reg.ids| ==>
          (HasLeafData(reg.contents[reg.ids[i]]) <==> exists k :: 0 <= k < |out| && out[k].id == reg.ids[i]))
    && |out| == |LeafPositions(reg.ids, reg.contents, 0)|
    && (forall k :: 0 <= k < |out| ==> out[k].id == reg.ids[LeafPositions(reg.ids, reg.contents, 0)[k]])
  }
  /** `create_mod` for one mod definition: register the DefaultValues nodes,
      templates and assets, then write out, for every registered node whose
      content carries a leaf value, the operations its content and state
      compile to. */
  function CreateMod(q: Query, rules: Rules, properties: seq<Document>, templates: seq<Document>, assets: seq<Document>): (r: Result<seq<Patch>>)
    ensures r.Ok? <==> RegisterAll(q, rules, properties, templates, assets).Ok?
    ensures r.Fatal? ==> r.error == RegisterAll(q, rules, properties, templates, assets).error
    ensures r.Ok? ==> Writes(r.value, RegisterAll(q, rules, properties, templates, assets).value)
    ensures r.Ok? ==> forall k :: 0 <= k < |r.value| ==>
      && r.value[k].id in RegisterAll(q, rules, properties, templates, assets).value.ids
      && Pruned(r.value[k].ops) && !r.value[k].ops.NoOps?
    ensures r.Ok? && rules == NoRules ==> forall k :: 0 <= k < |r.value| ==>
      ActionsAmong(r.value[k].ops, {Replace, AllowFromAncestor})
  {
    var reg :- RegisterAll(q, rules, properties, templates, assets);
    Ok(WriteMod(reg, q, rules))
  }

  /** The output of a registry: the patches of its nodes, pruned, and, when
      every node is included, made of replacements and "allow from
      ancestor" only. */
  function WriteMod(reg: Registry, q: Query, rules: Rules): (r: seq<Patch>)
    requires Valid(reg, q)
    ensures Writes(r, reg)
    ensures forall k :: 0 <= k < |r| ==> Pruned(r[k].ops) && !r[k].ops.NoOps?
    ensures AllIncluded(reg) ==> forall k :: 0 <= k < |r| ==> ActionsAmong(r[k].ops, {Replace, AllowFromAncestor})
  {
    var out := ModOutputs(reg.ids, reg.states, reg.contents);
    ModOutputsOrdered(reg.ids, reg.states, reg.contents);
    forall k | 0 <= k < |out|
      ensures Pruned(out[k].ops)
      ensures AllIncluded(reg) ==> ActionsAmong(out[k].ops, {Replace, AllowFromAncestor})
    {
      CreateModOpsActions(reg.contents[out[k].id], reg.states[out[k].id]);
    }
    out
  }
}
