/** Override states (src/state.rs) and how a node's state is decided
    (src/main.rs:276, 323-329, 368-380).
 */
module States {

  datatype State = Included | Excluded | ExcludedByAncestor | Forced | ForcedByAncestor

  /** The override intent a state carries, whether the node's own rule set it
      or it came from an ancestor. */
  datatype Intent = Neutral | Exclude | Force

  function IntentOf(s: State): Intent {
    match s
    case Included => Neutral
    case Excluded | ExcludedByAncestor => Exclude
    case Forced | ForcedByAncestor => Force
  }

  /** Set by a rule naming the node itself, not inherited. */
  predicate OwnRule(s: State) {
    s == Excluded || s == Forced
  }

  /** The state a node without a rule of its own takes from its parent:
      the parent's intent, marked as coming from an ancestor. */
  function Inherit(parent: State): (r: State)
    ensures IntentOf(r) == IntentOf(parent)
    ensures !OwnRule(r)
  {
    match parent
    case Included => Included
    case Excluded | ExcludedByAncestor => ExcludedByAncestor
    case Forced | ForcedByAncestor => ForcedByAncestor
  }

  /** Intent and "not set by an own rule" single out the inherited state. */
  lemma InheritUnique(parent: State, r: State)
    requires IntentOf(r) == IntentOf(parent) && !OwnRule(r)
    ensures r == Inherit(parent)
  {
  }

  /** An asset's state: being forced beats being excluded, which beats the
      parent's state; a parent's intent is passed on marked as inherited. */
  function AssetState(guid: string, forced: seq<string>, excluded: seq<string>, parent: State): (r: State)
    ensures guid in forced ==> r == Forced
    ensures guid !in forced && guid in excluded ==> r == Excluded
    ensures guid !in forced && guid !in excluded ==> IntentOf(r) == IntentOf(parent) && !OwnRule(r)
  {
    if guid in forced then Forced
    else if guid in excluded then Excluded
    else Inherit(parent)
  }

  /** A template is excluded exactly when its name is listed; it is never
      forced and never inherits. */
  function TemplateState(name: string, excludedTemplates: seq<string>): (r: State)
    ensures r == Excluded <==> name in excludedTemplates
    ensures r == Included || r == Excluded
  {
    if name in excludedTemplates then Excluded else Included
  }

  /** The state the DefaultValues node always has. */
  const DefaultValuesState: State := Included

  /** The intent of the last asset of `guids` named by a rule, if any. */
  function LastRuled(guids: seq<string>, forced: seq<string>, excluded: seq<string>): Intent
    decreases |guids|
  {
    if guids == [] then Neutral
    else
      var g := guids[|guids| - 1];
      if g in forced then Force
      else if g in excluded then Exclude
      else LastRuled(guids[..|guids| - 1], forced, excluded)
  }

  /** Some asset of `guids` is named by a rule. */
  predicate AnyRuled(guids: seq<string>, forced: seq<string>, excluded: seq<string>) {
    exists k :: 0 <= k < |guids| && (guids[k] in forced || guids[k] in excluded)
  }

  /** The state at the end of a chain of assets below an ancestor in state
      `root`, each deciding from its predecessor. */
  function ChainState(root: State, guids: seq<string>, forced: seq<string>, excluded: seq<string>): State
    decreases |guids|
  {
    if guids == [] then root
    else AssetState(guids[|guids| - 1], forced, excluded, ChainState(root, guids[..|guids| - 1], forced, excluded))
  }

  /** Intent travels unchanged down a chain: the end of the chain has the
      intent of the last asset a rule names, or the root's intent when no
      asset of the chain is named. */
  lemma {:induction false} ChainIntent(root: State, guids: seq<string>, forced: seq<string>, excluded: seq<string>)
    ensures IntentOf(ChainState(root, guids, forced, excluded)) ==
      if AnyRuled(guids, forced, excluded) then LastRuled(guids, forced, excluded) else IntentOf(root)
    decreases |guids|
  {
    if guids != [] {
      var n := |guids| - 1;
      var p := guids[..n];
      ChainIntent(root, p, forced, excluded);
      assert forall k :: 0 <= k < n ==> p[k] == guids[k];
      if guids[n] !in forced && guids[n] !in excluded {
        assert AnyRuled(guids, forced, excluded) <==> AnyRuled(p, forced, excluded);
      }
    }
  }
}
