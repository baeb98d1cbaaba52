/** The registration pass of `create_mod` (src/main.rs:236-405): the
    DefaultValues nodes of every properties file, then the templates, then
    the assets, each visited once in order. A node that is not skipped is
    appended to `identifiers` and recorded in the per-identifier maps; nodes
    that can be parents are also recorded under their parent key.
 */
module Registration {
  import opened Wrappers
  import opened Xml
  import opened Paths
  import opened Content
  import opened States
  import opened Identifiers

  datatype NodeType = DefaultValuesNode | TemplateNode | AssetNode

  /** The maps `create_mod` fills. Rust's `HashMap::insert` replaces the
      entry of a key already present, as map update does here. */
  datatype Registry = Registry(
    ids: seq<Identifier>,
    nodeTypes: map<Identifier, NodeType>,
    asParent: map<ParentKey, Identifier>,
    parents: map<Identifier, ParentKey>,
    states: map<Identifier, State>,
    contents: map<Identifier, XmlNode>)

  const EmptyRegistry := Registry([], map[], map[], map[], map[], map[])

  /** The three rule lists of a mod definition. */
  datatype Rules = Rules(excludedTemplates: seq<string>, forcedGuids: seq<string>, excludedGuids: seq<string>)

  /** `k` is the right key for node `id` of type `t` to be found under. */
  predicate KeyFits(k: ParentKey, id: Identifier, t: NodeType) {
    match k
    case NoParent => false
    case DefaultValuesKey => t == DefaultValuesNode
    case TemplateKey(name) => t == TemplateNode && id.kind == ByName && id.value == name
    case GuidKey(guid) => t == AssetNode && id.kind == ByGuid && id.value == guid
  }

  /** What is recorded for a node agrees with what kind of node it is. */
  predicate Fits(id: Identifier, t: NodeType, link: ParentKey, s: State, c: XmlNode) {
    match t
    case DefaultValuesNode => id.kind == ByXPath && link == NoParent && s == Included && c.present
    case TemplateNode => id.kind == ByName && link == DefaultValuesKey && (s == Included || s == Excluded) && c.present
    case AssetNode => id.kind != ByName && (link.TemplateKey? || link.GuidKey?)
  }

  /** Every identifier pushed, and nothing else, has an entry in every map. */
  ghost predicate KeysAgree(reg: Registry) {
    && (forall id :: id in reg.nodeTypes <==> id in reg.ids)
    && reg.parents.Keys == reg.nodeTypes.Keys
    && reg.states.Keys == reg.nodeTypes.Keys
    && reg.contents.Keys == reg.nodeTypes.Keys
  }

  /** The entries of each node agree with one another. */
  ghost predicate EntriesFit(reg: Registry, q: Query)
    requires KeysAgree(reg)
  {
    forall id :: id in reg.nodeTypes ==>
      && Fits(id, reg.nodeTypes[id], reg.parents[id], reg.states[id], reg.contents[id])
      && reg.contents[id].name == q.name
  }

  /** Parents are registered nodes, found under the key that fits them, and
      a template or an asset is found only after a DefaultValues node. */
  ghost predicate ParentsFit(reg: Registry) {
    && (forall k :: k in reg.asParent ==>
          reg.asParent[k] in reg.nodeTypes && KeyFits(k, reg.asParent[k], reg.nodeTypes[reg.asParent[k]]))
    && (reg.asParent != map[] ==> DefaultValuesKey in reg.asParent)
  }

  /** The invariant relating the maps. */
  ghost predicate Valid(reg: Registry, q: Query) {
    KeysAgree(reg) && EntriesFit(reg, q) && ParentsFit(reg)
  }

  lemma EmptyValid(q: Query)
    ensures Valid(EmptyRegistry, q)
  {
  }

  /** `reg` with node `id` appended and recorded, and, unless `key` is
      `NoParent`, found as a parent under `key`. */
  function Enter(reg: Registry, id: Identifier, t: NodeType, link: ParentKey, s: State, c: XmlNode, key: ParentKey): Registry {
    reg.(ids := reg.ids + [id],
         nodeTypes := reg.nodeTypes[id := t],
         asParent := if key == NoParent then reg.asParent else reg.asParent[key := id],
         parents := reg.parents[id := link],
         states := reg.states[id := s],
         contents := reg.contents[id := c])
  }

  lemma EnterKeysAgree(reg: Registry, id: Identifier, t: NodeType, link: ParentKey, s: State, c: XmlNode, key: ParentKey)
    requires KeysAgree(reg)
    ensures KeysAgree(Enter(reg, id, t, link, s, c, key))
  {
    var r := Enter(reg, id, t, link, s, c, key);
    assert r.nodeTypes.Keys == reg.nodeTypes.Keys + {id};
    assert r.parents.Keys == reg.parents.Keys + {id};
    assert r.states.Keys == reg.states.Keys + {id};
    assert r.contents.Keys == reg.contents.Keys + {id};
  }

  lemma EnterEntriesFit(reg: Registry, q: Query, id: Identifier, t: NodeType, link: ParentKey, s: State, c: XmlNode, key: ParentKey)
    requires KeysAgree(reg) && EntriesFit(reg, q)
    requires Fits(id, t, link, s, c) && c.name == q.name
    ensures KeysAgree(Enter(reg, id, t, link, s, c, key))
    ensures EntriesFit(Enter(reg, id, t, link, s, c, key), q)
  {
    EnterKeysAgree(reg, id, t, link, s, c, key);
  }

  lemma EnterParentsFit(reg: Registry, id: Identifier, t: NodeType, link: ParentKey, s: State, c: XmlNode, key: ParentKey)
    requires ParentsFit(reg)
    requires id in reg.nodeTypes ==> reg.nodeTypes[id] == t
    requires key == NoParent || KeyFits(key, id, t)
    requires key == NoParent || key == DefaultValuesKey || DefaultValuesKey in reg.asParent
    ensures ParentsFit(Enter(reg, id, t, link, s, c, key))
  {
    var r := Enter(reg, id, t, link, s, c, key);
    forall k | k in r.asParent
      ensures r.asParent[k] in r.nodeTypes && KeyFits(k, r.asParent[k], r.nodeTypes[r.asParent[k]])
    {
      if k != key {
        assert k in reg.asParent && r.asParent[k] == reg.asParent[k];
      }
    }
  }

  /** Entering a node keeps the maps related, provided what is recorded fits
      the node and the node does not change type. */
  lemma EnterValid(reg: Registry, q: Query, id: Identifier, t: NodeType, link: ParentKey, s: State, c: XmlNode, key: ParentKey)
    requires Valid(reg, q)
    requires Fits(id, t, link, s, c) && c.name == q.name
    requires id in reg.nodeTypes ==> reg.nodeTypes[id] == t
    requires key == NoParent || KeyFits(key, id, t)
    requires key == NoParent || key == DefaultValuesKey || DefaultValuesKey in reg.asParent
    ensures Valid(Enter(reg, id, t, link, s, c, key), q)
  {
    EnterEntriesFit(reg, q, id, t, link, s, c, key);
    EnterParentsFit(reg, id, t, link, s, c, key);
  }

  /** Only DefaultValues nodes have been registered yet. */
  ghost predicate OnlyDefaults(reg: Registry)
    requires KeysAgree(reg)
  {
    forall id :: id in reg.nodeTypes ==> reg.nodeTypes[id] == DefaultValuesNode
  }

  /** The rule lists of a mod definition without any rule. */
  const NoRules := Rules([], [], [])

  /** A node's state is the one the rules give a node of its type: the
      DefaultValues node is included, a template is excluded exactly when
      listed, and an asset is forced when its GUID is forced, otherwise
      excluded when its GUID is excluded, otherwise carries an inherited
      state. */
  predicate StateFits(id: Identifier, t: NodeType, s: State, rules: Rules) {
    match t
    case DefaultValuesNode => s == Included
    case TemplateNode => s == TemplateState(id.value, rules.excludedTemplates)
    case AssetNode =>
      && (id.value in rules.forcedGuids ==> s == Forced)
      && (id.value !in rules.forcedGuids && id.value in rules.excludedGuids ==> s == Excluded)
      && (id.value !in rules.forcedGuids && id.value !in rules.excludedGuids ==> !OwnRule(s))
  }

  /** Every registered node's state is the one the rules give it. */
  ghost predicate RulesHold(reg: Registry, rules: Rules)
    requires KeysAgree(reg)
  {
    forall id :: id in reg.nodeTypes ==> StateFits(id, reg.nodeTypes[id], reg.states[id], rules)
  }

  /** Every registered node is included. */
  ghost predicate AllIncluded(reg: Registry) {
    forall id :: id in reg.states ==> reg.states[id] == Included
  }

  /** `after` holds every identifier `before` holds, in the same order, and
      possibly more after them. */
  ghost predicate Extends(before: Registry, after: Registry) {
    |before.ids| <= |after.ids| && after.ids[..|before.ids|] == before.ids
  }

  /** Entering a node keeps the earlier identifiers in front, and keeps the
      registry free of assets when the node is not one. */
  lemma EnterExtends(reg: Registry, id: Identifier, t: NodeType, link: ParentKey, s: State, c: XmlNode, key: ParentKey)
    ensures Extends(reg, Enter(reg, id, t, link, s, c, key))
  {
    var r := Enter(reg, id, t, link, s, c, key);
    assert r.ids[..|reg.ids|] == reg.ids;
  }

  /** Entering a node whose state fits the rules keeps every state fitting
      them; entering an included node keeps every node included; entering a
      DefaultValues node keeps a registry of DefaultValues nodes one. */
  lemma EnterStates(reg: Registry, rules: Rules, id: Identifier, t: NodeType, link: ParentKey, s: State, c: XmlNode, key: ParentKey)
    requires KeysAgree(reg)
    ensures KeysAgree(Enter(reg, id, t, link, s, c, key))
    ensures RulesHold(reg, rules) && StateFits(id, t, s, rules) ==> RulesHold(Enter(reg, id, t, link, s, c, key), rules)
    ensures AllIncluded(reg) && s == Included ==> AllIncluded(Enter(reg, id, t, link, s, c, key))
    ensures OnlyDefaults(reg) && t == DefaultValuesNode ==> OnlyDefaults(Enter(reg, id, t, link, s, c, key))
  {
    EnterKeysAgree(reg, id, t, link, s, c, key);
  }

  /** Entering a fitting node keeps the maps related, keeps earlier
      identifiers in front, keeps every state fitting the rules when the
      node's does, and keeps every node included when the node is. */
  lemma EnterKeeps(reg: Registry, q: Query, rules: Rules, id: Identifier, t: NodeType, link: ParentKey, s: State, c: XmlNode, key: ParentKey)
    requires Valid(reg, q)
    requires Fits(id, t, link, s, c) && c.name == q.name
    requires id in reg.nodeTypes ==> reg.nodeTypes[id] == t
    requires key == NoParent || KeyFits(key, id, t)
    requires key == NoParent || key == DefaultValuesKey || DefaultValuesKey in reg.asParent
    ensures var r := Enter(reg, id, t, link, s, c, key);
      && Valid(r, q) && Extends(reg, r)
      && (RulesHold(reg, rules) && StateFits(id, t, s, rules) ==> RulesHold(r, rules))
      && (AllIncluded(reg) && s == Included ==> AllIncluded(r))
  {
    EnterValid(reg, q, id, t, link, s, c, key);
    EnterExtends(reg, id, t, link, s, c, key);
    EnterStates(reg, rules, id, t, link, s, c, key);
  }

  /** A registry of DefaultValues nodes fits any rules, and, registered
      without rules, is all included. */
  lemma OnlyDefaultsFit(reg: Registry, q: Query, rules: Rules)
    requires Valid(reg, q) && OnlyDefaults(reg)
    ensures RulesHold(reg, rules)
    ensures AllIncluded(reg)
  {
    forall id | id in reg.nodeTypes
      ensures StateFits(id, reg.nodeTypes[id], reg.states[id], rules) && reg.states[id] == Included
    {
      assert Fits(id, reg.nodeTypes[id], reg.parents[id], reg.states[id], reg.contents[id]);
    }
  }

  /** The content templates and assets are extracted against:
      `contents.get(&identifiers_as_parent[&DefaultValues])`. */
  function DefaultsContent(reg: Registry): Option<XmlNode> {
    if DefaultValuesKey in reg.asParent && reg.asParent[DefaultValuesKey] in reg.contents
    then Some(reg.contents[reg.asParent[DefaultValuesKey]])
    else None
  }

  /** One DefaultValues node (src/main.rs:261-278). It is registered only
      when it has exactly one child named like the query root and its
      content, extracted without a parent, exists. It then becomes the
      DefaultValues parent, replacing an earlier one. */
  function RegisterDefaults(reg: Registry, q: Query, n: Located): (r: Result<Registry>)
    requires Valid(reg, q)
    requires OnlyDefaults(reg)
    ensures r.Ok? ==> Valid(r.value, q) && OnlyDefaults(r.value) && Extends(reg, r.value)
    ensures !HasDirectChild(n.elem, q) ==> r == Ok(reg)
    ensures HasDirectChild(n.elem, q) && ExtractContent(n.elem, q, None).Ok? ==>
      var id := DefaultValuesIdentifier(n.file, n.xpath);
      r == match ExtractContent(n.elem, q, None).value
        case None => Ok(reg)
        case Some(c) =>
          Ok(Enter(reg, id, DefaultValuesNode, NoParent, DefaultValuesState, c, DefaultValuesKey))
    ensures HasDirectChild(n.elem, q) && ExtractContent(n.elem, q, None).Fatal? ==>
              r == Fatal(ExtractContent(n.elem, q, None).error)
  {
    var id := DefaultValuesIdentifier(n.file, n.xpath);
    if !HasDirectChild(n.elem, q) then Ok(reg)
    else
      var content :- ExtractContent(n.elem, q, None);
      match content
      case None => Ok(reg)
      case Some(c) =>
        ExtractPresent(n.elem, q, None);
        EnterValid(reg, q, id, DefaultValuesNode, NoParent, Included, c, DefaultValuesKey);
        EnterExtends(reg, id, DefaultValuesNode, NoParent, Included, c, DefaultValuesKey);
        EnterStates(reg, NoRules, id, DefaultValuesNode, NoParent, Included, c, DefaultValuesKey);
        Ok(Enter(reg, id, DefaultValuesNode, NoParent, Included, c, DefaultValuesKey))
  }

  /** One template (src/main.rs:299-331). It is skipped when it has no
      `Name`, when no `Properties` child has exactly one child named like
      the query root, or when its content does not exist. Otherwise it is
      registered with the parent key `DefaultValues`, its state from the
      excluded-template list, its content extracted against the DefaultValues
      content, and it becomes the parent under its name. */
  function RegisterTemplate(reg: Registry, q: Query, rules: Rules, n: Located): (r: Result<Registry>)
    requires Valid(reg, q)
    ensures var ti := TemplateIdentifier(n.file, n.elem);
      && (ti.Fatal? ==> r == Fatal(ti.error))
      && (ti == Ok(None) ==> r == Ok(reg))
    ensures var ti := TemplateIdentifier(n.file, n.elem);
            var has := HasPropertiesChild(n.elem, q);
      ti.Ok? && ti.value.Some? ==>
        && (has.Fatal? ==> r == Fatal(has.error))
        && (has == Ok(false) ==> r == Ok(reg))
        && (has == Ok(true) && DefaultValuesKey !in reg.asParent ==> r == Fatal(MissingDefaults))
    ensures var ti := TemplateIdentifier(n.file, n.elem);
            var x := ExtractFromProperties(n.elem, q, DefaultsContent(reg));
      ti.Ok? && ti.value.Some? && HasPropertiesChild(n.elem, q) == Ok(true) && DefaultValuesKey in reg.asParent ==>
        var id := ti.value.value;
        && (x.Fatal? ==> r == Fatal(x.error))
        && (x == Ok(None) ==> r == Ok(reg))
        && (x.Ok? && x.value.Some? ==>
              r == Ok(Enter(reg, id, TemplateNode, DefaultValuesKey,
                            TemplateState(id.value, rules.excludedTemplates), x.value.value, TemplateKey(id.value))))
  {
    var id :- TemplateIdentifier(n.file, n.elem);
    if id.None? then Ok(reg)
    else
      var has :- HasPropertiesChild(n.elem, q);
      if !has then Ok(reg)
      else if DefaultValuesKey !in reg.asParent then Fatal(MissingDefaults)
      else
        var content :- ExtractFromProperties(n.elem, q, DefaultsContent(reg));
        match content
        case None => Ok(reg)
        case Some(c) =>
          var state := TemplateState(id.value.value, rules.excludedTemplates);
          Ok(Enter(reg, id.value, TemplateNode, DefaultValuesKey, state, c, TemplateKey(id.value.value)))
  }

  /** A template registration that changes the registry enters the
      template it names, with the content extracted from `Properties`. */
  lemma RegisterTemplateChanged(reg: Registry, q: Query, rules: Rules, n: Located)
    requires Valid(reg, q)
    ensures var r := RegisterTemplate(reg, q, rules, n);
            var ti := TemplateIdentifier(n.file, n.elem);
            var x := ExtractFromProperties(n.elem, q, DefaultsContent(reg));
      r.Ok? && r.value != reg ==>
        && ti.Ok? && ti.value.Some?
        && HasPropertiesChild(n.elem, q) == Ok(true)
        && DefaultValuesKey in reg.asParent
        && x.Ok? && x.value.Some?
        && r.value == Enter(reg, ti.value.value, TemplateNode, DefaultValuesKey,
                            TemplateState(ti.value.value.value, rules.excludedTemplates), x.value.value,
                            TemplateKey(ti.value.value.value))
  {
  }

  /** Registering a template keeps the maps related, keeps earlier
      identifiers in front, keeps every state fitting the rules, and,
      without rules, keeps every node included. */
  lemma RegisterTemplateKeeps(reg: Registry, q: Query, rules: Rules, n: Located)
    requires Valid(reg, q)
    ensures var r := RegisterTemplate(reg, q, rules, n);
      && (r.Ok? ==> Valid(r.value, q) && Extends(reg, r.value))
      && (r.Ok? && RulesHold(reg, rules) ==> RulesHold(r.value, rules))
      && (r.Ok? && AllIncluded(reg) && rules == NoRules ==> AllIncluded(r.value))
  {
    var r := RegisterTemplate(reg, q, rules, n);
    RegisterTemplateChanged(reg, q, rules, n);
    if r.Ok? && r.value != reg {
      PropertiesContentPresent(n.elem, q, DefaultsContent(reg));
      TemplateEntered(reg, q, rules, r.value, TemplateIdentifier(n.file, n.elem).value.value,
                      ExtractFromProperties(n.elem, q, DefaultsContent(reg)).value.value);
    } else if r.Ok? {
      assert reg.ids[..|reg.ids|] == reg.ids;
    }
  }

  /** Entering a named template under a registered DefaultValues node keeps
      the invariants. */
  lemma TemplateEntered(reg: Registry, q: Query, rules: Rules, next: Registry, id: Identifier, c: XmlNode)
    requires Valid(reg, q)
    requires id.kind == ByName && DefaultValuesKey in reg.asParent
    requires c.present && c.name == q.name
    requires next == Enter(reg, id, TemplateNode, DefaultValuesKey, TemplateState(id.value, rules.excludedTemplates),
                           c, TemplateKey(id.value))
    ensures Valid(next, q) && Extends(reg, next)
    ensures RulesHold(reg, rules) ==> RulesHold(next, rules)
    ensures AllIncluded(reg) && rules == NoRules ==> AllIncluded(next)
  {
    var d := reg.asParent[DefaultValuesKey];
    assert reg.nodeTypes[d] == DefaultValuesNode;
    if id in reg.nodeTypes {
      assert reg.nodeTypes[id] == TemplateNode;
    }
    EnterKeeps(reg, q, rules, id, TemplateNode, DefaultValuesKey,
               TemplateState(id.value, rules.excludedTemplates), c, TemplateKey(id.value));
  }

  /** When `Properties` holds exactly one child named like the query root,
      the extracted template content is present. */
  lemma PropertiesContentPresent(e: Elem, q: Query, parent: Option<XmlNode>)
    requires HasPropertiesChild(e, q) == Ok(true)
    requires ExtractFromProperties(e, q, parent).Ok? && ExtractFromProperties(e, q, parent).value.Some?
    ensures ExtractFromProperties(e, q, parent).value.value.present
    ensures ExtractFromProperties(e, q, parent).value.value.name == q.name
  {
    NamedCases(e.children, "Properties");
    var i := IndexOfSole(e.children, "Properties");
    assert Sole(e.children, "Properties", i);
  }

  /** When the element has exactly one child named like the query root, the
      extracted content is present. */
  lemma ExtractPresent(e: Elem, q: Query, parent: Option<XmlNode>)
    requires HasDirectChild(e, q)
    requires ExtractContent(e, q, parent).Ok? && ExtractContent(e, q, parent).value.Some?
    ensures ExtractContent(e, q, parent).value.value.present
    ensures ExtractContent(e, q, parent).value.value.name == q.name
  {
  }

  /** The key an asset is found under as a parent: only GUID-named assets
      can be parents. */
  function AssetKey(id: Identifier): (k: ParentKey)
    ensures k != NoParent <==> id.kind == ByGuid
    ensures k != NoParent ==> k == GuidKey(id.value)
  {
    if id.kind == ByGuid then GuidKey(id.value) else NoParent
  }

  /** One asset (src/main.rs:352-404). It is skipped when its identifier is
      already registered, when it has no parent link, when no node has been
      registered under its parent key yet, or when its content does not
      exist. Otherwise it is registered with its parent link, its state from
      the GUID rules and the state of the node found under its parent key,
      and its content extracted against the DefaultValues content (not its
      parent's); a GUID-named asset becomes the parent under its GUID. */
  function RegisterAsset(reg: Registry, q: Query, rules: Rules, n: Located): (r: Result<Registry>)
    requires Valid(reg, q)
    ensures var ai := AssetIdentifier(n.file, n.xpath, n.elem);
      && (ai.Fatal? ==> r == Fatal(ai.error))
      && (ai.Ok? && ai.value in reg.ids ==> r == Ok(reg))
    ensures var ai := AssetIdentifier(n.file, n.xpath, n.elem);
            var link := AssetParent(n.elem);
      ai.Ok? && ai.value !in reg.ids ==>
        && (link.Fatal? ==> r == Fatal(link.error))
        && (link == Ok(NoParent) ==> r == Ok(reg))
        && (link.Ok? && link.value !in reg.asParent ==> r == Ok(reg))
    ensures var ai := AssetIdentifier(n.file, n.xpath, n.elem);
            var link := AssetParent(n.elem);
            var x := ExtractFromValues(n.elem, q, DefaultsContent(reg));
      ai.Ok? && ai.value !in reg.ids && link.Ok? && link.value != NoParent && link.value in reg.asParent ==>
        var id := ai.value;
        var state := AssetState(id.value, rules.forcedGuids, rules.excludedGuids, reg.states[reg.asParent[link.value]]);
        && (x.Fatal? ==> r == Fatal(x.error))
        && (x == Ok(None) ==> r == Ok(reg))
        && (x.Ok? && x.value.Some? ==>
              r == Ok(Enter(reg, id, AssetNode, link.value, state, x.value.value, AssetKey(id))))
  {
    var id :- AssetIdentifier(n.file, n.xpath, n.elem);
    if id in reg.ids then Ok(reg)
    else
      var link :- AssetParent(n.elem);
      if !(link.TemplateKey? || link.GuidKey?) then Ok(reg)
      else if link !in reg.asParent then Ok(reg)
      else
        var parent := reg.asParent[link];
        var state := AssetState(id.value, rules.forcedGuids, rules.excludedGuids, reg.states[parent]);
        var content :- ExtractFromValues(n.elem, q, DefaultsContent(reg));
        match content
        case None => Ok(reg)
        case Some(c) => Ok(Enter(reg, id, AssetNode, link, state, c, AssetKey(id)))
  }

  /** An asset registration that changes the registry enters the asset it
      names, under its parent link, with the content extracted from `Values`. */
  lemma RegisterAssetChanged(reg: Registry, q: Query, rules: Rules, n: Located)
    requires Valid(reg, q)
    ensures var r := RegisterAsset(reg, q, rules, n);
            var ai := AssetIdentifier(n.file, n.xpath, n.elem);
            var link := AssetParent(n.elem);
            var x := ExtractFromValues(n.elem, q, DefaultsContent(reg));
      r.Ok? && r.value != reg ==>
        && ai.Ok? && ai.value !in reg.ids && ai.value.kind != ByName
        && link.Ok? && (link.value.TemplateKey? || link.value.GuidKey?) && link.value in reg.asParent
        && x.Ok? && x.value.Some? && x.value.value.name == q.name
        && r.value == Enter(reg, ai.value, AssetNode, link.value,
                            AssetState(ai.value.value, rules.forcedGuids, rules.excludedGuids,
                                       reg.states[reg.asParent[link.value]]),
                            x.value.value, AssetKey(ai.value))
  {
  }

  /** Registering an asset keeps the maps related, keeps earlier identifiers
      in front, keeps every state fitting the rules, and, without rules,
      keeps every node included. */
  lemma RegisterAssetKeeps(reg: Registry, q: Query, rules: Rules, n: Located)
    requires Valid(reg, q)
    ensures var r := RegisterAsset(reg, q, rules, n);
      && (r.Ok? ==> Valid(r.value, q) && Extends(reg, r.value))
      && (r.Ok? && RulesHold(reg, rules) ==> RulesHold(r.value, rules))
      && (r.Ok? && AllIncluded(reg) && rules == NoRules ==> AllIncluded(r.value))
  {
    var r := RegisterAsset(reg, q, rules, n);
    RegisterAssetChanged(reg, q, rules, n);
    if r.Ok? && r.value != reg {
      AssetEntered(reg, q, rules, r.value, AssetIdentifier(n.file, n.xpath, n.elem).value,
                   AssetParent(n.elem).value, ExtractFromValues(n.elem, q, DefaultsContent(reg)).value.value);
    } else if r.Ok? {
      assert reg.ids[..|reg.ids|] == reg.ids;
    }
  }

  /** Entering a new asset under a registered parent link keeps the
      invariants. */
  lemma AssetEntered(reg: Registry, q: Query, rules: Rules, next: Registry, id: Identifier, link: ParentKey, c: XmlNode)
    requires Valid(reg, q)
    requires id !in reg.ids && id.kind != ByName
    requires (link.TemplateKey? || link.GuidKey?) && link in reg.asParent
    requires c.name == q.name
    requires next == Enter(reg, id, AssetNode, link,
                           AssetState(id.value, rules.forcedGuids, rules.excludedGuids, reg.states[reg.asParent[link]]),
                           c, AssetKey(id))
    ensures Valid(next, q) && Extends(reg, next)
    ensures RulesHold(reg, rules) ==> RulesHold(next, rules)
    ensures AllIncluded(reg) && rules == NoRules ==> AllIncluded(next)
  {
    var state := AssetState(id.value, rules.forcedGuids, rules.excludedGuids, reg.states[reg.asParent[link]]);
    EnterKeeps(reg, q, rules, id, AssetNode, link, state, c, AssetKey(id));
  }

  /** Extending keeps every identifier. */
  lemma ExtendsMembers(before: Registry, after: Registry)
    requires Extends(before, after)
    ensures forall id :: id in before.ids ==> id in after.ids
  {
    forall id | id in before.ids ensures id in after.ids {
      var j :| 0 <= j < |before.ids| && before.ids[j] == id;
      assert after.ids[..|before.ids|][j] == id;
    }
  }

  /** Entering a node that is not the DefaultValues node, under another key,
      leaves the DefaultValues content alone. */
  lemma EnterKeepsDefaults(reg: Registry, id: Identifier, t: NodeType, link: ParentKey, s: State, c: XmlNode, key: ParentKey)
    requires key != DefaultValuesKey
    requires DefaultValuesKey in reg.asParent ==> id != reg.asParent[DefaultValuesKey]
    ensures DefaultsContent(Enter(reg, id, t, link, s, c, key)) == DefaultsContent(reg)
  {
  }

  /** Extending is transitive. */
  lemma ExtendsTransitive(a: Registry, b: Registry, c: Registry)
    requires Extends(a, b) && Extends(b, c)
    ensures Extends(a, c)
  {
    assert c.ids[..|a.ids|] == c.ids[..|b.ids|][..|a.ids|];
  }

  /** The identifiers a registry holds. */
  ghost function IdSet(reg: Registry): set<Identifier> {
    set id | id in reg.ids
  }

  /** A DefaultValues node that gets registered: exactly one child named
      like the query root, and content extracted without a parent. */
  ghost predicate DefaultsQualify(n: Located, q: Query) {
    HasDirectChild(n.elem, q) && ExtractContent(n.elem, q, None).Ok? && ExtractContent(n.elem, q, None).value.Some?
  }

  /** The identifiers of the DefaultValues nodes of `ns` that get registered. */
  ghost function DefaultsIds(ns: seq<Located>, q: Query): set<Identifier> {
    set n | n in ns && DefaultsQualify(n, q) :: DefaultValuesIdentifier(n.file, n.xpath)
  }

  /** A template that gets registered against the DefaultValues content
      `dc`: it has a `Name`, a `Properties` child with exactly one child
      named like the query root, and content. */
  ghost predicate TemplateQualifies(n: Located, q: Query, dc: Option<XmlNode>) {
    var ti := TemplateIdentifier(n.file, n.elem);
    var x := ExtractFromProperties(n.elem, q, dc);
    ti.Ok? && ti.value.Some? && HasPropertiesChild(n.elem, q) == Ok(true) && x.Ok? && x.value.Some?
  }

  /** The identifiers of the templates of `ns` that get registered. */
  ghost function TemplateIds(ns: seq<Located>, q: Query, dc: Option<XmlNode>): set<Identifier> {
    set n | n in ns && TemplateQualifies(n, q, dc) :: TemplateIdentifier(n.file, n.elem).value.value
  }

  /** The identifiers of the assets of `ns`, whether registered or not. */
  ghost function AssetIds(ns: seq<Located>): set<Identifier> {
    set n | n in ns && AssetIdentifier(n.file, n.xpath, n.elem).Ok? :: AssetIdentifier(n.file, n.xpath, n.elem).value
  }

  /** An asset whose parent key is among `keys` and whose content against
      the DefaultValues content `dc` exists. */
  ghost predicate AssetReady(n: Located, q: Query, keys: set<ParentKey>, dc: Option<XmlNode>) {
    var ai := AssetIdentifier(n.file, n.xpath, n.elem);
    var link := AssetParent(n.elem);
    var x := ExtractFromValues(n.elem, q, dc);
    ai.Ok? && link.Ok? && link.value != NoParent && link.value in keys && x.Ok? && x.value.Some?
  }

  /** The identifiers of the assets of `ns` that are ready. */
  ghost function ReadyAssetIds(ns: seq<Located>, q: Query, keys: set<ParentKey>, dc: Option<XmlNode>): set<Identifier> {
    set n | n in ns && AssetReady(n, q, keys, dc) :: AssetIdentifier(n.file, n.xpath, n.elem).value
  }

  /** The identifiers of the DefaultValues nodes of `ns` that get
      registered, in visiting order. */
  ghost function DefaultsIdSeq(ns: seq<Located>, q: Query): seq<Identifier> {
    if ns == [] then []
    else (if DefaultsQualify(ns[0], q) then [DefaultValuesIdentifier(ns[0].file, ns[0].xpath)] else [])
         + DefaultsIdSeq(ns[1..], q)
  }

  /** The position of the last element of `xs` satisfying `p`, if any. */
  function LastWhere<T>(xs: seq<T>, p: T -> bool): (r: Option<nat>)
    ensures r.Some? ==> r.value < |xs| && p(xs[r.value])
    ensures r.Some? ==> forall j :: r.value < j < |xs| ==> !p(xs[j])
    ensures r.None? ==> forall j :: 0 <= j < |xs| ==> !p(xs[j])
  {
    if xs == [] then None
    else
      assert forall j :: 1 <= j < |xs| ==> xs[1..][j - 1] == xs[j];
      match LastWhere(xs[1..], p)
      case Some(k) => Some(k + 1)
      case None => if p(xs[0]) then Some(0) else None
  }

  /** The position of the last DefaultValues node of `ns` that gets
      registered, if any: the one left as the DefaultValues parent. */
  ghost function LastDefaults(ns: seq<Located>, q: Query): (r: Option<nat>)
    ensures r.Some? ==> r.value < |ns| && DefaultsQualify(ns[r.value], q)
    ensures r.Some? ==> forall j :: r.value < j < |ns| ==> !DefaultsQualify(ns[j], q)
    ensures r.None? ==> forall j :: 0 <= j < |ns| ==> !DefaultsQualify(ns[j], q)
  {
    LastWhere(ns, n => DefaultsQualify(n, q))
  }

  /** The identifiers of the templates of `ns` that get registered against
      the DefaultValues content `dc`, in visiting order. */
  ghost function TemplateIdSeq(ns: seq<Located>, q: Query, dc: Option<XmlNode>): seq<Identifier> {
    if ns == [] then []
    else (if TemplateQualifies(ns[0], q, dc) then [TemplateIdentifier(ns[0].file, ns[0].elem).value.value] else [])
         + TemplateIdSeq(ns[1..], q, dc)
  }

  /** The identifier of a template, if it has one. */
  ghost function TemplateIdOf(n: Located): Option<Identifier> {
    var ti := TemplateIdentifier(n.file, n.elem);
    if ti.Ok? then ti.value else None
  }

  /** A template that gets registered and is named `name`. */
  ghost predicate TemplateNamed(n: Located, q: Query, dc: Option<XmlNode>, name: string) {
    TemplateQualifies(n, q, dc) && TemplateIdOf(n).Some? && TemplateIdOf(n).value.value == name
  }

  /** The position of the last template of `ns` named `name` that gets
      registered, if any: the one left as the parent under that name. */
  ghost function LastTemplate(ns: seq<Located>, q: Query, dc: Option<XmlNode>, name: string): (r: Option<nat>)
    ensures r.Some? ==> r.value < |ns| && TemplateNamed(ns[r.value], q, dc, name)
    ensures r.Some? ==> forall j :: r.value < j < |ns| ==> !TemplateNamed(ns[j], q, dc, name)
    ensures r.None? ==> forall j :: 0 <= j < |ns| ==> !TemplateNamed(ns[j], q, dc, name)
  {
    LastWhere(ns, n => TemplateNamed(n, q, dc, name))
  }

  /** The identifiers of the assets of `ns`, in visiting order, whether
      registered or not. */
  ghost function AssetIdSeq(ns: seq<Located>): seq<Identifier> {
    if ns == [] then []
    else (if AssetIdentifier(ns[0].file, ns[0].xpath, ns[0].elem).Ok?
          then [AssetIdentifier(ns[0].file, ns[0].xpath, ns[0].elem).value] else [])
         + AssetIdSeq(ns[1..])
  }

  /** The node found under `key`, if any. */
  function ParentUnder(reg: Registry, key: ParentKey): Option<Identifier> {
    if key in reg.asParent then Some(reg.asParent[key]) else None
  }

  /** Appending twice appends the concatenation. */
  lemma AppendJoin<T>(a: seq<T>, b: seq<T>, c: seq<T>, x: seq<T>, y: seq<T>)
    requires b == a + x && c == b + y
    ensures c == a + (x + y)
  {
  }

  /** Entering a node adds its identifier to those held. */
  lemma EnterIds(reg: Registry, id: Identifier, t: NodeType, link: ParentKey, s: State, c: XmlNode, key: ParentKey)
    ensures IdSet(Enter(reg, id, t, link, s, c, key)) == IdSet(reg) + {id}
  {
    var r := Enter(reg, id, t, link, s, c, key);
    assert r.ids[|reg.ids|] == id;
  }

  /** What one DefaultValues node adds to the identifiers. */
  lemma DefaultsStep(reg: Registry, q: Query, n: Located, next: Registry)
    requires Valid(reg, q) && OnlyDefaults(reg)
    requires RegisterDefaults(reg, q, n) == Ok(next)
    ensures IdSet(next) == IdSet(reg) + (if DefaultsQualify(n, q) then {DefaultValuesIdentifier(n.file, n.xpath)} else {})
  {
    if DefaultsQualify(n, q) {
      var c := ExtractContent(n.elem, q, None).value.value;
      EnterIds(reg, DefaultValuesIdentifier(n.file, n.xpath), DefaultValuesNode, NoParent, DefaultValuesState, c, DefaultValuesKey);
    }
  }

  /** A qualifying DefaultValues node is appended to the identifiers; any
      other leaves them as they are. */
  lemma DefaultsStepIds(reg: Registry, q: Query, n: Located, next: Registry)
    requires Valid(reg, q) && OnlyDefaults(reg)
    requires RegisterDefaults(reg, q, n) == Ok(next)
    ensures next.ids == reg.ids + (if DefaultsQualify(n, q) then [DefaultValuesIdentifier(n.file, n.xpath)] else [])
  {
  }

  /** The first node's step followed by the rest's visit. */
  lemma DefaultsIdsJoin(reg: Registry, next: Registry, last: Registry, q: Query, ns: seq<Located>)
    requires ns != []
    requires next.ids == reg.ids + (if DefaultsQualify(ns[0], q) then [DefaultValuesIdentifier(ns[0].file, ns[0].xpath)] else [])
    requires last.ids == next.ids + DefaultsIdSeq(ns[1..], q)
    ensures last.ids == reg.ids + DefaultsIdSeq(ns, q)
  {
    var added := if DefaultsQualify(ns[0], q) then [DefaultValuesIdentifier(ns[0].file, ns[0].xpath)] else [];
    assert DefaultsIdSeq(ns, q) == added + DefaultsIdSeq(ns[1..], q);
    AppendJoin(reg.ids, next.ids, last.ids, added, DefaultsIdSeq(ns[1..], q));
  }

  /** A qualifying DefaultValues node becomes the DefaultValues parent;
      any other leaves the registry as it is. */
  lemma DefaultsStepWinner(reg: Registry, q: Query, n: Located, next: Registry)
    requires Valid(reg, q) && OnlyDefaults(reg)
    requires RegisterDefaults(reg, q, n) == Ok(next)
    ensures DefaultsContent(next) == if DefaultsQualify(n, q) then ExtractContent(n.elem, q, None).value else DefaultsContent(reg)
  {
  }

  /** The first node's step followed by the rest's visit leaves the
      content of the last qualifying node. */
  lemma DefaultsWinnerJoin(dReg: Option<XmlNode>, dNext: Option<XmlNode>, dLast: Option<XmlNode>, q: Query, ns: seq<Located>)
    requires ns != []
    requires dNext == if DefaultsQualify(ns[0], q) then ExtractContent(ns[0].elem, q, None).value else dReg
    requires dLast == match LastDefaults(ns[1..], q)
                      case None => dNext
                      case Some(k) => ExtractContent(ns[1..][k].elem, q, None).value
    ensures dLast == match LastDefaults(ns, q)
                     case None => dReg
                     case Some(k) => ExtractContent(ns[k].elem, q, None).value
  {
  }

  /** The DefaultValues identifiers of a visit: the first node's, then the rest's. */
  lemma DefaultsIdsSplit(ns: seq<Located>, q: Query)
    requires ns != []
    ensures DefaultsIds(ns, q)
            == (if DefaultsQualify(ns[0], q) then {DefaultValuesIdentifier(ns[0].file, ns[0].xpath)} else {})
               + DefaultsIds(ns[1..], q)
  {
    assert forall n :: n in ns <==> n == ns[0] || n in ns[1..];
  }

  /** Every DefaultValues node of the properties files, in order
      (src/main.rs:244-279): exactly the qualifying ones are added. */
  function DefaultsPass(reg: Registry, q: Query, ns: seq<Located>): (r: Result<Registry>)
    requires Valid(reg, q) && OnlyDefaults(reg)
    ensures r.Ok? ==> Valid(r.value, q) && OnlyDefaults(r.value) && Extends(reg, r.value)
    ensures r.Ok? ==> IdSet(r.value) == IdSet(reg) + DefaultsIds(ns, q)
    decreases |ns|
  {
    if ns == [] then Ok(reg)
    else
      var next :- RegisterDefaults(reg, q, ns[0]);
      var last :- DefaultsPass(next, q, ns[1..]);
      ExtendsTransitive(reg, next, last);
      DefaultsStep(reg, q, ns[0], next);
      DefaultsIdsSplit(ns, q);
      Ok(last)
  }

  /** A DefaultValues pass that succeeds is the first node's step followed
      by the rest's pass. */
  lemma DefaultsPassUnfold(reg: Registry, q: Query, ns: seq<Located>)
    requires Valid(reg, q) && OnlyDefaults(reg)
    requires ns != [] && DefaultsPass(reg, q, ns).Ok?
    ensures RegisterDefaults(reg, q, ns[0]).Ok?
    ensures Valid(RegisterDefaults(reg, q, ns[0]).value, q) && OnlyDefaults(RegisterDefaults(reg, q, ns[0]).value)
    ensures DefaultsPass(reg, q, ns) == DefaultsPass(RegisterDefaults(reg, q, ns[0]).value, q, ns[1..])
  {
  }

  /** The DefaultValues pass records the qualifying nodes in visiting
      order. */
  lemma {:induction false} DefaultsPassOrder(reg: Registry, q: Query, ns: seq<Located>)
    requires Valid(reg, q) && OnlyDefaults(reg)
    requires DefaultsPass(reg, q, ns).Ok?
    ensures DefaultsPass(reg, q, ns).value.ids == reg.ids + DefaultsIdSeq(ns, q)
    decreases |ns|
  {
    if ns != [] {
      DefaultsPassUnfold(reg, q, ns);
      var next := RegisterDefaults(reg, q, ns[0]).value;
      DefaultsStepIds(reg, q, ns[0], next);
      DefaultsPassOrder(next, q, ns[1..]);
      DefaultsIdsJoin(reg, next, DefaultsPass(reg, q, ns).value, q, ns);
    }
  }

  /** The last qualifying DefaultValues node is left as the DefaultValues
      parent, so its content is the one templates and assets are extracted
      against. */
  lemma {:induction false} DefaultsPassWinner(reg: Registry, q: Query, ns: seq<Located>)
    requires Valid(reg, q) && OnlyDefaults(reg)
    requires DefaultsPass(reg, q, ns).Ok?
    ensures DefaultsContent(DefaultsPass(reg, q, ns).value) == match LastDefaults(ns, q)
                                                              case None => DefaultsContent(reg)
                                                              case Some(k) => ExtractContent(ns[k].elem, q, None).value
    decreases |ns|
  {
    if ns != [] {
      DefaultsPassUnfold(reg, q, ns);
      var next := RegisterDefaults(reg, q, ns[0]).value;
      DefaultsStepWinner(reg, q, ns[0], next);
      DefaultsPassWinner(next, q, ns[1..]);
      DefaultsWinnerJoin(DefaultsContent(reg), DefaultsContent(next), DefaultsContent(DefaultsPass(reg, q, ns).value), q, ns);
    }
  }

  /** What one template adds to the identifiers; the DefaultValues content
      stays as it is. */
  lemma TemplateStep(reg: Registry, q: Query, rules: Rules, n: Located, next: Registry)
    requires Valid(reg, q)
    requires RegisterTemplate(reg, q, rules, n) == Ok(next)
    ensures DefaultsContent(next) == DefaultsContent(reg)
    ensures IdSet(next) == IdSet(reg) + (if TemplateQualifies(n, q, DefaultsContent(reg))
                                         then {TemplateIdentifier(n.file, n.elem).value.value} else {})
  {
    RegisterTemplateChanged(reg, q, rules, n);
    if TemplateQualifies(n, q, DefaultsContent(reg)) {
      var id := TemplateIdentifier(n.file, n.elem).value.value;
      var c := ExtractFromProperties(n.elem, q, DefaultsContent(reg)).value.value;
      var state := TemplateState(id.value, rules.excludedTemplates);
      assert next == Enter(reg, id, TemplateNode, DefaultValuesKey, state, c, TemplateKey(id.value));
      var d := reg.asParent[DefaultValuesKey];
      assert reg.nodeTypes[d] == DefaultValuesNode;
      assert d.kind == ByXPath;
      EnterKeepsDefaults(reg, id, TemplateNode, DefaultValuesKey, state, c, TemplateKey(id.value));
      EnterIds(reg, id, TemplateNode, DefaultValuesKey, state, c, TemplateKey(id.value));
    }
  }

  /** The template identifiers of a visit: the first template's, then the rest's. */
  lemma TemplateIdsSplit(ns: seq<Located>, q: Query, dc: Option<XmlNode>)
    requires ns != []
    ensures TemplateIds(ns, q, dc)
            == (if TemplateQualifies(ns[0], q, dc) then {TemplateIdentifier(ns[0].file, ns[0].elem).value.value} else {})
               + TemplateIds(ns[1..], q, dc)
  {
    assert forall n :: n in ns <==> n == ns[0] || n in ns[1..];
  }

  /** Two steps that each add identifiers add their union. */
  lemma AddedTwice<T>(a: set<T>, b: set<T>, c: set<T>, first: set<T>, rest: set<T>)
    requires b == a + first && c == b + rest
    ensures c == a + (first + rest)
  {
  }

  /** Every template of the templates files, in order (src/main.rs:282-332):
      exactly the qualifying ones are added, and the DefaultValues content
      they are extracted against stays the same throughout. */
  function TemplatesPass(reg: Registry, q: Query, rules: Rules, ns: seq<Located>): (r: Result<Registry>)
    requires Valid(reg, q)
    ensures r.Ok? ==> Valid(r.value, q) && Extends(reg, r.value)
    ensures r.Ok? && RulesHold(reg, rules) ==> RulesHold(r.value, rules)
    ensures r.Ok? && AllIncluded(reg) && rules == NoRules ==> AllIncluded(r.value)
    ensures r.Ok? ==> DefaultsContent(r.value) == DefaultsContent(reg)
    ensures r.Ok? ==> IdSet(r.value) == IdSet(reg) + TemplateIds(ns, q, DefaultsContent(reg))
    decreases |ns|
  {
    if ns == [] then Ok(reg)
    else
      RegisterTemplateKeeps(reg, q, rules, ns[0]);
      var next :- RegisterTemplate(reg, q, rules, ns[0]);
      var last :- TemplatesPass(next, q, rules, ns[1..]);
      ExtendsTransitive(reg, next, last);
      TemplateStep(reg, q, rules, ns[0], next);
      TemplateIdsSplit(ns, q, DefaultsContent(reg));
      AddedTwice(IdSet(reg), IdSet(next), IdSet(last),
                 if TemplateQualifies(ns[0], q, DefaultsContent(reg)) then {TemplateIdentifier(ns[0].file, ns[0].elem).value.value} else {},
                 TemplateIds(ns[1..], q, DefaultsContent(reg)));
      Ok(last)
  }

  /** A qualifying template is appended to the identifiers and becomes the
      parent under its name; any other template leaves the registry as it
      is. */
  lemma TemplateStepEntered(reg: Registry, q: Query, rules: Rules, n: Located, next: Registry)
    requires Valid(reg, q)
    requires RegisterTemplate(reg, q, rules, n) == Ok(next)
    ensures !TemplateQualifies(n, q, DefaultsContent(reg)) ==> next == reg
    ensures TemplateQualifies(n, q, DefaultsContent(reg)) ==>
              var id := TemplateIdentifier(n.file, n.elem).value.value;
              next.ids == reg.ids + [id] && next.asParent == reg.asParent[TemplateKey(id.value) := id]
  {
    RegisterTemplateChanged(reg, q, rules, n);
  }

  /** A template pass that succeeds is the first template's step, which
      keeps the registry related and its DefaultValues content, followed by
      the rest's pass. */
  lemma TemplatesPassStep(reg: Registry, q: Query, rules: Rules, ns: seq<Located>) returns (next: Registry)
    requires Valid(reg, q)
    requires ns != [] && TemplatesPass(reg, q, rules, ns).Ok?
    ensures Valid(next, q) && DefaultsContent(next) == DefaultsContent(reg)
    ensures TemplatesPass(next, q, rules, ns[1..]) == TemplatesPass(reg, q, rules, ns)
    ensures !TemplateQualifies(ns[0], q, DefaultsContent(reg)) ==> next == reg
    ensures TemplateQualifies(ns[0], q, DefaultsContent(reg)) ==>
              var id := TemplateIdentifier(ns[0].file, ns[0].elem).value.value;
              next.ids == reg.ids + [id] && next.asParent == reg.asParent[TemplateKey(id.value) := id]
  {
    RegisterTemplateKeeps(reg, q, rules, ns[0]);
    next := RegisterTemplate(reg, q, rules, ns[0]).value;
    TemplateStep(reg, q, rules, ns[0], next);
    TemplateStepEntered(reg, q, rules, ns[0], next);
  }

  /** The first template's step followed by the rest's visit. */
  lemma TemplateIdsJoin(reg: Registry, next: Registry, last: Registry, q: Query, dc: Option<XmlNode>, ns: seq<Located>)
    requires ns != []
    requires !TemplateQualifies(ns[0], q, dc) ==> next.ids == reg.ids
    requires TemplateQualifies(ns[0], q, dc) ==> next.ids == reg.ids + [TemplateIdentifier(ns[0].file, ns[0].elem).value.value]
    requires last.ids == next.ids + TemplateIdSeq(ns[1..], q, dc)
    ensures last.ids == reg.ids + TemplateIdSeq(ns, q, dc)
  {
    var added := if TemplateQualifies(ns[0], q, dc) then [TemplateIdentifier(ns[0].file, ns[0].elem).value.value] else [];
    assert TemplateIdSeq(ns, q, dc) == added + TemplateIdSeq(ns[1..], q, dc);
    AppendJoin(reg.ids, next.ids, last.ids, added, TemplateIdSeq(ns[1..], q, dc));
  }

  /** The template pass records the qualifying templates in visiting
      order. */
  lemma {:induction false} TemplatesPassOrder(reg: Registry, q: Query, rules: Rules, ns: seq<Located>)
    requires Valid(reg, q)
    requires TemplatesPass(reg, q, rules, ns).Ok?
    ensures TemplatesPass(reg, q, rules, ns).value.ids == reg.ids + TemplateIdSeq(ns, q, DefaultsContent(reg))
    decreases |ns|
  {
    if ns != [] {
      var next := TemplatesPassStep(reg, q, rules, ns);
      TemplatesPassOrder(next, q, rules, ns[1..]);
      TemplateIdsJoin(reg, next, TemplatesPass(reg, q, rules, ns).value, q, DefaultsContent(reg), ns);
    }
  }

  /** The first template's step followed by the rest's visit leaves, under
      `name`, the last qualifying template so named. */
  lemma TemplateParentJoin(pReg: Option<Identifier>, pNext: Option<Identifier>, pLast: Option<Identifier>,
                           q: Query, dc: Option<XmlNode>, ns: seq<Located>, name: string)
    requires ns != []
    requires pNext == if TemplateNamed(ns[0], q, dc, name) then TemplateIdOf(ns[0]) else pReg
    requires pLast == match LastTemplate(ns[1..], q, dc, name)
                      case None => pNext
                      case Some(k) => TemplateIdOf(ns[1..][k])
    ensures pLast == match LastTemplate(ns, q, dc, name)
                     case None => pReg
                     case Some(k) => TemplateIdOf(ns[k])
  {
  }

  /** One template's step leaves under `name` the template itself when it
      is registered and so named, and what was there before otherwise. */
  lemma TemplateParentStep(reg: Registry, next: Registry, n: Located, q: Query, dc: Option<XmlNode>, name: string)
    requires !TemplateQualifies(n, q, dc) ==> next == reg
    requires TemplateQualifies(n, q, dc) ==>
               var id := TemplateIdentifier(n.file, n.elem).value.value;
               next.asParent == reg.asParent[TemplateKey(id.value) := id]
    ensures ParentUnder(next, TemplateKey(name))
            == if TemplateNamed(n, q, dc, name) then TemplateIdOf(n) else ParentUnder(reg, TemplateKey(name))
  {
  }

  /** Under each template name, the template pass leaves the last
      qualifying template with that name; a later template of the same name
      replaces an earlier one. */
  lemma {:induction false} TemplatesPassParents(reg: Registry, q: Query, rules: Rules, ns: seq<Located>, name: string)
    requires Valid(reg, q)
    requires TemplatesPass(reg, q, rules, ns).Ok?
    ensures ParentUnder(TemplatesPass(reg, q, rules, ns).value, TemplateKey(name))
            == match LastTemplate(ns, q, DefaultsContent(reg), name)
               case None => ParentUnder(reg, TemplateKey(name))
               case Some(k) => TemplateIdOf(ns[k])
    decreases |ns|
  {
    if ns != [] {
      var next := TemplatesPassStep(reg, q, rules, ns);
      TemplateParentStep(reg, next, ns[0], q, DefaultsContent(reg), name);
      TemplatesPassParents(next, q, rules, ns[1..], name);
      TemplateParentJoin(ParentUnder(reg, TemplateKey(name)), ParentUnder(next, TemplateKey(name)),
                         ParentUnder(TemplatesPass(reg, q, rules, ns).value, TemplateKey(name)),
                         q, DefaultsContent(reg), ns, name);
    }
  }

  /** What one asset adds to the identifiers: at most its own, and its own
      when it is ready; parent keys are only added and the DefaultValues
      content stays as it is. */
  lemma AssetStep(reg: Registry, q: Query, rules: Rules, n: Located, next: Registry)
    requires Valid(reg, q)
    requires RegisterAsset(reg, q, rules, n) == Ok(next)
    ensures DefaultsContent(next) == DefaultsContent(reg)
    ensures reg.asParent.Keys <= next.asParent.Keys
    ensures IdSet(next) <= IdSet(reg) + (if AssetIdentifier(n.file, n.xpath, n.elem).Ok?
                                         then {AssetIdentifier(n.file, n.xpath, n.elem).value} else {})
    ensures AssetReady(n, q, reg.asParent.Keys, DefaultsContent(reg)) ==>
              AssetIdentifier(n.file, n.xpath, n.elem).value in IdSet(next)
    ensures next.ids == reg.ids
            || (AssetIdentifier(n.file, n.xpath, n.elem).Ok? && next.ids == reg.ids + [AssetIdentifier(n.file, n.xpath, n.elem).value])
  {
    RegisterAssetChanged(reg, q, rules, n);
    if next != reg {
      var id := AssetIdentifier(n.file, n.xpath, n.elem).value;
      var link := AssetParent(n.elem).value;
      var c := ExtractFromValues(n.elem, q, DefaultsContent(reg)).value.value;
      var state := AssetState(id.value, rules.forcedGuids, rules.excludedGuids, reg.states[reg.asParent[link]]);
      if DefaultValuesKey in reg.asParent {
        assert reg.asParent[DefaultValuesKey] in reg.ids;
      }
      EnterKeepsDefaults(reg, id, AssetNode, link, state, c, AssetKey(id));
      EnterIds(reg, id, AssetNode, link, state, c, AssetKey(id));
    }
  }

  /** The asset identifiers of a visit: the first asset's, then the rest's. */
  lemma AssetIdsSplit(ns: seq<Located>)
    requires ns != []
    ensures AssetIds(ns)
            == (if AssetIdentifier(ns[0].file, ns[0].xpath, ns[0].elem).Ok?
                then {AssetIdentifier(ns[0].file, ns[0].xpath, ns[0].elem).value} else {})
               + AssetIds(ns[1..])
  {
    assert forall n :: n in ns <==> n == ns[0] || n in ns[1..];
  }

  /** The ready asset identifiers of a visit: the first asset's, then the rest's. */
  lemma ReadyAssetIdsSplit(ns: seq<Located>, q: Query, keys: set<ParentKey>, dc: Option<XmlNode>)
    requires ns != []
    ensures ReadyAssetIds(ns, q, keys, dc)
            == (if AssetReady(ns[0], q, keys, dc) then {AssetIdentifier(ns[0].file, ns[0].xpath, ns[0].elem).value} else {})
               + ReadyAssetIds(ns[1..], q, keys, dc)
  {
    assert forall n :: n in ns <==> n == ns[0] || n in ns[1..];
  }

  /** More parent keys leave every ready asset ready. */
  lemma ReadyGrows(ns: seq<Located>, q: Query, keys: set<ParentKey>, more: set<ParentKey>, dc: Option<XmlNode>)
    requires keys <= more
    ensures ReadyAssetIds(ns, q, keys, dc) <= ReadyAssetIds(ns, q, more, dc)
  {
  }

  /** Extending keeps every identifier. */
  lemma ExtendsIds(before: Registry, after: Registry)
    requires Extends(before, after)
    ensures IdSet(before) <= IdSet(after)
  {
    ExtendsMembers(before, after);
  }

  /** Appending nothing or the one element of `x`, and then a
      subsequence of `y`, appends a subsequence of `x + y`. */
  lemma AppendSubsequence<T>(a: seq<T>, b: seq<T>, c: seq<T>, x: seq<T>, y: seq<T>)
    requires |x| <= 1 && (b == a || b == a + x)
    requires |b| <= |c| && c[..|b|] == b
    requires IsSubsequence(c[|b|..], y)
    ensures |a| <= |c| && IsSubsequence(c[|a|..], x + y)
  {
    if b == a {
      SubsequencePrefix(c[|b|..], x, y);
    } else {
      assert c[|a|..] == x + c[|b|..];
      assert x == [x[0]];
      SubsequenceCons(x[0], c[|b|..], y);
    }
  }

  /** Every asset of the assets files, in order (src/main.rs:335-405): only
      the visited assets' identifiers are added, and every asset whose parent
      key is registered before the visit, and whose content exists, is
      registered. */
  function AssetsPass(reg: Registry, q: Query, rules: Rules, ns: seq<Located>): (r: Result<Registry>)
    requires Valid(reg, q)
    ensures r.Ok? ==> Valid(r.value, q) && Extends(reg, r.value)
    ensures r.Ok? && RulesHold(reg, rules) ==> RulesHold(r.value, rules)
    ensures r.Ok? && AllIncluded(reg) && rules == NoRules ==> AllIncluded(r.value)
    ensures r.Ok? ==> DefaultsContent(r.value) == DefaultsContent(reg)
    ensures r.Ok? ==> reg.asParent.Keys <= r.value.asParent.Keys
    ensures r.Ok? ==> IdSet(r.value) <= IdSet(reg) + AssetIds(ns)
    ensures r.Ok? ==> ReadyAssetIds(ns, q, reg.asParent.Keys, DefaultsContent(reg)) <= IdSet(r.value)
    ensures r.Ok? ==> |reg.ids| <= |r.value.ids| && IsSubsequence(r.value.ids[|reg.ids|..], AssetIdSeq(ns))
    decreases |ns|
  {
    if ns == [] then Ok(reg)
    else
      RegisterAssetKeeps(reg, q, rules, ns[0]);
      var next :- RegisterAsset(reg, q, rules, ns[0]);
      var last :- AssetsPass(next, q, rules, ns[1..]);
      ExtendsTransitive(reg, next, last);
      AssetStep(reg, q, rules, ns[0], next);
      ExtendsIds(next, last);
      AssetIdsSplit(ns);
      ReadyAssetIdsSplit(ns, q, reg.asParent.Keys, DefaultsContent(reg));
      ReadyGrows(ns[1..], q, reg.asParent.Keys, next.asParent.Keys, DefaultsContent(reg));
      var ai := AssetIdentifier(ns[0].file, ns[0].xpath, ns[0].elem);
      var first := if ai.Ok? then [ai.value] else [];
      assert AssetIdSeq(ns) == first + AssetIdSeq(ns[1..]);
      AppendSubsequence(reg.ids, next.ids, last.ids, first, AssetIdSeq(ns[1..]));
      Ok(last)
  }

  /** An asset is only ever found under its GUID, so the templates found
      under each name stay as they are. */
  lemma AssetKeepsTemplates(reg: Registry, q: Query, rules: Rules, n: Located, next: Registry, name: string)
    requires Valid(reg, q)
    requires RegisterAsset(reg, q, rules, n) == Ok(next)
    ensures ParentUnder(next, TemplateKey(name)) == ParentUnder(reg, TemplateKey(name))
  {
    RegisterAssetChanged(reg, q, rules, n);
  }

  /** An assets pass that succeeds is the first asset's step followed by
      the rest's pass. */
  lemma AssetsPassStep(reg: Registry, q: Query, rules: Rules, ns: seq<Located>) returns (next: Registry)
    requires Valid(reg, q)
    requires ns != [] && AssetsPass(reg, q, rules, ns).Ok?
    ensures Valid(next, q) && RegisterAsset(reg, q, rules, ns[0]) == Ok(next)
    ensures AssetsPass(reg, q, rules, ns) == AssetsPass(next, q, rules, ns[1..])
  {
    RegisterAssetKeeps(reg, q, rules, ns[0]);
    next := RegisterAsset(reg, q, rules, ns[0]).value;
  }

  /** The assets pass leaves the template found under every name as it
      was. */
  lemma {:induction false} AssetsPassTemplates(reg: Registry, q: Query, rules: Rules, ns: seq<Located>, name: string)
    requires Valid(reg, q)
    requires AssetsPass(reg, q, rules, ns).Ok?
    ensures ParentUnder(AssetsPass(reg, q, rules, ns).value, TemplateKey(name)) == ParentUnder(reg, TemplateKey(name))
    decreases |ns|
  {
    if ns != [] {
      var next := AssetsPassStep(reg, q, rules, ns);
      AssetKeepsTemplates(reg, q, rules, ns[0], next, name);
      AssetsPassTemplates(next, q, rules, ns[1..], name);
    }
  }

  /** The whole registration pass of one mod definition over the sorted
      properties, templates and assets files: the qualifying DefaultValues
      nodes and templates are registered, and nothing but them and the
      visited assets is. */
  function RegisterAll(q: Query, rules: Rules, properties: seq<Document>, templates: seq<Document>, assets: seq<Document>): (r: Result<Registry>)
    ensures r.Ok? ==> Valid(r.value, q) && RulesHold(r.value, rules)
    ensures r.Ok? && rules == NoRules ==> AllIncluded(r.value)
    ensures r.Ok? ==> DefaultsIds(Corpus(properties, "DefaultValues"), q) <= IdSet(r.value)
    ensures r.Ok? ==> TemplateIds(Corpus(templates, "Template"), q, DefaultsContent(r.value)) <= IdSet(r.value)
    ensures r.Ok? ==> IdSet(r.value) <= DefaultsIds(Corpus(properties, "DefaultValues"), q)
                                        + TemplateIds(Corpus(templates, "Template"), q, DefaultsContent(r.value))
                                        + AssetIds(Corpus(assets, "Asset"))
  {
    EmptyValid(q);
    var d :- DefaultsPass(EmptyRegistry, q, Corpus(properties, "DefaultValues"));
    OnlyDefaultsFit(d, q, rules);
    var t :- TemplatesPass(d, q, rules, Corpus(templates, "Template"));
    var a :- AssetsPass(t, q, rules, Corpus(assets, "Asset"));
    ExtendsIds(t, a);
    Ok(a)
  }

  /** The whole run in order: the qualifying DefaultValues nodes of the
      properties files first, then the qualifying templates, then some of
      the assets, each group in visiting order; the DefaultValues content in
      effect is that of the last qualifying DefaultValues node. */
  lemma RegisterAllOrder(q: Query, rules: Rules, properties: seq<Document>, templates: seq<Document>, assets: seq<Document>)
    requires RegisterAll(q, rules, properties, templates, assets).Ok?
    ensures var r := RegisterAll(q, rules, properties, templates, assets).value;
            var ds := Corpus(properties, "DefaultValues");
            var pre := DefaultsIdSeq(ds, q) + TemplateIdSeq(Corpus(templates, "Template"), q, DefaultsContent(r));
            && |pre| <= |r.ids|
            && r.ids[..|pre|] == pre
            && IsSubsequence(r.ids[|pre|..], AssetIdSeq(Corpus(assets, "Asset")))
            && DefaultsContent(r) == match LastDefaults(ds, q)
                                     case None => None
                                     case Some(k) => ExtractContent(ds[k].elem, q, None).value
  {
    var ds := Corpus(properties, "DefaultValues");
    var ts := Corpus(templates, "Template");
    var xs := Corpus(assets, "Asset");
    EmptyValid(q);
    var d := DefaultsPass(EmptyRegistry, q, ds).value;
    DefaultsPassOrder(EmptyRegistry, q, ds);
    DefaultsPassWinner(EmptyRegistry, q, ds);
    OnlyDefaultsFit(d, q, rules);
    var t := TemplatesPass(d, q, rules, ts).value;
    TemplatesPassOrder(d, q, rules, ts);
    var a := AssetsPass(t, q, rules, xs).value;
    assert RegisterAll(q, rules, properties, templates, assets) == Ok(a);
    assert t.ids == DefaultsIdSeq(ds, q) + TemplateIdSeq(ts, q, DefaultsContent(a));
  }

  /** Before any template is registered, no node is found under a template
      name. */
  lemma NoTemplatesYet(reg: Registry, q: Query, name: string)
    requires Valid(reg, q) && OnlyDefaults(reg)
    ensures ParentUnder(reg, TemplateKey(name)) == None
  {
  }

  /** The whole run leaves under each template name the last qualifying
      template of the templates files with that name, or nothing when there
      is none. */
  lemma RegisterAllTemplates(q: Query, rules: Rules, properties: seq<Document>, templates: seq<Document>, assets: seq<Document>, name: string)
    requires RegisterAll(q, rules, properties, templates, assets).Ok?
    ensures var r := RegisterAll(q, rules, properties, templates, assets).value;
            var ts := Corpus(templates, "Template");
            ParentUnder(r, TemplateKey(name)) == match LastTemplate(ts, q, DefaultsContent(r), name)
                                                 case None => None
                                                 case Some(k) => TemplateIdOf(ts[k])
  {
    var ds := Corpus(properties, "DefaultValues");
    var ts := Corpus(templates, "Template");
    var xs := Corpus(assets, "Asset");
    EmptyValid(q);
    var d := DefaultsPass(EmptyRegistry, q, ds).value;
    OnlyDefaultsFit(d, q, rules);
    NoTemplatesYet(d, q, name);
    var t := TemplatesPass(d, q, rules, ts).value;
    TemplatesPassParents(d, q, rules, ts, name);
    var a := AssetsPass(t, q, rules, xs).value;
    AssetsPassTemplates(t, q, rules, xs, name);
    assert RegisterAll(q, rules, properties, templates, assets) == Ok(a);
  }
}
