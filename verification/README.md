# Override resolution of anno_1800_mod_creator, in Dafny

anno_1800_mod_creator reads the game's `properties.xml`, `templates.xml` and
`assets.xml` files and, for one mod definition, decides what a patch must do
to every field a query names. This project models that pipeline with
parsed XML abstracted to an element tree `Elem(tag, text, children)`:

- **Content extraction** (`Content`, `Inheritance` in `content.dfy`). A query
  tree names fields. It is walked against an element to produce a content tree
  of `XmlNode(name, present, data)`. Fields the element does not define are
  synthesised as not present, and their leaf values are copied from the parent
  content. A second child with the same name aborts the run.
- **Patch operations** (`ModOps` in `modops.dfy`). A content tree and a state
  compile into a pruned tree of operations. A decision table over
  (state, present) labels each leaf.
- **States and identifiers** (`States` in `states.dfy`, `Identifiers` in
  `identifiers.dfy`). These cover:
  - forced beats excluded, which beats the parent's state;
  - an asset is named by its GUID, or by its structural address when it has none;
  - a `Template` parent link beats `BaseAssetGUID`, which beats `ScenarioBaseAssetGUID`.
- **Structural addresses** (`Paths` in `paths.dfy`). `get_xpath` is modelled
  over a position (a list of child indices), with the document traversal.
- **Registration** (`Registration` in `registration.dfy`). DefaultValues nodes
  are registered first, then templates, then assets. The pass is a fold over
  the visited nodes that updates the program's maps under an invariant.
- **Output** (`Output` in `output.dfy`). The operations of every registered
  node are produced in registration order. Nodes whose operations are empty
  are skipped.

Panics of the program (`expect`, `unwrap`, and indexing a map with a missing
key) are the `Fatal` case of `Wrappers.Result`, with a `Failure` saying which
check failed.

The model follows the code on these points:

- A leaf-valued content node always compiles to a leaf operation
  (src/helper.rs:295-322). No (state, present) pair yields no operation.
- Registering a parent key uses map insertion (src/main.rs:274, 318-321,
  394-397), so a later node under the same key replaces an earlier one.
- Template and asset contents are extracted against the content of the
  DefaultValues node (src/main.rs:308-312, 382-386), not against the content
  of their actual parent.
- Extraction yields no content only for a leaf-valued query root whose
  element has no text (src/helper.rs:171-173). An asset whose `Values` does
  not define the query root is still registered, with content synthesised
  from the DefaultValues content.
- src/main.rs:407 calls a `write_mod` that helper.rs does not define. The
  output step modelled is `helper::create_mod` (src/helper.rs:223-271). Its
  argument list differs from the call's (the call passes `node_types`;
  `create_mod` takes `identifiers_as_parent` and `parent_identifiers`), but
  the step reads only `identifiers`, `states` and `contents`, which both
  argument lists share.
- Types follow their use in main.rs and helper.rs: `XmlNode{name, present,
  data}` and `Identifier{file_path, kind, value}`. src/xml_node.rs and
  src/identifier.rs define different shapes; they are not part of this model.

## Model

| member | source | states |
|---|---|---|
| Xml.AtMostOne | src/helper.rs:131-145 | `at_most_one().expect(..)` over same-named children: fails with `Duplicate(name)` exactly when two children carry the name, yields nothing exactly when none does, and yields the sole such child otherwise |
| Xml.TheOnly | src/main.rs:477-518 | the child that is the only one with its name exists exactly when such a child exists, and is that child |
| Xml.NamedCases | src/helper.rs:75-80 | the count of same-named children is 0 exactly when no child has the name, at least 2 exactly when two do, and 1 exactly when one child is the only one |
| Paths.StepsInjective | src/helper.rs:36-54 | two positions of a document whose (tag, rank-among-same-tag-siblings) steps agree are the same position |
| Paths.DecimalRoundTrip | src/helper.rs:48 | the decimal text of a rank reads back to the rank |
| Paths.SegmentPrefixFree | src/helper.rs:48-53 | a `/tag[rank]` segment with a bracketless tag is never a proper prefix of another: equal texts starting with segments start with the same segment |
| Paths.RenderInjective | src/helper.rs:50-53 | different step lists with bracketless tags give different address texts |
| Paths.XPathInjective | src/helper.rs:36-54 | within a document whose tags contain no `[`, two elements with the same structural address are the same element |
| Paths.DescendantsComplete | src/main.rs:259-260 | the document-order traversal visits every element of the document |
| Paths.Tagged | src/main.rs:259-260 | the elements of one file with the looked-for tag, each with its file and its structural address: every such element of the document is listed, and nothing else is |
| Paths.Corpus | src/main.rs:244-260 | across all files, every node a file lists for the tag is visited, and every visited node is one some file lists; all carry the looked-for tag |
| Content.HasDirectChild | src/helper.rs:75-80 | true exactly when one child, and only one, is named like the query root; no case is an error |
| Content.HasPropertiesChild | src/helper.rs:56-73 | fails exactly when `Properties` is duplicated; false without `Properties`; otherwise whether the sole `Properties` has exactly one child named like the query root |
| Content.CreateContent | src/helper.rs:183-221 | always yields content of the query's exact shape, named after the query and not present at any depth; a leaf has a value exactly when the parent content is a leaf, and then has the parent's value |
| Content.CreateFields | src/helper.rs:185-205 | one synthesised node per query field, in order, each synthesised against the same-named node of the parent content |
| Content.ExtractContent | src/helper.rs:126-181 | two same-named children abort with `Duplicate(name)`; none gives `create_content`; the result is named after the query and is present exactly when a sole child exists; a found leaf takes the child's text and is dropped when the child has none; a branch query always yields a branch, whose children are the extracted fields, and an abort inside a found branch carries the failure of its fields |
| Content.ExtractFields | src/helper.rs:148-163 | the fields extract without a failure exactly when every field's own extraction does; on a failure, the first field whose extraction aborts decides the failure |
| Content.FirstAbort | src/helper.rs:148-163 | the position of the first field whose extraction aborts, every field before it extracting without a failure, or the field count when none aborts |
| Content.ExtractFieldsOrdered | src/helper.rs:148-163 | the names of the kept fields are a subsequence of the query's field names, in order |
| Content.ExtractFieldsComplete | src/helper.rs:148-163 | every field whose extraction yields content is kept |
| Content.ExtractFieldsSound | src/helper.rs:148-163 | every kept node is the content some field's extraction yielded, against that field's same-named parent node |
| Content.ExtractFromValues | src/helper.rs:82-101 | a duplicated or missing `Values` aborts; otherwise the extraction below the sole `Values`, named after the query |
| Content.ExtractFromProperties | src/helper.rs:103-124 | a duplicated `Properties` aborts; a missing one gives `create_content`; otherwise the extraction below the sole `Properties` |
| Inheritance.CreateContentInherits | src/helper.rs:207-218 | with distinct field names, the value in effect at every queried leaf of synthesised content is the parent content's value there |
| Inheritance.FindKept | src/helper.rs:155-161 | with distinct field names, the kept node found under a field's name is that field's own extraction |
| Inheritance.ExtractContentInherits | src/helper.rs:126-221 | for a query with distinct field names at every level, the value in effect at every queried leaf is the element's own text when the element defines the field, none when that definition has no text, and the parent content's value when the element does not define the field |
| States.Inherit | src/main.rs:372-378 | a state inherited from a parent keeps the parent's intent and is never an own-rule state |
| States.AssetState | src/main.rs:368-380 | a forced GUID is `Forced`, even when it is also excluded; otherwise an excluded GUID is `Excluded`; otherwise the parent's intent, marked as inherited |
| States.TemplateState | src/main.rs:323-329 | `Excluded` exactly when the name is listed; never forced or inherited |
| States.ChainIntent | src/main.rs:368-380 | down a chain of assets, the last one's intent is that of the last asset a rule names, or the root's when no rule names any |
| ModOps.LeafAction | src/helper.rs:295-322 | the 5×2 table, cell by cell: a "from ancestor" action exactly when the field is not defined and the state is not `Forced`; "change to new value" exactly for `Forced` and defined; "set to new value" exactly for `Forced` and not defined; "change" exactly for forced-by-ancestor and defined; "keep" exactly for an excluding state and defined; "keep from ancestor" exactly for excluded-by-ancestor and not defined |
| ModOps.LeafActionRecords | src/helper.rs:295-322 | a leaf action records whether the field was defined and, except for "allow from ancestor", the state's intent |
| ModOps.CreateModOps | src/helper.rs:273-327 | nothing exactly when no leaf value is present in the subtree; a leaf value always gives its table operation; a surviving container is `Leafs` when present and "add intermediate node" when not; no empty list or `None` is left at any depth; one leaf operation per leaf value |
| ModOps.ChildOps | src/helper.rs:276-285 | the surviving operations of the children, none of them `None`, empty exactly when no child carries a leaf value |
| ModOps.KeptFrom | src/helper.rs:276-285 | the positions of the children that carry a leaf value, strictly increasing, and every such position listed |
| ModOps.ChildOpsOrdered | src/helper.rs:276-285 | a container's `j`-th operation is the child's own `CreateModOps` for the `j`-th child that carries a leaf value, and there are exactly as many operations as such children |
| ModOps.ChildOpsIncludes | src/helper.rs:276-285 | every child that carries a leaf value has its own operations listed in its container's |
| ModOps.ChildOpsOnly | src/helper.rs:276-285 | a container lists nothing but the own operations of children that carry a leaf value |
| ModOps.Permitted | src/helper.rs:295-322 | the actions a state allows: included allows only replace and allow-from-ancestor; only forcing states change a value; only excluding states keep one |
| ModOps.CreateModOpsActions | src/helper.rs:273-327 | every leaf operation of a node's tree is from its state's row of the table |
| Identifiers.ChildText | src/main.rs:418-427 | the text of the sole child so named; none without such a child; a duplicate, or a sole child without text, aborts |
| Identifiers.AssetParent | src/main.rs:417-475 | `Template` beats `BaseAssetGUID`, which beats `ScenarioBaseAssetGUID`; no link exactly when none of the three is a child; each tier, once the tiers before it are absent, gives its text as the link, aborts with a duplicate when named twice and aborts with missing text when it has none |
| Identifiers.AssetIdentifier | src/main.rs:477-518 | named by GUID exactly when `Values/Standard/GUID` exists with text, and then by that text; named by structural address when `Values` is missing, when the sole `Values` has no `Standard`, when the sole `Standard` has no `GUID`, and when the sole `GUID` has no text; a duplicated `Values`, a duplicated `Standard` under the sole `Values`, or a duplicated `GUID` under the sole `Standard` aborts with that name, and nothing else aborts |
| Identifiers.StandardIdentifier | src/main.rs:492-518 | below the sole `Values`: a duplicated `Standard` aborts, none gives the structural address, and a sole one is looked into for its `GUID` |
| Identifiers.GuidIdentifier | src/main.rs:500-518 | below the sole `Standard`: a duplicated `GUID` aborts, none or a sole one without text gives the structural address, and a sole one with text names the asset by that text |
| Identifiers.TemplateIdentifier | src/main.rs:520-535 | none without `Name`; a duplicated or textless `Name` aborts; otherwise named by the `Name` text |
| Registration.EnterValid | src/main.rs:272-277 | recording a node keeps the maps related, when what is recorded fits the node and the node keeps its type |
| Registration.EnterStates | src/main.rs:276 | recording a node whose state fits the rules keeps every recorded state fitting them |
| Registration.OnlyDefaultsFit | src/main.rs:276 | a registry of DefaultValues nodes fits any rules and is all included |
| Registration.RegisterDefaults | src/main.rs:259-278 | skipped unless one child is named like the query root; otherwise recorded with no parent, state `Included`, content extracted without a parent, and as the DefaultValues parent; a failing extraction aborts with the extraction's own failure; the maps stay related and nothing but DefaultValues nodes is recorded |
| Registration.RegisterTemplate | src/main.rs:296-331 | every case: a failing `Name`, `Properties` check or extraction aborts with its error; skipped without `Name`, without a matching `Properties` child, or without content; with no DefaultValues parent yet it aborts; otherwise recorded with parent `DefaultValues`, its listed-or-not state and the content extracted against the DefaultValues content, and as the parent under its name |
| Registration.RegisterTemplateKeeps | src/main.rs:316-330 | registering a template keeps the maps related, keeps earlier identifiers in front, keeps every state fitting the rules, and without rules keeps every node included |
| Registration.RegisterAsset | src/main.rs:350-404 | skipped when already registered, without a parent link, when the link has no registered node yet, or without content; otherwise recorded with its link, the state from its GUID rules and the state of the node under the link, content extracted against the DefaultValues content, and, only when named by GUID, as the parent under its GUID |
| Registration.RegisterAssetKeeps | src/main.rs:390-403 | registering an asset keeps the maps related, keeps earlier identifiers in front, keeps every state fitting the rules, and without rules keeps every node included |
| Registration.DefaultsStep | src/main.rs:259-278 | one DefaultValues node adds its identifier exactly when it has one child named like the query root and content, and adds nothing otherwise |
| Registration.DefaultsPass | src/main.rs:244-279 | over every DefaultValues node, the maps stay related, earlier identifiers stay in front, and the identifiers recorded are exactly the earlier ones plus those of the visited nodes with one child named like the query root and content |
| Registration.DefaultsPassOrder | src/main.rs:244-279 | the identifiers after the DefaultValues pass are the earlier ones followed by those of the qualifying DefaultValues nodes, in visiting order |
| Registration.DefaultsPassWinner | src/main.rs:259-278 | the DefaultValues content after the pass is the content of the last qualifying DefaultValues node, each later one replacing the earlier as the DefaultValues parent; it is the earlier content when none qualifies |
| Registration.TemplateStep | src/main.rs:296-331 | one template adds its identifier exactly when it has a `Name`, a matching `Properties` child and content, and adds nothing otherwise; the DefaultValues content is unchanged |
| Registration.TemplatesPass | src/main.rs:282-332 | over every template, the maps stay related, earlier identifiers stay in front, every state fits the rules, the DefaultValues content is unchanged, and the identifiers recorded are exactly the earlier ones plus those of the templates with a `Name`, a matching `Properties` child and extracted content |
| Registration.TemplatesPassOrder | src/main.rs:282-332 | the identifiers after the template pass are the earlier ones followed by those of the qualifying templates, in visiting order |
| Registration.TemplatesPassParents | src/main.rs:316-321 | after the template pass, the node under each template name is the last qualifying template so named, a later one replacing an earlier one; it is the earlier node when none is so named |
| Registration.AssetStep | src/main.rs:350-404 | one asset adds at most its own identifier, and adds it when its link is already a parent key and its content extracts; parent keys are only added and the DefaultValues content is unchanged |
| Registration.AssetsPass | src/main.rs:335-405 | over every asset, the maps stay related, earlier identifiers stay in front, every state fits the rules, without rules everything stays included, and the DefaultValues content and every parent key are kept; every identifier recorded is an earlier one or a visited asset's, and every visited asset whose link was a parent key before the pass and whose content extracts is recorded; the identifiers it adds follow the visiting order of the assets |
| Registration.AssetsPassTemplates | src/main.rs:390-400 | the assets pass leaves the node under every template name as it was, because an asset becomes a parent only under its GUID |
| Registration.RegisterAll | src/main.rs:236-405 | after the three passes every pushed identifier has an entry in every map and nothing else has one; parents are registered nodes of the right kind; a node a rule names carries that rule's state and one no rule names carries an inherited, never an own-rule, state; without rules every node is included; every qualifying DefaultValues node and template of the files is recorded, and nothing but DefaultValues nodes, templates and assets of the files is |
| Registration.RegisterAllOrder | src/main.rs:236-405 | after the three passes the identifiers are those of the qualifying DefaultValues nodes in visiting order, then those of the qualifying templates in visiting order, then identifiers of some of the files' assets, in visiting order; the DefaultValues content in effect is that of the last qualifying DefaultValues node, or none |
| Registration.RegisterAllTemplates | src/main.rs:282-405 | after the three passes the node under each template name is the last qualifying template of the files so named, or none |
| Output.ModOutputs | src/helper.rs:240-256 | a node gets operations exactly when its content carries a leaf value, and they are the operations its content and state compile to; none is `None` |
| Output.ModOutputsOrdered | src/helper.rs:240-256 | the `j`-th patch belongs to the `j`-th registered node whose content carries a leaf value, and there are exactly as many patches as such nodes |
| Output.CreateMod | src/helper.rs:223-271 | aborts exactly when registration does, with its failure; otherwise one patch per registered node whose content carries a leaf value, in registration order, each being the operations that node's content and state compile to, pruned and never `None`; without rules only replace and allow-from-ancestor operations occur |
| Output.WriteMod | src/helper.rs:240-256 | over a related registry, a patch exactly for the registered nodes with leaf data, each their compiled operations, pruned; over an all-included registry only replace and allow-from-ancestor operations |

## Left out

- File discovery (`get_paths`), file reading, XML parsing and the
  `inner_data_path` rewriting are I/O. The model takes parsed documents and
  opaque file-path strings, and takes each file list as already sorted.
- Command-line parsing (src/arguments.rs) and the hard-coded mod definitions
  (src/main.rs:24-204) are configuration. The rule lists are parameters
  (`Registration.Rules`). The destructuring at src/main.rs:207 binds the
  GUID list of each definition to `excluded_guids`.
- Printing the operations, and the commented-out writing of mod files, are
  output I/O. `create_mod_directory` and `delete_mod_files` are file-system
  operations.
- Panic messages, and the `get_xpath` call that builds them, are left out.
  Only which check fails is kept.
- Text nodes and attributes are not children here. An element's `text` is
  the text roxmltree's `text()` returns.
- Operation labels are an action and a field name, not formatted strings.
- src/xml.rs is dead code; src/xml_node.rs and src/identifier.rs define shapes
  the core does not use. None of them is part of this model.
- Paths.XPathInjective: assumes tags contain no `[`, which holds for every XML
  name.
- Registration.RegisterAsset: indexing `identifiers_as_parent` with
  `DefaultValues` (src/main.rs:385) cannot fail once a parent link is found,
  because the invariant puts a DefaultValues node in front of every template
  and asset. The model reads the DefaultValues content as optional there.
- Registration.RegisterAll: states that every qualifying DefaultValues node
  and template is recorded, but for assets only that nothing beyond the
  files' assets is. Whether an asset is recorded depends on whether its
  parent was recorded before it. Registration.AssetsPass states asset
  completeness for each asset whose link is a parent key before the pass.
- Registration.RegisterAll: does not tie the intent of an asset no rule
  names to its parent's intent in the final registry. A later node entered
  under the same parent key, or the same identifier entered again, can
  replace the state the asset inherited from. Registration.RegisterAsset
  states the tie at the step the asset is recorded: its state is
  `AssetState` of the state under its link, which keeps that state's intent.
- Registration.DefaultsPass: its own contract gives the recorded identifiers
  as a set. Their visiting order is stated by
  Registration.DefaultsPassOrder, and the winning DefaultValues node by
  Registration.DefaultsPassWinner. Both are lemmas about the same function,
  kept apart so that each proof stays within the verifier's resource limit.
- Registration.TemplatesPass: its own contract gives the recorded
  identifiers as a set. Their visiting order is stated by
  Registration.TemplatesPassOrder, and the template left under each name by
  Registration.TemplatesPassParents, for the same reason.
