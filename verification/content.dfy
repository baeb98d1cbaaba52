/** Query-driven content extraction (src/helper.rs:56-221).

    A query names the fields of interest as a tree. Walking it against a
    document element yields a content tree of the same shape that records,
    per field, whether this element defines it (`present`) and which value is
    in effect: its own, or, for a field it does not define, the value copied
    from the parent content.
 */
module Content {
  import opened Wrappers
  import opened Xml

  /** A field of interest: a scalar (`LeafQuery`) or a container of further
      fields (`BranchQuery`); `XmlTag`/`Content` in src/xml_structure.rs. */
  datatype Query = LeafQuery(name: string) | BranchQuery(name: string, fields: seq<Query>)

  /** Extracted content (`XmlNode`/`XmlNodeData` as src/helper.rs uses them). */
  datatype NodeData = Branch(children: seq<XmlNode>) | Leaf(text: string) | NoData
  datatype XmlNode = XmlNode(name: string, present: bool, data: NodeData)

  /** The names of a query's fields, in order. */
  function FieldNames(fs: seq<Query>): seq<string> {
    seq(|fs|, i requires 0 <= i < |fs| => fs[i].name)
  }

  /** The names of content nodes, in order. */
  function NodeNames(ns: seq<XmlNode>): seq<string> {
    seq(|ns|, i requires 0 <= i < |ns| => ns[i].name)
  }

  /** `a` is `b` with some elements left out, order kept. */
  ghost predicate IsSubsequence<T>(a: seq<T>, b: seq<T>)
    decreases |b|
  {
    a == [] || (b != [] && ((a[0] == b[0] && IsSubsequence(a[1..], b[1..])) || IsSubsequence(a, b[1..])))
  }

  /** Leaving out elements in front keeps a subsequence one. */
  lemma {:induction false} SubsequencePrefix<T>(a: seq<T>, x: seq<T>, b: seq<T>)
    requires IsSubsequence(a, b)
    ensures IsSubsequence(a, x + b)
    decreases |x|
  {
    if x == [] {
      assert x + b == b;
    } else if a != [] {
      SubsequencePrefix(a, x[1..], b);
      assert (x + b)[1..] == x[1..] + b;
      assert IsSubsequence(a, (x + b)[1..]);
    }
  }

  /** Keeping an element in front of both keeps a subsequence one. */
  lemma SubsequenceCons<T>(y: T, a: seq<T>, b: seq<T>)
    requires IsSubsequence(a, b)
    ensures IsSubsequence([y] + a, [y] + b)
  {
    assert ([y] + a)[1..] == a && ([y] + b)[1..] == b;
  }

  /** Field names are pairwise distinct at every level of the query. */
  ghost predicate WellFormed(q: Query)
    decreases q
  {
    match q
    case LeafQuery(_) => true
    case BranchQuery(_, fs) =>
      && (forall i, j :: 0 <= i < j < |fs| ==> fs[i].name != fs[j].name)
      && (forall i :: 0 <= i < |fs| ==> WellFormed(fs[i]))
  }

  /** `has_direct_child`: the element has exactly one child named like the
      query; two or more count as "no", without aborting. */
  function HasDirectChild(e: Elem, q: Query): (r: bool)
    ensures r <==> exists i :: Sole(e.children, q.name, i)
  {
    NamedCases(e.children, q.name);
    |Named(e.children, q.name)| == 1
  }

  /** `has_properties_child`: a second `Properties` child aborts; without one
      the answer is "no"; otherwise the question is put to `Properties`. */
  function HasPropertiesChild(e: Elem, q: Query): (r: Result<bool>)
    ensures r.Fatal? <==> TwoNamed(e.children, "Properties")
    ensures r.Fatal? ==> r.error == Duplicate("Properties")
    ensures NoneNamed(e.children, "Properties") ==> r == Ok(false)
    ensures forall i :: Sole(e.children, "Properties", i) ==> r == Ok(HasDirectChild(e.children[i], q))
  {
    var properties :- AtMostOne(e.children, "Properties");
    match properties
    case None => Ok(false)
    case Some(p) => Ok(HasDirectChild(p, q))
  }

  /** The first node of `ns` named `name` (`iter().find`). */
  function FindNamed(ns: seq<XmlNode>, name: string): (r: Option<XmlNode>)
    ensures r.None? <==> forall i :: 0 <= i < |ns| ==> ns[i].name != name
    ensures r.Some? ==> exists i :: 0 <= i < |ns| && ns[i] == r.value && ns[i].name == name
                                    && forall j :: 0 <= j < i ==> ns[j].name != name
  {
    if ns == [] then None
    else if ns[0].name == name then Some(ns[0])
    else
      var r := FindNamed(ns[1..], name);
      assert forall i :: 1 <= i < |ns| ==> ns[1..][i - 1] == ns[i];
      r
  }

  /** The same-named child of the parent content, which exists only when the
      parent content is a Branch. */
  function ParentField(parent: Option<XmlNode>, name: string): (r: Option<XmlNode>)
    ensures r.Some? ==> parent.Some? && parent.value.data.Branch? && r.value.name == name
                        && r.value in parent.value.data.children
  {
    match parent
    case Some(p) => (if p.data.Branch? then FindNamed(p.data.children, name) else None)
    case None => None
  }

  /** `n` is content synthesised for `q`: nothing in it is present, and it
      has exactly the query's shape, with one child per field in order. */
  ghost predicate Synthesised(n: XmlNode, q: Query)
    decreases q
  {
    && n.name == q.name
    && !n.present
    && match q
       case LeafQuery(_) => !n.data.Branch?
       case BranchQuery(_, fs) =>
         && n.data.Branch?
         && |n.data.children| == |fs|
         && forall i :: 0 <= i < |fs| ==> Synthesised(n.data.children[i], fs[i])
  }

  /** `create_content`: content for a field the element does not define.
      It always exists; a leaf takes its value from the parent content when
      that is a leaf, and has no value otherwise. */
  function CreateContent(q: Query, parent: Option<XmlNode>): (r: Option<XmlNode>)
    ensures r.Some? && Synthesised(r.value, q)
    ensures q.LeafQuery? ==> (r.value.data.Leaf? <==> parent.Some? && parent.value.data.Leaf?)
    ensures q.LeafQuery? && r.value.data.Leaf? ==> r.value.data == parent.value.data
    decreases q
  {
    match q
    case BranchQuery(name, fs) => Some(XmlNode(name, false, Branch(CreateFields(fs, parent))))
    case LeafQuery(name) =>
      var data := match parent
        case Some(p) => (if p.data.Leaf? then p.data else NoData)
        case None => NoData;
      Some(XmlNode(name, false, data))
  }

  /** `create_content` over the fields of a branch query. */
  function CreateFields(fs: seq<Query>, parent: Option<XmlNode>): (r: seq<XmlNode>)
    ensures |r| == |fs|
    ensures forall i :: 0 <= i < |fs| ==> Synthesised(r[i], fs[i])
    ensures forall i :: 0 <= i < |fs| ==> Some(r[i]) == CreateContent(fs[i], ParentField(parent, fs[i].name))
    decreases fs
  {
    if fs == [] then []
    else
      var rest := CreateFields(fs[1..], parent);
      assert forall i :: 1 <= i < |fs| ==> fs[1..][i - 1] == fs[i];
      match CreateContent(fs[0], ParentField(parent, fs[0].name))
      case Some(n) => [n] + rest
      case None => rest
  }

  /** What extracting field `f` below element `c` yields. */
  function FieldOutcome(c: Elem, f: Query, parent: Option<XmlNode>): Result<Option<XmlNode>>
    decreases f, 1
  {
    ExtractContent(c, f, ParentField(parent, f.name))
  }

  /** `extract_content`: content for `q` below the element `e`.
      Two children named like the query abort. No such child synthesises
      the content from the parent. A found leaf takes the child's text, and
      is dropped (not defaulted) when the child has none. A found branch is
      present and keeps the fields that yield content. */
  function ExtractContent(e: Elem, q: Query, parent: Option<XmlNode>): (r: Result<Option<XmlNode>>)
    ensures TwoNamed(e.children, q.name) ==> r == Fatal(Duplicate(q.name))
    ensures NoneNamed(e.children, q.name) ==> r == Ok(CreateContent(q, parent))
    ensures r.Ok? && r.value.Some? ==> r.value.value.name == q.name
    ensures r.Ok? && r.value.Some? ==> (r.value.value.present <==> exists i :: Sole(e.children, q.name, i))
    ensures r.Ok? && q.BranchQuery? ==> r.value.Some? && r.value.value.data.Branch?
    ensures forall i :: Sole(e.children, q.name, i) && q.LeafQuery? ==>
              r == (match e.children[i].text
                    case None => Ok(None)
                    case Some(t) => Ok(Some(XmlNode(q.name, true, Leaf(t)))))
    ensures forall i :: Sole(e.children, q.name, i) && q.BranchQuery? ==>
              (r.Ok? <==> ExtractFields(e.children[i], q.fields, parent).Ok?) &&
              (r.Ok? ==> r.value.value.data.children == ExtractFields(e.children[i], q.fields, parent).value)
    ensures forall i :: Sole(e.children, q.name, i) && q.BranchQuery? && r.Fatal? ==>
              r == Fatal(ExtractFields(e.children[i], q.fields, parent).error)
    decreases q, 0
  {
    var child :- AtMostOne(e.children, q.name);
    match child
    case None => Ok(CreateContent(q, parent))
    case Some(c) =>
      match q
      case BranchQuery(name, fs) =>
        var kids :- ExtractFields(c, fs, parent);
        Ok(Some(XmlNode(name, true, Branch(kids))))
      case LeafQuery(name) =>
        match c.text
        case None => Ok(None)
        case Some(t) => Ok(Some(XmlNode(name, true, Leaf(t))))
  }

  /** The fields of a found branch, each extracted against the same-named
      child of the parent content; the first field that aborts aborts the
      whole with its own failure. */
  function ExtractFields(c: Elem, fs: seq<Query>, parent: Option<XmlNode>): (r: Result<seq<XmlNode>>)
    ensures r.Ok? <==> forall i :: 0 <= i < |fs| ==> FieldOutcome(c, fs[i], parent).Ok?
    ensures r.Fatal? ==> FirstAbort(c, fs, parent) < |fs|
    ensures r.Fatal? ==> r == Fatal(FieldOutcome(c, fs[FirstAbort(c, fs, parent)], parent).error)
    decreases fs, 2
  {
    if fs == [] then Ok([])
    else
      var first :- FieldOutcome(c, fs[0], parent);
      var rest :- ExtractFields(c, fs[1..], parent);
      assert forall i :: 1 <= i < |fs| ==> fs[1..][i - 1] == fs[i];
      Ok((if first.Some? then [first.value] else []) + rest)
  }

  /** The position of the first failure in `rs`; `|rs|` when there is none. */
  function FirstFatal<T>(rs: seq<Result<T>>): (k: nat)
    ensures k <= |rs|
    ensures forall j :: 0 <= j < k ==> rs[j].Ok?
    ensures k < |rs| ==> rs[k].Fatal?
  {
    if rs == [] || rs[0].Fatal? then 0
    else
      var k := FirstFatal(rs[1..]);
      assert forall j :: 0 <= j < k ==> rs[1..][j] == rs[j + 1];
      1 + k
  }

  /** What extracting each field in turn yields. */
  function Outcomes(c: Elem, fs: seq<Query>, parent: Option<XmlNode>): (r: seq<Result<Option<XmlNode>>>)
    ensures |r| == |fs|
    ensures forall j :: 0 <= j < |fs| ==> r[j] == FieldOutcome(c, fs[j], parent)
    decreases fs, 0
  {
    seq(|fs|, j requires 0 <= j < |fs| => FieldOutcome(c, fs[j], parent))
  }

  /** The position of the first field whose extraction aborts; `|fs|` when
      none does. */
  function FirstAbort(c: Elem, fs: seq<Query>, parent: Option<XmlNode>): (k: nat)
    ensures k <= |fs|
    ensures forall j :: 0 <= j < k ==> FieldOutcome(c, fs[j], parent).Ok?
    ensures k < |fs| ==> FieldOutcome(c, fs[k], parent).Fatal?
    decreases fs, 1
  {
    FirstFatal(Outcomes(c, fs, parent))
  }

  /** One step of `ExtractFields`: the first field's content, if any, then
      the rest. */
  lemma ExtractFieldsStep(c: Elem, fs: seq<Query>, parent: Option<XmlNode>)
    requires fs != [] && ExtractFields(c, fs, parent).Ok?
    ensures FieldOutcome(c, fs[0], parent).Ok? && ExtractFields(c, fs[1..], parent).Ok?
    ensures var first := FieldOutcome(c, fs[0], parent).value;
      ExtractFields(c, fs, parent).value
      == (if first.Some? then [first.value] else []) + ExtractFields(c, fs[1..], parent).value
  {
  }

  /** The names of a found branch's content follow the query's field order,
      some left out. */
  lemma {:induction false} ExtractFieldsOrdered(c: Elem, fs: seq<Query>, parent: Option<XmlNode>)
    requires ExtractFields(c, fs, parent).Ok?
    ensures IsSubsequence(NodeNames(ExtractFields(c, fs, parent).value), FieldNames(fs))
  {
    if fs != [] {
      ExtractFieldsStep(c, fs, parent);
      ExtractFieldsOrdered(c, fs[1..], parent);
      var first := FieldOutcome(c, fs[0], parent).value;
      var rest := ExtractFields(c, fs[1..], parent).value;
      assert FieldNames(fs) == [fs[0].name] + FieldNames(fs[1..]);
      var ns := ExtractFields(c, fs, parent).value;
      if first.Some? {
        assert ns == [first.value] + rest;
        assert NodeNames(ns) == [first.value.name] + NodeNames(rest);
        SubsequenceCons(fs[0].name, NodeNames(rest), FieldNames(fs[1..]));
      } else {
        assert ns == rest;
        SubsequencePrefix(NodeNames(rest), [fs[0].name], FieldNames(fs[1..]));
      }
    }
  }

  /** A field whose extraction yields content is never left out. */
  lemma {:induction false} ExtractFieldsComplete(c: Elem, fs: seq<Query>, parent: Option<XmlNode>, i: nat)
    requires ExtractFields(c, fs, parent).Ok?
    requires i < |fs| && FieldOutcome(c, fs[i], parent).value.Some?
    ensures FieldOutcome(c, fs[i], parent).value.value in ExtractFields(c, fs, parent).value
  {
    ExtractFieldsStep(c, fs, parent);
    var first := FieldOutcome(c, fs[0], parent).value;
    var rest := ExtractFields(c, fs[1..], parent).value;
    if i > 0 {
      assert fs[1..][i - 1] == fs[i];
      ExtractFieldsComplete(c, fs[1..], parent, i - 1);
      assert FieldOutcome(c, fs[i], parent).value.value in rest;
    }
  }

  /** Everything a found branch lists is the content of one of its fields. */
  lemma {:induction false} ExtractFieldsSound(c: Elem, fs: seq<Query>, parent: Option<XmlNode>, n: XmlNode)
    requires ExtractFields(c, fs, parent).Ok?
    requires n in ExtractFields(c, fs, parent).value
    ensures exists i :: 0 <= i < |fs| && FieldOutcome(c, fs[i], parent) == Ok(Some(n))
  {
    ExtractFieldsStep(c, fs, parent);
    if n in ExtractFields(c, fs[1..], parent).value {
      ExtractFieldsSound(c, fs[1..], parent, n);
      var i :| 0 <= i < |fs[1..]| && FieldOutcome(c, fs[1..][i], parent) == Ok(Some(n));
      assert FieldOutcome(c, fs[i + 1], parent) == Ok(Some(n));
    } else {
      assert FieldOutcome(c, fs[0], parent) == Ok(Some(n));
    }
  }

  /** `extract_content_from_values`: an asset's fields live under its one
      mandatory `Values` child. */
  function ExtractFromValues(e: Elem, q: Query, parent: Option<XmlNode>): (r: Result<Option<XmlNode>>)
    ensures TwoNamed(e.children, "Values") ==> r == Fatal(Duplicate("Values"))
    ensures NoneNamed(e.children, "Values") ==> r == Fatal(MissingValues)
    ensures forall i :: Sole(e.children, "Values", i) ==> r == ExtractContent(e.children[i], q, parent)
    ensures r.Ok? && r.value.Some? ==> r.value.value.name == q.name
  {
    var values :- AtMostOne(e.children, "Values");
    match values
    case None => Fatal(MissingValues)
    case Some(v) => ExtractContent(v, q, parent)
  }

  /** `extract_content_from_properties`: a template's fields live under its
      optional `Properties` child; without one, everything is synthesised. */
  function ExtractFromProperties(e: Elem, q: Query, parent: Option<XmlNode>): (r: Result<Option<XmlNode>>)
    ensures TwoNamed(e.children, "Properties") ==> r == Fatal(Duplicate("Properties"))
    ensures NoneNamed(e.children, "Properties") ==> r == Ok(CreateContent(q, parent))
    ensures forall i :: Sole(e.children, "Properties", i) ==> r == ExtractContent(e.children[i], q, parent)
  {
    var properties :- AtMostOne(e.children, "Properties");
    match properties
    case None => Ok(CreateContent(q, parent))
    case Some(p) => ExtractContent(p, q, parent)
  }
}

/** What the extracted content says about each queried leaf: the value in
    effect is the document's own when it defines the field, and the parent
    content's otherwise (src/helper.rs:131-218).
 */
module Inheritance {
  import opened Wrappers
  import opened Xml
  import opened Content

  /** The value in effect at the leaf reached from `n` by following the field
      names in `path`. */
  function LeafValue(n: Option<XmlNode>, path: seq<string>): Option<string>
    decreases |path|
  {
    match n
    case None => None
    case Some(x) =>
      if path == [] then (if x.data.Leaf? then Some(x.data.text) else None)
      else LeafValue(ParentField(n, path[0]), path[1..])
  }

  /** `path` names a leaf field of `q`, starting below `q` itself. */
  ghost predicate LeafPath(q: Query, path: seq<string>)
    decreases |path|
  {
    if path == [] then q.LeafQuery?
    else
      && q.BranchQuery?
      && exists i :: 0 <= i < |q.fields| && q.fields[i].name == path[0] && LeafPath(q.fields[i], path[1..])
  }

  /** What a document element says about a field: nothing, or that it has the
      field, with or without text. */
  datatype Definition = Undefined | Defined(text: Option<string>)

  /** Follow `path` from `e` through the children named by it. */
  function DocLookup(e: Elem, path: seq<string>): Definition
    decreases |path|
  {
    if path == [] then Defined(e.text)
    else
      var m := Named(e.children, path[0]);
      if |m| == 0 then Undefined else DocLookup(m[0], path[1..])
  }

  /** With distinct names, the first node named like `ns[i]` is `ns[i]`. */
  lemma FindNamedDistinct(ns: seq<XmlNode>, i: nat)
    requires i < |ns|
    requires forall j :: 0 <= j < |ns| && j != i ==> ns[j].name != ns[i].name
    ensures FindNamed(ns, ns[i].name) == Some(ns[i])
  {
  }

  /** Content synthesised for a field the element does not define exposes
      exactly the parent content's values. */
  lemma {:induction false} CreateContentInherits(q: Query, parent: Option<XmlNode>, path: seq<string>)
    requires WellFormed(q) && LeafPath(q, path)
    ensures LeafValue(CreateContent(q, parent), path) == LeafValue(parent, path)
    decreases q
  {
    if path != [] {
      var fs := q.fields;
      var i :| 0 <= i < |fs| && fs[i].name == path[0] && LeafPath(fs[i], path[1..]);
      var kids := CreateFields(fs, parent);
      var below := ParentField(parent, path[0]);
      assert Synthesised(kids[i], fs[i]);
      forall j | 0 <= j < |kids| && j != i ensures kids[j].name != kids[i].name {
        assert Synthesised(kids[j], fs[j]);
        if j < i { assert fs[j].name != fs[i].name; } else { assert fs[i].name != fs[j].name; }
      }
      FindNamedDistinct(kids, i);
      assert ParentField(CreateContent(q, parent), path[0]) == Some(kids[i]);
      CreateContentInherits(fs[i], below, path[1..]);
    }
  }

  /** With distinct field names, the content listed under a found branch for
      a field is exactly what that field's own extraction yields. */
  lemma FindKept(c: Elem, fs: seq<Query>, parent: Option<XmlNode>, j: nat)
    requires forall a, b :: 0 <= a < b < |fs| ==> fs[a].name != fs[b].name
    requires ExtractFields(c, fs, parent).Ok? && j < |fs|
    ensures FindNamed(ExtractFields(c, fs, parent).value, fs[j].name) == FieldOutcome(c, fs[j], parent).value
  {
    var kids := ExtractFields(c, fs, parent).value;
    var f := fs[j].name;
    var found := FindNamed(kids, f);
    if found.Some? {
      ExtractFieldsSound(c, fs, parent, found.value);
      var k :| 0 <= k < |fs| && FieldOutcome(c, fs[k], parent) == Ok(Some(found.value));
      assert fs[k].name == f;
    } else if FieldOutcome(c, fs[j], parent).value.Some? {
      ExtractFieldsComplete(c, fs, parent, j);
    }
  }

  /** Extraction completeness and presence locality together: the value in
      effect at every queried leaf is the element's own text when the element
      defines the field (none, when that child has no text: the field is then
      dropped, not defaulted), and the parent content's value when it does
      not. */
  lemma {:induction false} ExtractContentInherits(e: Elem, q: Query, parent: Option<XmlNode>, path: seq<string>)
    requires WellFormed(q) && LeafPath(q, path)
    requires ExtractContent(e, q, parent).Ok?
    ensures LeafValue(ExtractContent(e, q, parent).value, path) ==
      match DocLookup(e, [q.name] + path)
      case Undefined => LeafValue(parent, path)
      case Defined(t) => t
    decreases q, 1
  {
    var cs := e.children;
    NamedCases(cs, q.name);
    assert ([q.name] + path)[1..] == path;
    if NoneNamed(cs, q.name) {
      CreateContentInherits(q, parent, path);
    } else {
      assert !TwoNamed(cs, q.name);
      var i := IndexOfSole(cs, q.name);
      assert Sole(cs, q.name, i);
      assert DocLookup(e, [q.name] + path) == DocLookup(cs[i], path);
      if path != [] {
        FoundInherits(e, q, parent, path, i);
      }
    }
  }

  /** The step below a found branch: the leaf's value comes from the field
      the path names next. */
  lemma {:induction false} FoundInherits(e: Elem, q: Query, parent: Option<XmlNode>, path: seq<string>, i: nat)
    requires WellFormed(q) && LeafPath(q, path) && path != []
    requires ExtractContent(e, q, parent).Ok? && Sole(e.children, q.name, i)
    ensures LeafValue(ExtractContent(e, q, parent).value, path) ==
      match DocLookup(e.children[i], path)
      case Undefined => LeafValue(parent, path)
      case Defined(t) => t
    decreases q, 0
  {
    var c := e.children[i];
    var fs := q.fields;
    var j :| 0 <= j < |fs| && fs[j].name == path[0] && LeafPath(fs[j], path[1..]);
    FindKept(c, fs, parent, j);
    assert ParentField(ExtractContent(e, q, parent).value, path[0]) == FieldOutcome(c, fs[j], parent).value;
    ExtractContentInherits(c, fs[j], ParentField(parent, path[0]), path[1..]);
    assert ([path[0]] + path[1..]) == path;
  }
}
