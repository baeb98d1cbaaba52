/** Identifiers of registered nodes and the keys under which a node can be
    found as somebody's parent (src/main.rs:417-543).
 */
module Identifiers {
  import opened Wrappers
  import opened Xml

  /** How an identifier names its node: by structural address, by template
      name, or by asset GUID. */
  datatype Kind = ByXPath | ByName | ByGuid

  /** `Identifier{file_path, kind, value}`; two identifiers are the same
      node exactly when all three parts agree. */
  datatype Identifier = Identifier(filePath: string, kind: Kind, value: string)

  /** `ParentIdentifier`: how a node refers to its parent. */
  datatype ParentKey = NoParent | DefaultValuesKey | TemplateKey(name: string) | GuidKey(guid: string)

  /** The text of the one child tagged `tag`: none when there is no such
      child; a second such child, or one without text, aborts. */
  function ChildText(e: Elem, tag: string): (r: Result<Option<string>>)
    ensures TwoNamed(e.children, tag) ==> r == Fatal(Duplicate(tag))
    ensures NoneNamed(e.children, tag) ==> r == Ok(None)
    ensures forall i :: Sole(e.children, tag, i) && e.children[i].text.None? ==> r == Fatal(MissingText(tag))
    ensures forall i :: Sole(e.children, tag, i) && e.children[i].text.Some? ==> r == Ok(e.children[i].text)
  {
    var c :- AtMostOne(e.children, tag);
    match c
    case None => Ok(None)
    case Some(n) =>
      match n.text
      case None => Fatal(MissingText(tag))
      case Some(t) => Ok(Some(t))
  }

  /** `create_asset_parent_identifier`: the parent link of an asset. A
      `Template` child wins over a `BaseAssetGUID` child, which wins over a
      `ScenarioBaseAssetGUID` child; without any of them the asset has no
      parent. Only the link that is looked at can abort, by being duplicated
      or having no text. */
  function AssetParent(e: Elem): (r: Result<ParentKey>)
    ensures r.Ok? ==> !r.value.DefaultValuesKey?
    ensures r == Ok(NoParent) <==>
      && NoneNamed(e.children, "Template")
      && NoneNamed(e.children, "BaseAssetGUID")
      && NoneNamed(e.children, "ScenarioBaseAssetGUID")
    ensures r.Ok? && r.value.TemplateKey? ==> ChildText(e, "Template") == Ok(Some(r.value.name))
    ensures r.Ok? && r.value.GuidKey? ==>
      && NoneNamed(e.children, "Template")
      && (ChildText(e, "BaseAssetGUID") == Ok(Some(r.value.guid))
          || (NoneNamed(e.children, "BaseAssetGUID")
              && ChildText(e, "ScenarioBaseAssetGUID") == Ok(Some(r.value.guid))))
    ensures TwoNamed(e.children, "Template") ==> r == Fatal(Duplicate("Template"))
    ensures forall i :: Sole(e.children, "Template", i) && e.children[i].text.Some? ==>
              r == Ok(TemplateKey(e.children[i].text.value))
    ensures forall i :: Sole(e.children, "Template", i) && e.children[i].text.None? ==>
              r == Fatal(MissingText("Template"))
    ensures NoneNamed(e.children, "Template") ==>
      && (TwoNamed(e.children, "BaseAssetGUID") ==> r == Fatal(Duplicate("BaseAssetGUID")))
      && (forall i :: Sole(e.children, "BaseAssetGUID", i) && e.children[i].text.None? ==>
            r == Fatal(MissingText("BaseAssetGUID")))
      && (forall i :: Sole(e.children, "BaseAssetGUID", i) && e.children[i].text.Some? ==>
            r == Ok(GuidKey(e.children[i].text.value)))
    ensures NoneNamed(e.children, "Template") && NoneNamed(e.children, "BaseAssetGUID") ==>
      && (TwoNamed(e.children, "ScenarioBaseAssetGUID") ==> r == Fatal(Duplicate("ScenarioBaseAssetGUID")))
      && (forall i :: Sole(e.children, "ScenarioBaseAssetGUID", i) && e.children[i].text.None? ==>
            r == Fatal(MissingText("ScenarioBaseAssetGUID")))
      && (forall i :: Sole(e.children, "ScenarioBaseAssetGUID", i) && e.children[i].text.Some? ==>
            r == Ok(GuidKey(e.children[i].text.value)))
  {
    var template :- ChildText(e, "Template");
    if template.Some? then Ok(TemplateKey(template.value))
    else
      var base :- ChildText(e, "BaseAssetGUID");
      if base.Some? then Ok(GuidKey(base.value))
      else
        var scenario :- ChildText(e, "ScenarioBaseAssetGUID");
        if scenario.Some? then Ok(GuidKey(scenario.value))
        else Ok(NoParent)
  }

  /** The text at `Values/Standard/GUID`, when each of the three is the only
      child so named and the last has text. */
  function NestedGuid(e: Elem): Option<string> {
    match TheOnly(e.children, "Values")
    case None => None
    case Some(v) =>
      match TheOnly(v.children, "Standard")
      case None => None
      case Some(s) =>
        match TheOnly(s.children, "GUID")
        case None => None
        case Some(g) => g.text
  }

  /** `create_asset_identifier`: an asset is named by its nested GUID when
      it has one, and by its structural address otherwise; a duplicated
      `Values`, `Standard` or `GUID` on the way aborts. */
  function AssetIdentifier(file: string, xpath: string, e: Elem): (r: Result<Identifier>)
    ensures r.Ok? ==> r.value.filePath == file
    ensures r.Ok? ==> (r.value.kind == ByGuid <==> NestedGuid(e).Some?)
    ensures r.Ok? && r.value.kind == ByGuid ==> r.value.value == NestedGuid(e).value
    ensures r.Ok? && r.value.kind != ByGuid ==> r.value == Identifier(file, ByXPath, xpath)
    ensures NestedGuid(e).Some? ==> r == Ok(Identifier(file, ByGuid, NestedGuid(e).value))
    ensures TwoNamed(e.children, "Values") ==> r == Fatal(Duplicate("Values"))
    ensures NoneNamed(e.children, "Values") ==> r == Ok(Identifier(file, ByXPath, xpath))
    ensures forall i :: Sole(e.children, "Values", i) && NoneNamed(e.children[i].children, "Standard") ==>
              r == Ok(Identifier(file, ByXPath, xpath))
    ensures forall i, j :: Sole(e.children, "Values", i) && Sole(e.children[i].children, "Standard", j)
                           && NoneNamed(e.children[i].children[j].children, "GUID") ==>
              r == Ok(Identifier(file, ByXPath, xpath))
    ensures forall i, j, k :: Sole(e.children, "Values", i) && Sole(e.children[i].children, "Standard", j)
                              && Sole(e.children[i].children[j].children, "GUID", k)
                              && e.children[i].children[j].children[k].text.None? ==>
              r == Ok(Identifier(file, ByXPath, xpath))
    ensures forall i :: Sole(e.children, "Values", i) && TwoNamed(e.children[i].children, "Standard") ==>
              r == Fatal(Duplicate("Standard"))
    ensures forall i, j :: Sole(e.children, "Values", i) && Sole(e.children[i].children, "Standard", j)
                           && TwoNamed(e.children[i].children[j].children, "GUID") ==>
              r == Fatal(Duplicate("GUID"))
    ensures r.Fatal? ==> r.error.Duplicate?
  {
    var values :- AtMostOne(e.children, "Values");
    match values
    case None => Ok(Identifier(file, ByXPath, xpath))
    case Some(v) => StandardIdentifier(file, xpath, v)
  }

  /** The identifier below a sole `Values` element `v`. */
  function StandardIdentifier(file: string, xpath: string, v: Elem): (r: Result<Identifier>)
    ensures TwoNamed(v.children, "Standard") ==> r == Fatal(Duplicate("Standard"))
    ensures NoneNamed(v.children, "Standard") ==> r == Ok(Identifier(file, ByXPath, xpath))
    ensures forall j :: Sole(v.children, "Standard", j) ==> r == GuidIdentifier(file, xpath, v.children[j])
  {
    var standard :- AtMostOne(v.children, "Standard");
    match standard
    case None => Ok(Identifier(file, ByXPath, xpath))
    case Some(st) => GuidIdentifier(file, xpath, st)
  }

  /** The identifier below a sole `Standard` element `st`: its `GUID` text,
      or the structural address without one. */
  function GuidIdentifier(file: string, xpath: string, st: Elem): (r: Result<Identifier>)
    ensures TwoNamed(st.children, "GUID") ==> r == Fatal(Duplicate("GUID"))
    ensures NoneNamed(st.children, "GUID") ==> r == Ok(Identifier(file, ByXPath, xpath))
    ensures forall k :: Sole(st.children, "GUID", k) && st.children[k].text.None? ==>
              r == Ok(Identifier(file, ByXPath, xpath))
    ensures forall k :: Sole(st.children, "GUID", k) && st.children[k].text.Some? ==>
              r == Ok(Identifier(file, ByGuid, st.children[k].text.value))
  {
    var guid :- AtMostOne(st.children, "GUID");
    match guid
    case None => Ok(Identifier(file, ByXPath, xpath))
    case Some(g) =>
      match g.text
      case None => Ok(Identifier(file, ByXPath, xpath))
      case Some(t) => Ok(Identifier(file, ByGuid, t))
  }

  /** `create_template_identifier`: a template is named by its `Name` child;
      without one it is not registered; a duplicated `Name`, or one without
      text, aborts. */
  function TemplateIdentifier(file: string, e: Elem): (r: Result<Option<Identifier>>)
    ensures r.Ok? && r.value.Some? ==> r.value.value.kind == ByName
    ensures NoneNamed(e.children, "Name") ==> r == Ok(None)
    ensures TwoNamed(e.children, "Name") ==> r == Fatal(Duplicate("Name"))
    ensures forall i :: Sole(e.children, "Name", i) && e.children[i].text.None? ==> r == Fatal(MissingText("Name"))
    ensures forall i :: Sole(e.children, "Name", i) && e.children[i].text.Some? ==>
              r == Ok(Some(Identifier(file, ByName, e.children[i].text.value)))
  {
    var name :- ChildText(e, "Name");
    match name
    case None => Ok(None)
    case Some(t) => Ok(Some(Identifier(file, ByName, t)))
  }

  /** `create_default_values_identifier`: a DefaultValues node is named by
      its structural address. */
  function DefaultValuesIdentifier(file: string, xpath: string): Identifier {
    Identifier(file, ByXPath, xpath)
  }
}
