/** The parsed document as the program sees it: element nodes with a tag, the
    text of their leading text node (if any), and their element children in
    document order. Parsing itself is not modelled.
 */
module Xml {
  import opened Wrappers

  datatype Elem = Elem(tag: string, text: Option<string>, children: seq<Elem>)

  /** The elements of `cs` tagged `name`, in document order. */
  function Named(cs: seq<Elem>, name: string): (r: seq<Elem>)
    ensures |r| <= |cs|
  {
    if cs == [] then []
    else Named(cs[..|cs| - 1], name) + (if cs[|cs| - 1].tag == name then [cs[|cs| - 1]] else [])
  }

  /** No element of `cs` is tagged `name`. */
  ghost predicate NoneNamed(cs: seq<Elem>, name: string) {
    forall i :: 0 <= i < |cs| ==> cs[i].tag != name
  }

  /** Two different elements of `cs` are tagged `name`. */
  ghost predicate TwoNamed(cs: seq<Elem>, name: string) {
    exists i, j :: 0 <= i < j < |cs| && cs[i].tag == name && cs[j].tag == name
  }

  /** `cs[i]` is the one and only element of `cs` tagged `name`. */
  ghost predicate Sole(cs: seq<Elem>, name: string, i: int) {
    && 0 <= i < |cs|
    && cs[i].tag == name
    && forall j :: 0 <= j < |cs| && j != i ==> cs[j].tag != name
  }

  /** No element tagged `name` exactly when the filter is empty. */
  lemma {:induction false} NamedNone(cs: seq<Elem>, name: string)
    ensures |Named(cs, name)| == 0 <==> NoneNamed(cs, name)
  {
    if cs != [] {
      var n := |cs| - 1;
      NamedNone(cs[..n], name);
      assert forall i :: 0 <= i < n ==> cs[..n][i] == cs[i];
    }
  }

  /** Two elements tagged `name` exactly when the filter keeps two or more. */
  lemma {:induction false} NamedTwo(cs: seq<Elem>, name: string)
    ensures |Named(cs, name)| >= 2 <==> TwoNamed(cs, name)
  {
    if cs != [] {
      var n := |cs| - 1;
      var p := cs[..n];
      NamedTwo(p, name);
      NamedNone(p, name);
      if TwoNamed(p, name) {
        var i, j :| 0 <= i < j < |p| && p[i].tag == name && p[j].tag == name;
        assert cs[i].tag == name && cs[j].tag == name;
      } else if cs[n].tag == name && !NoneNamed(p, name) {
        var i :| 0 <= i < |p| && p[i].tag == name;
        assert cs[i].tag == name && cs[n].tag == name;
      }
      if TwoNamed(cs, name) {
        var i, j :| 0 <= i < j < |cs| && cs[i].tag == name && cs[j].tag == name;
        if j < n {
          assert p[i].tag == name && p[j].tag == name;
        } else {
          assert p[i].tag == name;
        }
      }
    }
  }

  /** A single element tagged `name` is exactly what the filter keeps. */
  lemma {:induction false} NamedSole(cs: seq<Elem>, name: string)
    ensures forall i :: Sole(cs, name, i) ==> Named(cs, name) == [cs[i]]
    ensures |Named(cs, name)| == 1 ==> Sole(cs, name, IndexOfSole(cs, name))
  {
    if cs != [] {
      var n := |cs| - 1;
      var p := cs[..n];
      NamedSole(p, name);
      NamedNone(p, name);
      assert forall i :: 0 <= i < n ==> p[i] == cs[i];
      if cs[n].tag == name {
        assert Named(cs, name) == Named(p, name) + [cs[n]];
        assert IndexOfSole(cs, name) == n;
        forall i | Sole(cs, name, i) ensures Named(cs, name) == [cs[i]] {
          assert i == n;
          assert NoneNamed(p, name);
        }
        if |Named(cs, name)| == 1 {
          assert NoneNamed(p, name);
        }
      } else {
        assert Named(cs, name) == Named(p, name);
        assert IndexOfSole(cs, name) == IndexOfSole(p, name);
        forall i | Sole(cs, name, i) ensures Named(cs, name) == [cs[i]] {
          assert Sole(p, name, i);
        }
        if |Named(cs, name)| == 1 {
          assert Sole(p, name, IndexOfSole(p, name));
        }
      }
    }
  }

  /** How many elements carry a tag decides which of the three cases holds. */
  lemma NamedCases(cs: seq<Elem>, name: string)
    ensures |Named(cs, name)| == 0 <==> NoneNamed(cs, name)
    ensures |Named(cs, name)| >= 2 <==> TwoNamed(cs, name)
    ensures forall i :: Sole(cs, name, i) ==> Named(cs, name) == [cs[i]]
    ensures |Named(cs, name)| == 1 ==> Sole(cs, name, IndexOfSole(cs, name))
  {
    NamedNone(cs, name);
    NamedTwo(cs, name);
    NamedSole(cs, name);
  }

  /** The position of the only element tagged `name`, when there is exactly one. */
  function IndexOfSole(cs: seq<Elem>, name: string): (i: nat)
    ensures i <= |cs|
  {
    if cs == [] then 0
    else if cs[|cs| - 1].tag == name then |cs| - 1
    else IndexOfSole(cs[..|cs| - 1], name)
  }

  /** Looking a child up under the rule "at most one": two or more abort the
      run, none yields None, exactly one yields that child. */
  function AtMostOne(cs: seq<Elem>, name: string): (r: Result<Option<Elem>>)
    ensures r.Fatal? <==> TwoNamed(cs, name)
    ensures r.Fatal? ==> r.error == Duplicate(name)
    ensures r == Ok(None) <==> NoneNamed(cs, name)
    ensures forall i :: Sole(cs, name, i) ==> r == Ok(Some(cs[i]))
    ensures r.Ok? && r.value.Some? ==> Sole(cs, name, IndexOfSole(cs, name)) && r.value.value == cs[IndexOfSole(cs, name)]
  {
    var m := Named(cs, name);
    NamedCases(cs, name);
    if |m| > 1 then Fatal(Duplicate(name))
    else if |m| == 0 then Ok(None)
    else Ok(Some(m[0]))
  }

  /** The element that "at most one" yields: present exactly when there is a
      single child tagged `name`. */
  function TheOnly(cs: seq<Elem>, name: string): (r: Option<Elem>)
    ensures r.Some? <==> exists i :: Sole(cs, name, i)
    ensures forall i :: Sole(cs, name, i) ==> r == Some(cs[i])
  {
    NamedCases(cs, name);
    var m := Named(cs, name);
    if |m| == 1 then Some(m[0]) else None
  }
}
