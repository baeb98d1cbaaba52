/** Positions inside a parsed document and the structural address (XPath)
    the program derives from them (src/helper.rs:36-54).

    A position is the list of child indices leading from the document node to
    an element. The address names every element on the way, the document node
    excluded, as `/tag[k]`, where `k` is the 1-based rank of the element among
    its same-tagged siblings.
 */
module Paths {
  import opened Xml

  /** `p` leads from `e` to an element. */
  ghost predicate ValidPath(e: Elem, p: seq<nat>)
    decreases |p|
  {
    p == [] || (p[0] < |e.children| && ValidPath(e.children[p[0]], p[1..]))
  }

  /** The element `p` leads to. */
  function At(e: Elem, p: seq<nat>): Elem
    requires ValidPath(e, p)
    decreases |p|
  {
    if p == [] then e else At(e.children[p[0]], p[1..])
  }

  /** The 1-based rank of `cs[i]` among the elements of `cs` with its tag. */
  function Rank(cs: seq<Elem>, i: nat): (k: nat)
    requires i < |cs|
    ensures k >= 1
  {
    |Named(cs[..i], cs[i].tag)| + 1
  }

  /** One step of an address: a tag and a same-tag rank. */
  datatype Step = Step(tag: string, rank: nat)

  /** The steps of the address of the element `p` leads to. */
  function Steps(e: Elem, p: seq<nat>): (r: seq<Step>)
    requires ValidPath(e, p)
    ensures |r| == |p|
    ensures forall k :: 0 <= k < |r| ==> r[k].rank >= 1
    decreases |p|
  {
    if p == [] then []
    else [Step(e.children[p[0]].tag, Rank(e.children, p[0]))] + Steps(e.children[p[0]], p[1..])
  }

  /** Appending a tagged element to a list adds one to the count of that tag. */
  lemma NamedSnoc(cs: seq<Elem>, c: Elem, name: string)
    ensures |Named(cs + [c], name)| == |Named(cs, name)| + (if c.tag == name then 1 else 0)
  {
    assert (cs + [c])[..|cs + [c]| - 1] == cs;
  }

  /** The count of a tag over a prefix grows by at least one past an element
      carrying that tag. */
  lemma {:induction false} NamedPrefixGrows(cs: seq<Elem>, i: nat, j: nat)
    requires i < j <= |cs|
    ensures |Named(cs[..j], cs[i].tag)| >= |Named(cs[..i], cs[i].tag)| + 1
    decreases j - i
  {
    if j == i + 1 {
      assert cs[..j] == cs[..i] + [cs[i]];
      NamedSnoc(cs[..i], cs[i], cs[i].tag);
    } else {
      NamedPrefixGrows(cs, i, j - 1);
      assert cs[..j] == cs[..j - 1] + [cs[j - 1]];
      NamedSnoc(cs[..j - 1], cs[j - 1], cs[i].tag);
    }
  }

  /** Two same-tagged siblings never share a rank. */
  lemma RankInjective(cs: seq<Elem>, i: nat, j: nat)
    requires i < |cs| && j < |cs|
    requires cs[i].tag == cs[j].tag && Rank(cs, i) == Rank(cs, j)
    ensures i == j
  {
    if i < j {
      NamedPrefixGrows(cs, i, j);
    } else if j < i {
      NamedPrefixGrows(cs, j, i);
    }
  }

  /** Different positions in one document have different address steps, so
      the structural address identifies an element within its document. */
  lemma {:induction false} StepsInjective(e: Elem, p: seq<nat>, q: seq<nat>)
    requires ValidPath(e, p) && ValidPath(e, q)
    requires Steps(e, p) == Steps(e, q)
    ensures p == q
    decreases |p|
  {
    if p != [] {
      assert q != [];
      var sp := Steps(e, p);
      var sq := Steps(e, q);
      assert sp[0] == sq[0];
      RankInjective(e.children, p[0], q[0]);
      assert sp[1..] == Steps(e.children[p[0]], p[1..]);
      assert sq[1..] == Steps(e.children[q[0]], q[1..]);
      StepsInjective(e.children[p[0]], p[1..], q[1..]);
      assert p == [p[0]] + p[1..];
      assert q == [q[0]] + q[1..];
    }
  }

  /** The decimal digit for `d`. */
  function Digit(d: nat): (c: char)
    requires d < 10
    ensures '0' <= c <= '9'
  {
    "0123456789"[d]
  }

  predicate IsDigits(s: string) {
    forall i :: 0 <= i < |s| ==> '0' <= s[i] <= '9'
  }

  /** The decimal rendering of `n`, as `format!("{}", n)` writes it. */
  function Decimal(n: nat): (s: string)
    ensures |s| >= 1 && IsDigits(s)
    ensures |s| == 1 || s[0] != '0'
  {
    if n < 10 then [Digit(n)] else Decimal(n / 10) + [Digit(n % 10)]
  }

  /** The number a string of decimal digits denotes. */
  function DecimalValue(s: string): nat
    requires IsDigits(s)
  {
    if s == [] then 0
    else 10 * DecimalValue(s[..|s| - 1]) + (s[|s| - 1] - '0') as nat
  }

  /** Rendering a rank and reading it back gives the rank. */
  lemma {:induction false} DecimalRoundTrip(n: nat)
    ensures DecimalValue(Decimal(n)) == n
  {
    if n >= 10 {
      DecimalRoundTrip(n / 10);
      var s := Decimal(n);
      assert s[..|s| - 1] == Decimal(n / 10);
    }
  }

  /** The text of one step: `/tag[rank]`. */
  function Segment(st: Step): string {
    "/" + st.tag + "[" + Decimal(st.rank) + "]"
  }

  /** The address text: every step's segment, outermost first. */
  function Render(steps: seq<Step>): (s: string)
    ensures steps == [] <==> s == []
    ensures steps != [] ==> s[0] == '/'
  {
    if steps == [] then "" else Segment(steps[0]) + Render(steps[1..])
  }

  /** `helper::get_xpath` for the element at `p` below the document node `doc`. */
  function XPath(doc: Elem, p: seq<nat>): string
    requires ValidPath(doc, p)
  {
    Render(Steps(doc, p))
  }

  /** A tag without an opening bracket, as every XML name is. */
  predicate Bracketless(tag: string) {
    forall k :: 0 <= k < |tag| ==> tag[k] != '['
  }

  /** Every tag of the tree is bracketless. */
  ghost predicate BracketlessTree(e: Elem)
    decreases e
  {
    Bracketless(e.tag) && forall i :: 0 <= i < |e.children| ==> BracketlessTree(e.children[i])
  }

  /** The index of the first `c` in `t`, or `|t|` when there is none. */
  function FirstIndex(t: string, c: char): (i: nat)
    ensures i <= |t|
  {
    if t == [] then 0 else if t[0] == c then 0 else 1 + FirstIndex(t[1..], c)
  }

  /** The first `c` after a stretch without `c` is the one that ends it. */
  lemma {:induction false} FirstIndexAfter(a: string, c: char, rest: string)
    requires forall k :: 0 <= k < |a| ==> a[k] != c
    ensures FirstIndex(a + [c] + rest, c) == |a|
  {
    if a != [] {
      assert (a + [c] + rest)[1..] == a[1..] + [c] + rest;
      FirstIndexAfter(a[1..], c, rest);
    }
  }

  /** A segment is never a proper prefix of another: the first `[` ends the
      tag and the first `]` after it ends the rank. */
  lemma SegmentPrefixFree(x: Step, y: Step, r1: string, r2: string)
    requires Bracketless(x.tag) && Bracketless(y.tag)
    requires Segment(x) + r1 == Segment(y) + r2
    ensures x == y && r1 == r2
  {
    var dx, dy := Decimal(x.rank), Decimal(y.rank);
    var u1, u2 := dx + "]" + r1, dy + "]" + r2;
    var t := Segment(x) + r1;
    assert t == ("/" + x.tag) + "[" + u1;
    assert t == ("/" + y.tag) + "[" + u2;
    FirstIndexAfter("/" + x.tag, '[', u1);
    FirstIndexAfter("/" + y.tag, '[', u2);
    assert "/" + x.tag == t[..|x.tag| + 1] == "/" + y.tag;
    assert x.tag == ("/" + x.tag)[1..];
    assert u1 == t[|x.tag| + 2..] == u2;
    FirstIndexAfter(dx, ']', r1);
    FirstIndexAfter(dy, ']', r2);
    assert dx == u1[..|dx|] == dy;
    assert r1 == u1[|dx| + 1..] == r2;
    DecimalRoundTrip(x.rank);
    DecimalRoundTrip(y.rank);
  }

  /** Different step lists with bracketless tags render differently. */
  lemma {:induction false} RenderInjective(a: seq<Step>, b: seq<Step>)
    requires forall k :: 0 <= k < |a| ==> Bracketless(a[k].tag)
    requires forall k :: 0 <= k < |b| ==> Bracketless(b[k].tag)
    requires Render(a) == Render(b)
    ensures a == b
    decreases |a|
  {
    if a != [] {
      SegmentPrefixFree(a[0], b[0], Render(a[1..]), Render(b[1..]));
      RenderInjective(a[1..], b[1..]);
      assert a == [a[0]] + a[1..] && b == [b[0]] + b[1..];
    }
  }

  /** The steps below a bracketless tree have bracketless tags. */
  lemma {:induction false} StepsBracketless(e: Elem, p: seq<nat>)
    requires BracketlessTree(e) && ValidPath(e, p)
    ensures forall k :: 0 <= k < |Steps(e, p)| ==> Bracketless(Steps(e, p)[k].tag)
    decreases |p|
  {
    if p != [] {
      StepsBracketless(e.children[p[0]], p[1..]);
      var r := Steps(e, p);
      assert forall k :: 1 <= k < |r| ==> r[k] == Steps(e.children[p[0]], p[1..])[k - 1];
    }
  }

  /** The structural address identifies the element: two positions of a
      document with the same address are the same position. */
  lemma XPathInjective(doc: Elem, p: seq<nat>, q: seq<nat>)
    requires BracketlessTree(doc) && ValidPath(doc, p) && ValidPath(doc, q)
    requires XPath(doc, p) == XPath(doc, q)
    ensures p == q
  {
    StepsBracketless(doc, p);
    StepsBracketless(doc, q);
    RenderInjective(Steps(doc, p), Steps(doc, q));
    StepsInjective(doc, p, q);
  }

  /** Prefix every position in `ps` with child index `i`. */
  function Prefixed(i: nat, ps: seq<seq<nat>>): (r: seq<seq<nat>>)
    ensures |r| == |ps|
    ensures forall k :: 0 <= k < |r| ==> r[k] == [i] + ps[k]
  {
    seq(|ps|, k requires 0 <= k < |ps| => [i] + ps[k])
  }

  /** Every position below `e`, `e` itself first, in document order
      (roxmltree's `descendants()`). */
  function Descendants(e: Elem): (r: seq<seq<nat>>)
    ensures |r| >= 1 && r[0] == []
    ensures forall p :: p in r ==> ValidPath(e, p)
    decreases e, 1
  {
    [[]] + DescendantsFrom(e, 0)
  }

  /** Every position below the children `e.children[i..]`, in document order. */
  function DescendantsFrom(e: Elem, i: nat): (r: seq<seq<nat>>)
    requires i <= |e.children|
    ensures forall p :: p in r ==> ValidPath(e, p) && p != [] && i <= p[0]
    decreases e, 0, |e.children| - i
  {
    if i == |e.children| then []
    else
      var below := Descendants(e.children[i]);
      var here := Prefixed(i, below);
      assert forall p :: p in here ==> p[1..] in below;
      here + DescendantsFrom(e, i + 1)
  }

  /** Later children's descendants are among those collected from an
      earlier child on. */
  lemma {:induction false} DescendantsFromMonotone(e: Elem, i: nat, j: nat, p: seq<nat>)
    requires i <= j <= |e.children|
    requires p in DescendantsFrom(e, j)
    ensures p in DescendantsFrom(e, i)
    decreases j - i
  {
    if i < j {
      DescendantsFromMonotone(e, i + 1, j, p);
    }
  }

  /** Every position that leads to an element is enumerated. */
  lemma {:induction false} DescendantsComplete(e: Elem, p: seq<nat>)
    requires ValidPath(e, p)
    ensures p in Descendants(e)
    decreases |p|
  {
    if p != [] {
      var i := p[0];
      DescendantsComplete(e.children[i], p[1..]);
      var below := Descendants(e.children[i]);
      var k :| 0 <= k < |below| && below[k] == p[1..];
      assert Prefixed(i, below)[k] == p;
      assert p in DescendantsFrom(e, i);
      DescendantsFromMonotone(e, 0, i, p);
    }
  }

  /** A parsed file: its path below the input directory (opaque) and its
      document node. */
  datatype Document = Document(file: string, root: Elem)

  /** An element visited by the traversal, with the file it came from and its
      structural address. */
  datatype Located = Located(file: string, xpath: string, elem: Elem)

  /** `DescendantsComplete` for every position at once. */
  lemma DescendantsAll(e: Elem)
    ensures forall p :: ValidPath(e, p) && p != [] ==> p in DescendantsFrom(e, 0)
  {
    forall p | ValidPath(e, p) && p != [] ensures p in DescendantsFrom(e, 0) {
      DescendantsComplete(e, p);
    }
  }

  /** The elements of `d` tagged `tag`, in document order
      (`xml.descendants().filter(..)` in src/main.rs): every element below
      the document node with that tag, listed with its file and its
      structural address, and nothing else. The document node itself, at
      position `[]`, has no tag name and is never visited. */
  function Tagged(d: Document, tag: string): (r: seq<Located>)
    ensures forall n :: n in r ==> n.file == d.file && n.elem.tag == tag
    ensures forall p :: ValidPath(d.root, p) && p != [] && At(d.root, p).tag == tag ==>
              Located(d.file, XPath(d.root, p), At(d.root, p)) in r
    ensures forall n :: n in r ==>
              exists p :: ValidPath(d.root, p) && p != [] && n == Located(d.file, XPath(d.root, p), At(d.root, p))
  {
    DescendantsAll(d.root);
    TaggedAmong(d, DescendantsFrom(d.root, 0), tag)
  }

  function TaggedAmong(d: Document, ps: seq<seq<nat>>, tag: string): (r: seq<Located>)
    requires forall p :: p in ps ==> ValidPath(d.root, p)
    ensures forall n :: n in r ==> n.file == d.file && n.elem.tag == tag
    ensures forall p :: p in ps && At(d.root, p).tag == tag ==>
              Located(d.file, XPath(d.root, p), At(d.root, p)) in r
    ensures forall n :: n in r ==> exists p :: p in ps && n == Located(d.file, XPath(d.root, p), At(d.root, p))
  {
    if ps == [] then []
    else
      var p := ps[0];
      var rest := TaggedAmong(d, ps[1..], tag);
      assert forall p' :: p' in ps[1..] ==> p' in ps;
      (if At(d.root, p).tag == tag then [Located(d.file, XPath(d.root, p), At(d.root, p))] else []) + rest
  }

  /** The elements tagged `tag` of all files, file by file, in the given
      (sorted) file order: every element each file's `Tagged` lists, and
      nothing else. */
  function Corpus(docs: seq<Document>, tag: string): (r: seq<Located>)
    ensures forall n :: n in r ==> n.elem.tag == tag
    ensures forall k, n :: 0 <= k < |docs| && n in Tagged(docs[k], tag) ==> n in r
    ensures forall n :: n in r ==> exists k :: 0 <= k < |docs| && n in Tagged(docs[k], tag)
  {
    if docs == [] then []
    else
      var rest := Corpus(docs[1..], tag);
      assert forall k :: 1 <= k < |docs| ==> docs[1..][k - 1] == docs[k];
      Tagged(docs[0], tag) + rest
  }
}
