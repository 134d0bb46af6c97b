/** An abstract element tree standing in for `xml.etree.ElementTree`: the
    parser itself is not modelled, only the three lookups the copier makes on
    the parsed tree. */
module Xml {
  import opened Wrappers

  /** An XML element: its tag, its attributes and its children in document order. */
  datatype Element = Element(tag: string, attrs: map<string, string>, children: seq<Element>)

  /** `element.get(key)`: the attribute's value, or `None` when it is absent. */
  function Get(e: Element, key: string): Option<string> {
    if key in e.attrs then Some(e.attrs[key]) else None
  }

  /** The elements of `es` whose tag is `tag`, in order. */
  function WithTag(es: seq<Element>, tag: string): (r: seq<Element>)
    ensures |r| <= |es|
    ensures forall x :: x in r <==> x in es && x.tag == tag
  {
    if es == [] then []
    else WithTag(es[..|es| - 1], tag) + (if es[|es| - 1].tag == tag then [es[|es| - 1]] else [])
  }

  /** Filtering a concatenation filters each part: the kept elements stay in
      document order, each as many times as it occurs. */
  lemma {:induction false} WithTagAppend(a: seq<Element>, b: seq<Element>, tag: string)
    ensures WithTag(a + b, tag) == WithTag(a, tag) + WithTag(b, tag)
    decreases |b|
  {
    if b == [] {
      assert a + b == a;
    } else {
      var n := |b| - 1;
      assert (a + b)[..|a + b| - 1] == a + b[..n];
      assert (a + b)[|a + b| - 1] == b[n];
      WithTagAppend(a, b[..n], tag);
    }
  }

  /** One element is kept exactly when it has the tag. */
  lemma WithTagSingle(x: Element, tag: string)
    ensures WithTag([x], tag) == if x.tag == tag then [x] else []
  {
    assert [x][..0] == [];
  }

  /** `element.findall(tag)`: the direct children with that tag, in document order. */
  function FindAll(e: Element, tag: string): (r: seq<Element>)
    ensures forall x :: x in r <==> x in e.children && x.tag == tag
  {
    WithTag(e.children, tag)
  }

  /** The first element of `es` with tag `tag`. */
  function FirstWithTag(es: seq<Element>, tag: string): (r: Option<Element>)
    ensures r.Some? <==> exists i :: 0 <= i < |es| && es[i].tag == tag
    ensures r.Some? ==> exists i :: 0 <= i < |es| && es[i] == r.value && r.value.tag == tag &&
                                   forall j :: 0 <= j < i ==> es[j].tag != tag
  {
    if es == [] then None
    else if es[0].tag == tag then Some(es[0])
    else
      var r := FirstWithTag(es[1..], tag);
      assert forall i :: 1 <= i < |es| ==> es[i] == es[1..][i - 1];
      r
  }

  /** `element.find(tag)`: the first direct child with that tag. */
  function Find(e: Element, tag: string): (r: Option<Element>)
    ensures r.Some? <==> exists i :: 0 <= i < |e.children| && e.children[i].tag == tag
    ensures r.Some? ==> r.value in e.children && r.value.tag == tag
  {
    FirstWithTag(e.children, tag)
  }

  /** The elements of the trees `es` in document (pre-)order: each tree's
      root, then its descendants, then the trees after it. */
  function Preorder(es: seq<Element>): seq<Element>
    decreases es
  {
    if es == [] then [] else [es[0]] + (Preorder(es[0].children) + Preorder(es[1..]))
  }

  /** The first element with tag `tag` among the trees `es`, searched in
      document order. It is one of their elements, and there is none exactly
      when no element of the trees has the tag. */
  function FirstInTrees(es: seq<Element>, tag: string): (r: Option<Element>)
    ensures r.Some? ==> r.value in Preorder(es) && r.value.tag == tag
    ensures r.None? <==> forall x :: x in Preorder(es) ==> x.tag != tag
    decreases es
  {
    if es == [] then None
    else if es[0].tag == tag then Some(es[0])
    else match FirstInTrees(es[0].children, tag)
      case Some(d) => Some(d)
      case None => FirstInTrees(es[1..], tag)
  }

  /** The first match in a concatenation is the first match of the front part
      when it has one, else the first match of the back part. */
  lemma {:induction false} FirstWithTagAppend(a: seq<Element>, b: seq<Element>, tag: string)
    ensures FirstWithTag(a + b, tag) == if FirstWithTag(a, tag).Some? then FirstWithTag(a, tag) else FirstWithTag(b, tag)
    decreases |a|
  {
    if a == [] {
      assert a + b == b;
    } else {
      FirstWithTagAppend(a[1..], b, tag);
      assert (a + b)[1..] == a[1..] + b;
    }
  }

  /** The search finds exactly the first element with the tag in document
      order. */
  lemma {:induction false} FirstInTreesIsFirst(es: seq<Element>, tag: string)
    ensures FirstInTrees(es, tag) == FirstWithTag(Preorder(es), tag)
    decreases es
  {
    if es != [] {
      var rest := Preorder(es[0].children) + Preorder(es[1..]);
      assert Preorder(es) == [es[0]] + rest;
      assert ([es[0]] + rest)[1..] == rest;
      if es[0].tag != tag {
        FirstInTreesIsFirst(es[0].children, tag);
        FirstInTreesIsFirst(es[1..], tag);
        FirstWithTagAppend(Preorder(es[0].children), Preorder(es[1..]), tag);
      }
    }
  }

  /** `element.find('.//tag')`: the first proper descendant with that tag, in
      document order; the element itself is not a candidate. */
  function FindDescendant(e: Element, tag: string): (r: Option<Element>)
    ensures r.Some? ==> r.value in Preorder(e.children) && r.value.tag == tag
    ensures r.None? <==> forall x :: x in Preorder(e.children) ==> x.tag != tag
  {
    FirstInTrees(e.children, tag)
  }
}
