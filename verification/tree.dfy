/** The element tree behind a memento, with the DOM abstracted away.

    A document is represented by its document element. Every node below it is
    either an element (name, string attributes, ordered children) or some other
    kind of node (text, comment, CDATA section, processing instruction), which
    memento navigation never returns. A position in the tree is a path of child
    indices, counted over ALL child nodes, elements or not, as the DOM's
    `getChildNodes()` list counts them. */
module Tree {
  import opened Options

  datatype Node =
    | Element(name: string, attrs: map<string, string>, children: seq<Node>)
    | Other(data: string)

  /** Child indices from the document element; `[]` is the document element. */
  type Path = seq<nat>

  /** The element `e` with no attributes and no children that `createElement` makes. */
  function EmptyElement(name: string): Node {
    Element(name, map[], [])
  }

  /** True iff `n` is an element whose tag name is `t`. */
  predicate Named(n: Node, t: string) {
    n.Element? && n.name == t
  }

  /** The node reached by following `p` from `n`, if every step exists. */
  function At(n: Node, p: Path): Option<Node>
    decreases |p|
  {
    if |p| == 0 then Some(n)
    else if n.Element? && p[0] < |n.children| then At(n.children[p[0]], p[1..])
    else None
  }

  /** True iff `p` leads from `doc` to an element, i.e. can be wrapped by a memento. */
  predicate IsView(doc: Node, p: Path) {
    At(doc, p).Some? && At(doc, p).value.Element?
  }

  /** True iff `q` is an ancestor-or-self position of `p`. */
  predicate IsPrefix(q: Path, p: Path) {
    |q| <= |p| && p[..|q|] == q
  }

  /** True iff `a` and `b` agree on everything except the contents of their
      children: kind, name, attributes and number of children. */
  predicate SameShell(a: Node, b: Node) {
    match a
    case Other(d) => b == Other(d)
    case Element(name, attrs, cs) =>
      b.Element? && b.name == name && b.attrs == attrs && |b.children| == |cs|
  }

  /** `n` with the node at `p` replaced by `m`. */
  function Replace(n: Node, p: Path, m: Node): (r: Node)
    requires At(n, p).Some?
    ensures At(r, p) == Some(m)
    ensures |p| > 0 ==> SameShell(n, r)
    decreases |p|
  {
    if |p| == 0 then m
    else n.(children := n.children[p[0] := Replace(n.children[p[0]], p[1..], m)])
  }

  /** Following `p` then `s` is following `p + s`. */
  lemma {:induction false} AtConcat(n: Node, p: Path, s: Path)
    ensures At(n, p + s) == (if At(n, p).Some? then At(At(n, p).value, s) else None)
    decreases |p|
  {
    if |p| == 0 {
      assert p + s == s;
    } else {
      assert (p + s)[0] == p[0];
      assert (p + s)[1..] == p[1..] + s;
      if n.Element? && p[0] < |n.children| {
        AtConcat(n.children[p[0]], p[1..], s);
      }
    }
  }

  /** The node at `p + [i]` is child `i` of the element at `p`. */
  lemma AtChild(n: Node, p: Path, i: nat)
    ensures At(n, p + [i]) ==
      (if IsView(n, p) && i < |At(n, p).value.children|
       then Some(At(n, p).value.children[i]) else None)
  {
    AtConcat(n, p, [i]);
  }

  /** A position neither above nor below the replaced one sees the old node. */
  lemma {:induction false} ReplaceAside(n: Node, p: Path, m: Node, q: Path)
    requires At(n, p).Some?
    requires !IsPrefix(q, p) && !IsPrefix(p, q)
    ensures At(Replace(n, p, m), q) == At(n, q)
    decreases |p|
  {
    assert |p| > 0 && |q| > 0;
    var r := Replace(n, p, m);
    if q[0] == p[0] {
      ReplaceAside(n.children[p[0]], p[1..], m, q[1..]);
    }
  }

  /** A position at or below the replaced one sees the replacement. */
  lemma {:induction false} ReplaceBelow(n: Node, p: Path, m: Node, q: Path)
    requires At(n, p).Some?
    requires IsPrefix(p, q)
    ensures At(Replace(n, p, m), q) == At(m, q[|p|..])
    decreases |p|
  {
    if |p| > 0 {
      assert q[0] == p[0];
      assert IsPrefix(p[1..], q[1..]);
      ReplaceBelow(n.children[p[0]], p[1..], m, q[1..]);
      assert q[1..][|p| - 1..] == q[|p|..];
    }
  }

  /** A position strictly above the replaced one keeps its shell. */
  lemma {:induction false} ReplaceAbove(n: Node, p: Path, m: Node, q: Path)
    requires At(n, p).Some?
    requires IsPrefix(q, p) && |q| < |p|
    ensures At(n, q).Some? && At(Replace(n, p, m), q).Some?
    ensures SameShell(At(n, q).value, At(Replace(n, p, m), q).value)
    decreases |q|
  {
    if |q| > 0 {
      assert q[0] == p[0];
      assert IsPrefix(q[1..], p[1..]);
      ReplaceAbove(n.children[p[0]], p[1..], m, q[1..]);
    }
  }
}
