/** `XMLMemento`: a view onto one element of a document, with navigation,
    child creation and typed attribute reads.

    The Java object holds the shared `Document` and one `Element`; here the
    document is passed explicitly and the element is named by its path, so two
    mementos alias the same element exactly when their paths are equal. Creating
    operations return the document after the change along with the new view. */
module Memento {
  import opened Options
  import opened Tree
  import Ascii
  import BooleanText
  import Decimal
  import Guid

  /** The document after a creating call, and the view the call returned. */
  datatype Created = Created(doc: Node, view: Path)

  /** The child node list of the element a view wraps, non-elements included. */
  function Kids(doc: Node, p: Path): seq<Node>
    requires IsView(doc, p)
  {
    At(doc, p).value.children
  }

  /** The index of the first element named `t` at or after position `i`. */
  function FirstNamedFrom(cs: seq<Node>, t: string, i: nat): (r: Option<nat>)
    requires i <= |cs|
    ensures r.Some? ==> i <= r.value < |cs| && Named(cs[r.value], t)
    ensures r.Some? ==> forall j :: i <= j < r.value ==> !Named(cs[j], t)
    ensures r.None? ==> forall j :: i <= j < |cs| ==> !Named(cs[j], t)
    decreases |cs| - i
  {
    if i == |cs| then None
    else if Named(cs[i], t) then Some(i)
    else FirstNamedFrom(cs, t, i + 1)
  }

  /** The indices of all elements named `t` at or after position `i`. */
  function AllNamedFrom(cs: seq<Node>, t: string, i: nat): (r: seq<nat>)
    requires i <= |cs|
    ensures forall k :: 0 <= k < |r| ==> i <= r[k] < |cs| && Named(cs[r[k]], t)
    ensures forall k, l :: 0 <= k < l < |r| ==> r[k] < r[l]
    ensures forall j :: i <= j < |cs| && Named(cs[j], t) ==> j in r
    decreases |cs| - i
  {
    if i == |cs| then []
    else if Named(cs[i], t) then [i] + AllNamedFrom(cs, t, i + 1)
    else AllNamedFrom(cs, t, i + 1)
  }

  /** `createWriteRoot(type)`: a new document whose only element is `type`. */
  function CreateWriteRoot(t: string): (r: Created)
    ensures r.doc == EmptyElement(t) && IsView(r.doc, r.view)
    ensures At(r.doc, r.view) == Some(EmptyElement(t))
    ensures GetParent(r.doc, r.view).None?
  {
    Created(EmptyElement(t), [])
  }

  /** `getParent()`: the view of the enclosing element, or `None` at the
      document element, whose parent is the document node and not an element. */
  function GetParent(doc: Node, p: Path): (r: Option<Path>)
    requires IsView(doc, p)
    ensures r.None? <==> |p| == 0
    ensures r.Some? ==> IsView(doc, r.value) && |p| == |r.value| + 1
    ensures r.Some? ==> p == r.value + [p[|p| - 1]]
    ensures r.Some? ==> p[|p| - 1] < |Kids(doc, r.value)| && Kids(doc, r.value)[p[|p| - 1]] == At(doc, p).value
  {
    if |p| == 0 then None
    else
      var q := p[..|p| - 1];
      assert p == q + [p[|p| - 1]];
      AtChild(doc, q, p[|p| - 1]);
      Some(q)
  }

  /** `getChild(type)`: the first ELEMENT child named `type`, in document order,
      skipping text and other non-element children; `None` when there is none,
      in particular when there are no child nodes at all. */
  function GetChild(doc: Node, p: Path, t: string): (r: Option<Path>)
    requires IsView(doc, p)
    ensures r.None? <==> forall j :: 0 <= j < |Kids(doc, p)| ==> !Named(Kids(doc, p)[j], t)
    ensures r.Some? ==> |r.value| == |p| + 1 && r.value == p + [r.value[|p|]]
    ensures r.Some? ==> IsView(doc, r.value) && Named(At(doc, r.value).value, t)
    ensures r.Some? ==> var i := r.value[|p|];
      i < |Kids(doc, p)| && Named(Kids(doc, p)[i], t) &&
      forall j :: 0 <= j < i ==> !Named(Kids(doc, p)[j], t)
  {
    match FirstNamedFrom(Kids(doc, p), t, 0)
    case None => None
    case Some(i) =>
      AtChild(doc, p, i);
      Some(p + [i])
  }

  /** The views `p + [i]` for each index `i` of `idx`, in order. */
  function ChildPaths(p: Path, idx: seq<nat>): (r: seq<Path>)
    ensures |r| == |idx|
    ensures forall k :: 0 <= k < |r| ==> r[k] == p + [idx[k]]
  {
    seq(|idx|, k requires 0 <= k < |idx| => p + [idx[k]])
  }

  /** The views built from the matching indices are views of matching children,
      and every matching child is among them. */
  lemma ChildPathsOfMatches(doc: Node, p: Path, t: string)
    requires IsView(doc, p)
    ensures var r := ChildPaths(p, AllNamedFrom(Kids(doc, p), t, 0));
      && (forall k :: 0 <= k < |r| ==> IsView(doc, r[k]))
      && (forall j :: 0 <= j < |Kids(doc, p)| && Named(Kids(doc, p)[j], t) ==> p + [j] in r)
  {
    var idx := AllNamedFrom(Kids(doc, p), t, 0);
    var r := ChildPaths(p, idx);
    forall k | 0 <= k < |r| ensures IsView(doc, r[k]) {
      AtChild(doc, p, idx[k]);
    }
    forall j | 0 <= j < |Kids(doc, p)| && Named(Kids(doc, p)[j], t)
      ensures p + [j] in r
    {
      var k :| 0 <= k < |idx| && idx[k] == j;
      assert r[k] == p + [j];
    }
  }

  /** `getChildren(type)`: views of all element children named `type`, in
      document order; empty (never absent) when none match. */
  function GetChildren(doc: Node, p: Path, t: string): (r: seq<Path>)
    requires IsView(doc, p)
    ensures forall k :: 0 <= k < |r| ==> |r[k]| == |p| + 1 && r[k] == p + [r[k][|p|]]
    ensures forall k :: 0 <= k < |r| ==>
      r[k][|p|] < |Kids(doc, p)| && Named(Kids(doc, p)[r[k][|p|]], t) && IsView(doc, r[k])
    ensures forall k, l :: 0 <= k < l < |r| ==> r[k][|p|] < r[l][|p|]
    ensures forall j :: 0 <= j < |Kids(doc, p)| && Named(Kids(doc, p)[j], t) ==> p + [j] in r
  {
    var idx := AllNamedFrom(Kids(doc, p), t, 0);
    ChildPathsOfMatches(doc, p, t);
    var r := ChildPaths(p, idx);
    assert forall k :: 0 <= k < |r| ==> r[k][|p|] == idx[k];
    r
  }

  /** The first match is the head of the list of all matches. */
  lemma {:induction false} FirstNamedIsHeadOfAll(cs: seq<Node>, t: string)
    ensures FirstNamedFrom(cs, t, 0) ==
      (if |AllNamedFrom(cs, t, 0)| == 0 then None else Some(AllNamedFrom(cs, t, 0)[0]))
  {
    var all := AllNamedFrom(cs, t, 0);
    match FirstNamedFrom(cs, t, 0)
    case None =>
    case Some(f) =>
      assert f in all;
  }

  /** `getChild(type)` is present exactly when `getChildren(type)` is non-empty,
      and is then its first entry. */
  lemma GetChildIsFirstOfChildren(doc: Node, p: Path, t: string)
    requires IsView(doc, p)
    ensures GetChild(doc, p, t).Some? <==> |GetChildren(doc, p, t)| > 0
    ensures GetChild(doc, p, t).Some? ==> GetChild(doc, p, t).value == GetChildren(doc, p, t)[0]
  {
    FirstNamedIsHeadOfAll(Kids(doc, p), t);
  }

  /** The element at `p` with `c` appended to its children. */
  function AppendAt(doc: Node, p: Path, c: Node): (r: Node)
    requires IsView(doc, p)
  {
    var e := At(doc, p).value;
    Replace(doc, p, e.(children := e.children + [c]))
  }

  /** Appending below `p` leaves every position that is not an ancestor-or-self
      of `p` untouched and keeps the shell of every strict ancestor. */
  lemma AppendAtFrame(doc: Node, p: Path, c: Node, q: Path)
    requires IsView(doc, p)
    ensures At(doc, q).Some? && !IsPrefix(q, p) ==> At(AppendAt(doc, p, c), q) == At(doc, q)
    ensures IsPrefix(q, p) && |q| < |p| ==>
      At(doc, q).Some? && At(AppendAt(doc, p, c), q).Some? &&
      SameShell(At(doc, q).value, At(AppendAt(doc, p, c), q).value)
  {
    var e := At(doc, p).value;
    var m := e.(children := e.children + [c]);
    if IsPrefix(q, p) {
      if |q| < |p| {
        ReplaceAbove(doc, p, m, q);
      }
    } else if IsPrefix(p, q) {
      if At(doc, q).Some? {
        ReplaceBelow(doc, p, m, q);
        var s := q[|p|..];
        assert q == p + s;
        AtConcat(doc, p, s);
        assert |s| > 0;
        assert At(m, s) == At(e, s);
      }
    } else {
      ReplaceAside(doc, p, m, q);
    }
  }

  /** `createChild(type)`: appends a new element `type`, with no attributes and
      no children, as the receiver's LAST child and returns its view. The
      receiver keeps its name, attributes and earlier children; every position
      that is not the receiver or one of its ancestors is unchanged; ancestors
      keep their name, attributes and child count; every existing view stays a
      view; and the new view's parent is the receiver. */
  function CreateChild(doc: Node, p: Path, t: string): (r: Created)
    requires IsView(doc, p)
    ensures IsView(r.doc, p)
    ensures Kids(r.doc, p) == Kids(doc, p) + [EmptyElement(t)]
    ensures At(r.doc, p).value.name == At(doc, p).value.name
    ensures At(r.doc, p).value.attrs == At(doc, p).value.attrs
    ensures r.view == p + [|Kids(doc, p)|]
    ensures IsView(r.doc, r.view) && At(r.doc, r.view) == Some(EmptyElement(t))
    ensures GetParent(r.doc, r.view) == Some(p)
    ensures forall q :: At(doc, q).Some? && !IsPrefix(q, p) ==> At(r.doc, q) == At(doc, q)
    ensures forall q :: IsPrefix(q, p) && |q| < |p| ==>
      At(doc, q).Some? && At(r.doc, q).Some? && SameShell(At(doc, q).value, At(r.doc, q).value)
    ensures forall q :: IsView(doc, q) ==> IsView(r.doc, q)
  {
    var e := At(doc, p).value;
    var m := e.(children := e.children + [EmptyElement(t)]);
    var d := AppendAt(doc, p, EmptyElement(t));
    var v := p + [|e.children|];
    AtChild(d, p, |e.children|);
    assert v[..|v| - 1] == p;
    assert forall q :: IsView(doc, q) ==> IsView(d, q) by {
      forall q | IsView(doc, q) ensures IsView(d, q) {
        AppendAtFrame(doc, p, EmptyElement(t), q);
        if IsPrefix(q, p) && |q| == |p| {
          assert q == p;
        }
      }
    }
    assert forall q :: At(doc, q).Some? && !IsPrefix(q, p) ==> At(d, q) == At(doc, q) by {
      forall q | At(doc, q).Some? && !IsPrefix(q, p) ensures At(d, q) == At(doc, q) {
        AppendAtFrame(doc, p, EmptyElement(t), q);
      }
    }
    assert forall q :: IsPrefix(q, p) && |q| < |p| ==>
      At(doc, q).Some? && At(d, q).Some? && SameShell(At(doc, q).value, At(d, q).value) by {
      forall q | IsPrefix(q, p) && |q| < |p|
        ensures At(doc, q).Some? && At(d, q).Some? && SameShell(At(doc, q).value, At(d, q).value)
      {
        AppendAtFrame(doc, p, EmptyElement(t), q);
      }
    }
    Created(d, v)
  }

  /** `createChildSmart(type)`: the existing first child named `type`, leaving the
      document alone, or else exactly what `createChild(type)` does. Either way the
      returned view is the receiver's child that `getChild(type)` now finds. */
  function CreateChildSmart(doc: Node, p: Path, t: string): (r: Created)
    requires IsView(doc, p)
    ensures IsView(r.doc, p) && IsView(r.doc, r.view) && Named(At(r.doc, r.view).value, t)
    ensures GetParent(r.doc, r.view) == Some(p)
    ensures GetChild(r.doc, p, t) == Some(r.view)
    ensures GetChild(doc, p, t).Some? ==> r.doc == doc
    ensures GetChild(doc, p, t).None? ==> r == CreateChild(doc, p, t)
  {
    match GetChild(doc, p, t)
    case Some(c) =>
      assert c[..|c| - 1] == p;
      Created(doc, c)
    case None =>
      var r := CreateChild(doc, p, t);
      var n := |Kids(doc, p)|;
      assert Named(Kids(r.doc, p)[n], t);
      assert forall j :: 0 <= j < n ==> Kids(r.doc, p)[j] == Kids(doc, p)[j];
      r
  }

  /** Calling `createChildSmart(type)` a second time changes nothing and returns
      the same view, so the pair adds at most one child. */
  lemma CreateChildSmartIdempotent(doc: Node, p: Path, t: string)
    requires IsView(doc, p)
    ensures var r := CreateChildSmart(doc, p, t);
      CreateChildSmart(r.doc, p, t) == r && |Kids(r.doc, p)| <= |Kids(doc, p)| + 1
  {
  }

  /** The element indices named `t` in `cs + [c]` are those of `cs`, plus the
      new last position when `c` is itself named `t`. */
  lemma {:induction false} AllNamedFromSnoc(cs: seq<Node>, c: Node, t: string, i: nat)
    requires i <= |cs|
    ensures AllNamedFrom(cs + [c], t, i) ==
      AllNamedFrom(cs, t, i) + (if Named(c, t) then [|cs|] else [])
    decreases |cs| - i
  {
    if i < |cs| {
      assert (cs + [c])[i] == cs[i];
      AllNamedFromSnoc(cs, c, t, i + 1);
    } else {
      assert (cs + [c])[i] == c;
    }
  }

  /** After `createChild(type)`, `getChildren(u)` lists the same views as before,
      followed by the new view when `u` is `type`. */
  lemma CreateChildAppendsToChildren(doc: Node, p: Path, t: string, u: string)
    requires IsView(doc, p)
    ensures var r := CreateChild(doc, p, t);
      GetChildren(r.doc, p, u) == GetChildren(doc, p, u) + (if u == t then [r.view] else [])
  {
    var r := CreateChild(doc, p, t);
    AllNamedFromSnoc(Kids(doc, p), EmptyElement(t), u, 0);
  }

  /** `getString(key)`: the attribute's text when the key is set, else `None`. */
  function GetString(doc: Node, p: Path, k: string): (r: Option<string>)
    requires IsView(doc, p)
    ensures r.Some? <==> k in At(doc, p).value.attrs
    ensures r.Some? ==> r.value == At(doc, p).value.attrs[k]
  {
    var attrs := At(doc, p).value.attrs;
    if k in attrs then Some(attrs[k]) else None
  }

  /** `getBoolean(key)`: absent only when the key is unset; otherwise true
      exactly for "true" in any letter case. */
  function GetBoolean(doc: Node, p: Path, k: string): (r: Option<bool>)
    requires IsView(doc, p)
    ensures r.Some? <==> GetString(doc, p, k).Some?
    ensures r.Some? ==> (r.value <==> Ascii.ToLower(GetString(doc, p, k).value) == "true")
  {
    match GetString(doc, p, k)
    case None => None
    case Some(s) => Some(BooleanText.ParseBoolean(s))
  }

  /** `getInteger(key)`: present exactly when the key is set and its text is an
      optionally signed decimal numeral whose value fits in 32 bits. */
  function GetInteger(doc: Node, p: Path, k: string): (r: Option<int>)
    requires IsView(doc, p)
    ensures r.Some? <==> (
      && GetString(doc, p, k).Some?
      && Decimal.IsNumeral(GetString(doc, p, k).value)
      && Decimal.MinInt <= Decimal.NumeralValue(GetString(doc, p, k).value) <= Decimal.MaxInt)
    ensures r.Some? ==> r.value == Decimal.NumeralValue(GetString(doc, p, k).value)
  {
    match GetString(doc, p, k)
    case None => None
    case Some(s) => Decimal.ParseInt(s)
  }

  /** `getGUID(key)`: present exactly when the key is set and its text, less one
      pair of surrounding braces, is a UUID text; the result's canonical text is
      that text in lower case. */
  function GetGuid(doc: Node, p: Path, k: string): (r: Option<Guid.Uuid>)
    requires IsView(doc, p)
    ensures r.Some? <==> (
      && GetString(doc, p, k).Some?
      && Guid.IsUuidText(Guid.StripBraces(GetString(doc, p, k).value)))
    ensures r.Some? ==> (
      && Guid.Valid(r.value)
      && Guid.FormatUuid(r.value) == Ascii.ToLower(Guid.StripBraces(GetString(doc, p, k).value)))
  {
    match GetString(doc, p, k)
    case None => None
    case Some(s) => Guid.DecodeGuid(s)
  }

  /** A document element "config" with version="2", a whitespace text node and
      one child "user" with name="ada" and count="abc": navigation skips the
      text node, and a non-numeric attribute reads as absent, not as an error. */
  lemma ConfigScenario()
    ensures var doc := Element("config", map["version" := "2"],
                               [Other(" "), Element("user", map["name" := "ada", "count" := "abc"], [])]);
      && GetString(doc, [], "version") == Some("2")
      && GetChild(doc, [], "user") == Some([1])
      && GetChildren(doc, [], "user") == [[1]]
      && GetString(doc, [1], "name") == Some("ada")
      && GetInteger(doc, [1], "count") == None
      && GetInteger(doc, [], "version") == Some(2)
      && GetChild(doc, [1], "user") == None
      && GetParent(doc, [1]) == Some([])
      && GetParent(doc, []) == None
  {
    var doc := Element("config", map["version" := "2"],
                       [Other(" "), Element("user", map["name" := "ada", "count" := "abc"], [])]);
    assert !Named(Kids(doc, [])[0], "user");
    assert Named(Kids(doc, [])[1], "user");
    var c := GetChild(doc, [], "user");
    assert c.Some? && c.value == [c.value[0]] && c.value[0] == 1;
    GetChildIsFirstOfChildren(doc, [], "user");
    assert !Decimal.IsDigit('a');
    assert Decimal.Magnitude("2") == "2";
  }
}
