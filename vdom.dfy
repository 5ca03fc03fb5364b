/** The element trees the JSX factory builds and the DOM nodes the renderers
    build from them. `createElement` and `createTextElement` are the same in
    both miniature renderers and are defined once here.

    An element's `children` are kept apart from its other props: the factory
    always computes them, so a `children` prop passed in is discarded. A DOM
    node is a value; a renderer returns the container with the new node
    appended, which is exact because a node is attached only after all its
    children have been rendered into it. */
module Vdom {
  import opened Wrappers

  /** A non-object prop or child value: a string, a number, a boolean or a
      function (a listener), the last only by identity. */
  datatype Prim = Str(s: string) | Num(n: int) | Bool(b: bool) | Function(id: nat)

  /** One prop in key order. */
  datatype Prop = Prop(name: string, value: Prim)

  datatype Element = Element(kind: string, props: seq<Prop>, children: seq<Element>)

  /** A child as passed to `createElement`: an object is an element, any
      other value is wrapped in a text element. */
  datatype Child = Object(element: Element) | Primitive(value: Prim)

  const TextElement: string := "TEXT_ELEMENT"
  const Fragment: string := "JSX_FRAG"

  /** `createTextElement(text)`. */
  function CreateTextElement(text: Prim): Element {
    Element(TextElement, [Prop("nodeValue", text)], [])
  }

  function WrapChild(c: Child): Element {
    match c
    case Object(e) => e
    case Primitive(p) => CreateTextElement(p)
  }

  /** `children.map(child => typeof child === "object" ? child :
      createTextElement(child))` */
  function WrapChildren(cs: seq<Child>): seq<Element>
    decreases |cs|
  {
    if cs == [] then [] else [WrapChild(cs[0])] + WrapChildren(cs[1..])
  }

  /** The props without any entry named `children`. */
  function WithoutChildren(props: seq<Prop>): seq<Prop>
    decreases |props|
  {
    if props == [] then []
    else (if props[0].name == "children" then [] else [props[0]]) + WithoutChildren(props[1..])
  }

  /** The value of the last prop named `k`, the one an assignment in key
      order leaves behind; `None` when no prop has that name. */
  function LastValue(props: seq<Prop>, k: string): Option<Prim>
    decreases |props|
  {
    if props == [] then None
    else
      match LastValue(props[1..], k)
      case Some(v) => Some(v)
      case None => if props[0].name == k then Some(props[0].value) else None
  }

  /** `createElement(type, props, ...children)`: the given props with the
      computed `children`, which override any passed in. */
  function CreateElement(kind: string, props: seq<Prop>, children: seq<Child>): Element {
    Element(kind, WithoutChildren(props), WrapChildren(children))
  }

  // ------------------------------------------------------------------ DOM

  datatype NodeKind = TextNode | Tag(name: string)

  datatype Listener = Listener(event: string, handler: Prim)

  /** A DOM node: text or a tag, its properties, its listeners in the order
      they were added, and its child nodes. */
  datatype Dom = Dom(kind: NodeKind, props: map<string, Prim>, listeners: seq<Listener>, children: seq<Dom>)

  /** `createTextNode("")` for a text element, `createElement(type)`
      otherwise. */
  function NewNode(kind: string): Dom {
    Dom(if kind == TextElement then TextNode else Tag(kind), map[], [], [])
  }

  /** `container.appendChild(node)`. */
  function Append(container: Dom, node: Dom): Dom {
    container.(children := container.children + [node])
  }

  /** `dom[name] = value` for every prop in key order, `children` excepted. */
  function CopyProps(node: Dom, props: seq<Prop>): Dom
    decreases |props|
  {
    if props == [] then node
    else
      var p := props[0];
      CopyProps(if p.name == "children" then node else node.(props := node.props[p.name := p.value]), props[1..])
  }

  /** The loop that copies the props. */
  method CopyPropsLoop(node: Dom, props: seq<Prop>) returns (dom: Dom)
    ensures dom == CopyProps(node, props)
  {
    dom := node;
    for i := 0 to |props|
      invariant CopyProps(dom, props[i..]) == CopyProps(node, props)
    {
      assert props[i..][1..] == props[i + 1..];
      if props[i].name != "children" {
        dom := dom.(props := dom.props[props[i].name := props[i].value]);
      }
    }
    assert props[|props|..] == [];
  }

  // --------------------------------------------------------------- lemmas

  /** Object children are kept as they are and in order; each other child
      becomes a text element holding it as `nodeValue`. */
  lemma {:induction false} WrapChildrenShape(cs: seq<Child>)
    ensures |WrapChildren(cs)| == |cs|
    ensures forall i | 0 <= i < |cs| ::
      (cs[i].Object? ==> WrapChildren(cs)[i] == cs[i].element)
      && (cs[i].Primitive? ==> WrapChildren(cs)[i] == Element(TextElement, [Prop("nodeValue", cs[i].value)], []))
    decreases |cs|
  {
    if cs != [] {
      WrapChildrenShape(cs[1..]);
      assert forall i | 1 <= i < |cs| :: WrapChildren(cs)[i] == WrapChildren(cs[1..])[i - 1];
    }
  }

  /** The element's props are the given ones in order, without `children`. */
  lemma {:induction false} WithoutChildrenExact(props: seq<Prop>, p: Prop)
    ensures p in WithoutChildren(props) <==> p in props && p.name != "children"
    decreases |props|
  {
    if props != [] {
      WithoutChildrenExact(props[1..], p);
      assert props == [props[0]] + props[1..];
    }
  }

  /** Whatever `children` prop is passed, the element's children are the
      wrapped arguments and no `children` prop remains. */
  lemma CreateElementChildren(kind: string, props: seq<Prop>, children: seq<Child>, v: Prim)
    ensures CreateElement(kind, props + [Prop("children", v)], children) == CreateElement(kind, props, children)
    ensures forall p | p in CreateElement(kind, props, children).props :: p.name != "children"
  {
    WithoutChildrenAppend(props, [Prop("children", v)]);
    assert WithoutChildren([Prop("children", v)]) == [];
    forall p | p in CreateElement(kind, props, children).props ensures p.name != "children" {
      WithoutChildrenExact(props, p);
    }
  }

  lemma {:induction false} WithoutChildrenAppend(a: seq<Prop>, b: seq<Prop>)
    ensures WithoutChildren(a + b) == WithoutChildren(a) + WithoutChildren(b)
    decreases |a|
  {
    if a != [] {
      assert (a + b)[0] == a[0] && (a + b)[1..] == a[1..] + b;
      WithoutChildrenAppend(a[1..], b);
    } else {
      assert a + b == b;
    }
  }

  /** Copying the props sets exactly the non-`children` prop names, each to
      the value of the last prop of that name, and touches nothing but the
      property map. */
  lemma {:induction false} CopyPropsExact(node: Dom, props: seq<Prop>, k: string)
    ensures CopyProps(node, props).kind == node.kind
    ensures CopyProps(node, props).listeners == node.listeners
    ensures CopyProps(node, props).children == node.children
    ensures k in CopyProps(node, props).props <==> k in node.props || (k != "children" && exists p | p in props :: p.name == k)
    ensures k !in node.props && k == "children" ==> k !in CopyProps(node, props).props
    ensures k != "children" && LastValue(props, k).Some? ==>
      k in CopyProps(node, props).props && CopyProps(node, props).props[k] == LastValue(props, k).value
    ensures LastValue(props, k).None? && k in node.props ==>
      k in CopyProps(node, props).props && CopyProps(node, props).props[k] == node.props[k]
    decreases |props|
  {
    if props != [] {
      var p := props[0];
      var next := if p.name == "children" then node else node.(props := node.props[p.name := p.value]);
      CopyPropsExact(next, props[1..], k);
      if q :| q in props && q.name == k && k != "children" {
        if q != p {
          assert q in props[1..];
        }
      }
    }
  }
}
