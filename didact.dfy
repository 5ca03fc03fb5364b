/** The smaller renderer: `render` creates a text node or an element, copies
    every prop but `children` as a property (there are no listeners and no
    fragments), renders the children into it in order and appends it to the
    container. */
module Didact {
  import opened Vdom

  /** The node `render` builds for an element, before it is appended. */
  function NodeOf(el: Element): Dom
    decreases el
  {
    RenderChildren(el.children, CopyProps(NewNode(el.kind), el.props))
  }

  /** Each child rendered into `dom` in order. */
  function RenderChildren(els: seq<Element>, dom: Dom): Dom
    decreases els
  {
    if els == [] then dom else RenderChildren(els[1..], Append(dom, NodeOf(els[0])))
  }

  /** `render(element, container)`: the container after the call. */
  function Render(el: Element, container: Dom): Dom {
    Append(container, NodeOf(el))
  }

  /** `render`, with its two `forEach` loops. */
  method RenderNode(el: Element, container: Dom) returns (r: Dom)
    ensures r == Render(el, container)
    decreases el
  {
    var dom := CopyPropsLoop(NewNode(el.kind), el.props);
    ghost var start := dom;
    for i := 0 to |el.children|
      invariant RenderChildren(el.children[i..], dom) == RenderChildren(el.children, start)
    {
      assert el.children[i..][0] == el.children[i] && el.children[i..][1..] == el.children[i + 1..];
      dom := RenderNode(el.children[i], dom);
    }
    assert el.children[|el.children|..] == [];
    r := Append(container, dom);
  }

  // --------------------------------------------------------------- lemmas

  /** Rendering the children appends one node per child, in order, and
      changes nothing else of the node. */
  lemma {:induction false} RenderChildrenAppends(els: seq<Element>, dom: Dom)
    ensures var r := RenderChildren(els, dom);
      && |r.children| == |dom.children| + |els|
      && r.children[..|dom.children|] == dom.children
      && (forall i | 0 <= i < |els| :: r.children[|dom.children| + i] == NodeOf(els[i]))
      && r.kind == dom.kind && r.props == dom.props && r.listeners == dom.listeners
    decreases els
  {
    if els != [] {
      var next := Append(dom, NodeOf(els[0]));
      RenderChildrenAppends(els[1..], next);
      var r := RenderChildren(els, dom);
      assert r.children[..|next.children|] == next.children;
      assert r.children[..|dom.children|] == next.children[..|dom.children|];
      forall i | 0 <= i < |els| ensures r.children[|dom.children| + i] == NodeOf(els[i]) {
        if i == 0 {
          assert r.children[|dom.children|] == next.children[|dom.children|];
        } else {
          assert r.children[|dom.children| + i] == r.children[|next.children| + (i - 1)];
        }
      }
    }
  }

  /** The element is appended exactly once, after the container's existing
      children, with one child node per child element. */
  lemma RenderAppendsOnce(el: Element, container: Dom)
    ensures var r := Render(el, container);
      && |r.children| == |container.children| + 1
      && r.children[..|container.children|] == container.children
      && r.children[|container.children|] == NodeOf(el)
      && |NodeOf(el).children| == |el.children|
  {
    var start := CopyProps(NewNode(el.kind), el.props);
    CopyPropsExact(NewNode(el.kind), el.props, "");
    RenderChildrenAppends(el.children, start);
    var r := Render(el, container);
    assert r.children[..|container.children|] == container.children;
  }

  /** A text element becomes a text node and any other kind, a fragment
      included, an element of that tag; no listener is ever added, so an
      `on…` prop is a plain property; the properties are exactly the named
      props, each holding the value of the last prop of its name. */
  lemma NodeKindAndListeners(el: Element)
    ensures NodeOf(el).kind == if el.kind == TextElement then TextNode else Tag(el.kind)
    ensures NodeOf(el).listeners == []
    ensures forall k | k != "children" && (exists p | p in el.props :: p.name == k) :: k in NodeOf(el).props
    ensures "children" !in NodeOf(el).props
    ensures forall k | k in NodeOf(el).props :: exists p | p in el.props :: p.name == k
    ensures forall k | k != "children" && LastValue(el.props, k).Some? :: k in NodeOf(el).props && NodeOf(el).props[k] == LastValue(el.props, k).value
  {
    var start := CopyProps(NewNode(el.kind), el.props);
    CopyPropsExact(NewNode(el.kind), el.props, "");
    RenderChildrenAppends(el.children, start);
    forall k | k != "children" && (exists p | p in el.props :: p.name == k) ensures k in NodeOf(el).props {
      CopyPropsExact(NewNode(el.kind), el.props, k);
    }
    forall k | k != "children" && LastValue(el.props, k).Some?
      ensures k in NodeOf(el).props && NodeOf(el).props[k] == LastValue(el.props, k).value
    {
      CopyPropsExact(NewNode(el.kind), el.props, k);
    }
    forall k | k in NodeOf(el).props ensures exists p | p in el.props :: p.name == k {
      CopyPropsExact(NewNode(el.kind), el.props, k);
    }
    CopyPropsExact(NewNode(el.kind), el.props, "children");
  }
}
