/** The JSX runtime injected into bundled components: `render`, which
    flattens fragments and turns `on…` props into event listeners, and
    `renderToString`, which copies every prop as a property and serialises
    the node when it has no container. Serialisation (`outerHTML`) is a
    parameter. */
module JsxSub {
  import opened Wrappers
  import opened Paths
  import opened Vdom

  function Lower(c: char): char {
    if 'A' <= c <= 'Z' then (c as int + 32) as char else c
  }

  function Upper(c: char): char {
    if 'a' <= c <= 'z' then (c as int - 32) as char else c
  }

  /** The event of a prop `on…`: the name without `on`, its next character
      lower-cased. A prop named exactly `on` has no such character, and
      `name[2].toLowerCase()` throws. */
  function EventName(name: string): (r: Option<string>)
    requires StartsWith(name, "on")
  {
    if |name| < 3 then None else Some([Lower(name[2])] + name[3..])
  }

  /** Props assigned by `render` in key order: `children` is skipped, an
      `on…` prop adds a listener, any other becomes a property. `None` when
      it throws: on a prop named `on`, or on an `on…` prop whose value is not
      a function, which `addEventListener` refuses with a `TypeError`. */
  function JsxProps(node: Dom, props: seq<Prop>): Option<Dom>
    decreases |props|
  {
    if props == [] then Some(node)
    else
      var p := props[0];
      if p.name == "children" then JsxProps(node, props[1..])
      else if StartsWith(p.name, "on") then
        match EventName(p.name)
        case None => None
        case Some(ev) =>
          if !p.value.Function? then None
          else JsxProps(node.(listeners := node.listeners + [Listener(ev, p.value)]), props[1..])
      else JsxProps(node.(props := node.props[p.name := p.value]), props[1..])
  }

  /** `render(element, container)`: the container after rendering, `None`
      when it throws. */
  function Render(el: Element, container: Dom): Option<Dom>
    decreases el
  {
    if el.kind == Fragment then RenderAll(el.children, container)
    else
      match JsxProps(NewNode(el.kind), el.props)
      case None => None
      case Some(dom) =>
        match RenderAll(el.children, dom)
        case None => None
        case Some(d) => Some(Append(container, d))
  }

  /** The children rendered in order into the same container. */
  function RenderAll(els: seq<Element>, container: Dom): Option<Dom>
    decreases els
  {
    if els == [] then Some(container)
    else
      match Render(els[0], container)
      case None => None
      case Some(c) => RenderAll(els[1..], c)
  }

  /** `render`: a fragment renders its children into the container; any
      other element becomes a node whose props are assigned, whose children
      are rendered into it, and which is then appended. */
  method RenderNode(el: Element, container: Dom) returns (r: Option<Dom>)
    ensures r == Render(el, container)
    decreases el, 1
  {
    if el.kind == Fragment {
      r := RenderEach(el.children, container);
      return;
    }
    var dom := NewNode(el.kind);
    for i := 0 to |el.props|
      invariant JsxProps(dom, el.props[i..]) == JsxProps(NewNode(el.kind), el.props)
    {
      var p := el.props[i];
      assert el.props[i..][0] == p && el.props[i..][1..] == el.props[i + 1..];
      if p.name != "children" {
        if StartsWith(p.name, "on") {
          var eventName := EventName(p.name);
          if eventName.None? || !p.value.Function? {
            return None;
          }
          dom := dom.(listeners := dom.listeners + [Listener(eventName.value, p.value)]);
        } else {
          dom := dom.(props := dom.props[p.name := p.value]);
        }
      }
    }
    assert el.props[|el.props|..] == [];
    r := RenderEach(el.children, dom);
    if r.Some? {
      r := Some(Append(container, r.value));
    }
  }

  /** `children.forEach(child => render(child, container))`. */
  method RenderEach(els: seq<Element>, container: Dom) returns (r: Option<Dom>)
    ensures r == RenderAll(els, container)
    decreases els, 0
  {
    var c := container;
    for i := 0 to |els|
      invariant RenderAll(els[i..], c) == RenderAll(els, container)
    {
      assert els[i..][0] == els[i] && els[i..][1..] == els[i + 1..];
      var next := RenderNode(els[i], c);
      if next.None? {
        return None;
      }
      c := next.value;
    }
    assert els[|els|..] == [];
    return Some(c);
  }

  // ------------------------------------------------------ renderToString

  /** The node `renderToString` builds for an element: props copied as
      properties (no listeners), children rendered into it. A fragment
      builds none. */
  function StringNode(el: Element): Option<Dom>
    decreases el
  {
    if el.kind == Fragment then None
    else Some(StringChildren(el.children, CopyProps(NewNode(el.kind), el.props)))
  }

  /** The children rendered into `dom` in order. A fragment child renders
      its own children with no container, so they are lost. */
  function StringChildren(els: seq<Element>, dom: Dom): Dom
    decreases els
  {
    if els == [] then dom
    else
      match StringNode(els[0])
      case None => StringChildren(els[1..], dom)
      case Some(n) => StringChildren(els[1..], Append(dom, n))
  }

  /** What `renderToString(element, container)` returns and the container
      after it; `None` stands for `undefined`. */
  datatype StringResult = StringResult(html: Option<string>, container: Option<Dom>)

  function RenderToString(el: Element, container: Option<Dom>, outerHTML: Dom -> string): StringResult {
    match StringNode(el)
    case None => StringResult(None, container)
    case Some(dom) =>
      if container.None? then StringResult(if dom.kind == TextNode then None else Some(outerHTML(dom)), None)
      else StringResult(None, Some(Append(container.value, dom)))
  }

  /** `renderToString`, with its `forEach` loops. */
  method RenderToStringNode(el: Element, container: Option<Dom>, outerHTML: Dom -> string)
    returns (html: Option<string>, out: Option<Dom>)
    ensures StringResult(html, out) == RenderToString(el, container, outerHTML)
    decreases el
  {
    if el.kind == Fragment {
      for i := 0 to |el.children| {
        var _, _ := RenderToStringNode(el.children[i], None, outerHTML);
      }
      return None, container;
    }
    var dom := CopyPropsLoop(NewNode(el.kind), el.props);
    ghost var start := dom;
    for i := 0 to |el.children|
      invariant StringChildren(el.children[i..], dom) == StringChildren(el.children, start)
    {
      assert el.children[i..][0] == el.children[i] && el.children[i..][1..] == el.children[i + 1..];
      var _, next := RenderToStringNode(el.children[i], Some(dom), outerHTML);
      dom := next.value;
    }
    assert el.children[|el.children|..] == [];
    if container.None? {
      html := if dom.kind == TextNode then None else Some(outerHTML(dom));
      return html, None;
    }
    return None, Some(Append(container.value, dom));
  }

  // --------------------------------------------------------------- lemmas

  lemma EventNameOnClick()
    ensures EventName("onClick") == Some("click")
  {
    assert StartsWith("onClick", "on");
    assert "onClick"[3..] == "lick";
    assert Lower('C') == 'c';
    assert ['c'] + "lick" == "click";
  }

  /** The event name undoes the `on` + capitalised event naming of props. */
  lemma EventNameInverse(ev: string)
    requires ev != [] && 'a' <= ev[0] <= 'z'
    ensures StartsWith("on" + [Upper(ev[0])] + ev[1..], "on")
    ensures EventName("on" + [Upper(ev[0])] + ev[1..]) == Some(ev)
  {
    var name := "on" + [Upper(ev[0])] + ev[1..];
    assert name[..2] == "on";
    assert name[2] == Upper(ev[0]);
    assert name[3..] == ev[1..];
    assert [ev[0]] + ev[1..] == ev;
  }

  /** The nodes an element adds to its container: a fragment adds the nodes
      of its children, any other element exactly one node. */
  function Contribution(el: Element): Option<seq<Dom>>
    decreases el
  {
    if el.kind == Fragment then Contributions(el.children)
    else
      match JsxProps(NewNode(el.kind), el.props)
      case None => None
      case Some(dom) =>
        match Contributions(el.children)
        case None => None
        case Some(ns) => Some([dom.(children := ns)])
  }

  function Contributions(els: seq<Element>): Option<seq<Dom>>
    decreases els
  {
    if els == [] then Some([])
    else
      match Contribution(els[0])
      case None => None
      case Some(ns) =>
        match Contributions(els[1..])
        case None => None
        case Some(rest) => Some(ns + rest)
  }

  /** The container with `ns` appended, or `None`. */
  function Extended(c: Dom, ns: Option<seq<Dom>>): Option<Dom> {
    match ns
    case None => None
    case Some(xs) => Some(c.(children := c.children + xs))
  }

  /** Rendering only appends to the container, and appends exactly the
      element's contribution: nothing for a fragment itself, one node for
      any other element. */
  lemma {:induction false} RenderAppends(el: Element, c: Dom)
    ensures Render(el, c) == Extended(c, Contribution(el))
    decreases el, 1
  {
    if el.kind == Fragment {
      RenderAllAppends(el.children, c);
    } else {
      match JsxProps(NewNode(el.kind), el.props)
      case None =>
      case Some(dom) =>
        RenderAllAppends(el.children, dom);
        JsxPropsKeepsChildren(NewNode(el.kind), el.props);
        assert dom.children == [];
        match Contributions(el.children)
        case None =>
        case Some(ns) =>
          assert dom.children + ns == ns;
          assert Render(el, c) == Some(Append(c, dom.(children := ns)));
    }
  }

  lemma {:induction false} RenderAllAppends(els: seq<Element>, c: Dom)
    ensures RenderAll(els, c) == Extended(c, Contributions(els))
    decreases els, 0
  {
    if els == [] {
      assert c.children + [] == c.children;
    } else {
      RenderAppends(els[0], c);
      match Contribution(els[0])
      case None =>
      case Some(ns) =>
        var c' := c.(children := c.children + ns);
        RenderAllAppends(els[1..], c');
        match Contributions(els[1..])
        case None =>
        case Some(rest) =>
          assert c.children + ns + rest == c.children + (ns + rest);
    }
  }

  /** Assigning props never touches the node's children. */
  lemma {:induction false} JsxPropsKeepsChildren(node: Dom, props: seq<Prop>)
    ensures JsxProps(node, props).Some? ==> JsxProps(node, props).value.children == node.children
    ensures JsxProps(node, props).Some? ==> JsxProps(node, props).value.kind == node.kind
    decreases |props|
  {
    if props != [] {
      var p := props[0];
      if p.name == "children" {
        JsxPropsKeepsChildren(node, props[1..]);
      } else if StartsWith(p.name, "on") {
        if |p.name| >= 3 && p.value.Function? {
          JsxPropsKeepsChildren(node.(listeners := node.listeners + [Listener(EventName(p.name).value, p.value)]), props[1..]);
        }
      } else {
        JsxPropsKeepsChildren(node.(props := node.props[p.name := p.value]), props[1..]);
      }
    }
  }

  /** A non-fragment element is appended to its container exactly once, as
      the last child, and nothing else of the container changes. */
  lemma AppendedOnce(el: Element, c: Dom)
    requires el.kind != Fragment && Render(el, c).Some?
    ensures var r := Render(el, c).value;
      |r.children| == |c.children| + 1 && r.children[..|c.children|] == c.children
      && r.kind == c.kind && r.props == c.props && r.listeners == c.listeners
  {
    RenderAppends(el, c);
    var r := Render(el, c).value;
    assert r.children[..|c.children|] == c.children;
  }

  /** A prop that makes `render` throw: one named exactly `on`, or an
      `on…` prop whose value is not a function. */
  predicate BadListener(p: Prop) {
    StartsWith(p.name, "on") && (p.name == "on" || !p.value.Function?)
  }

  predicate HasBadListener(props: seq<Prop>) {
    exists p | p in props :: BadListener(p)
  }

  /** Assigning the props throws exactly when one of them is a bad
      listener. */
  lemma {:induction false} JsxPropsFails(node: Dom, props: seq<Prop>)
    ensures JsxProps(node, props).None? <==> HasBadListener(props)
    decreases |props|
  {
    if props != [] {
      var p := props[0];
      assert props == [p] + props[1..];
      assert HasBadListener(props) <==> BadListener(p) || HasBadListener(props[1..]);
      if p.name == "children" {
        assert !BadListener(p) by { assert p.name[..2] == "ch"; }
        JsxPropsFails(node, props[1..]);
      } else if StartsWith(p.name, "on") {
        if |p.name| >= 3 {
          assert p.name != "on";
          if p.value.Function? {
            JsxPropsFails(node.(listeners := node.listeners + [Listener(EventName(p.name).value, p.value)]), props[1..]);
          }
        } else {
          assert p.name == p.name[..2] == "on";
        }
      } else {
        assert !BadListener(p);
        JsxPropsFails(node.(props := node.props[p.name := p.value]), props[1..]);
      }
    }
  }

  /** `onClick="x"` makes `render` throw, while a function there adds a
      `click` listener. */
  lemma {:induction false} OnClickNeedsFunction(node: Dom, id: nat)
    ensures JsxProps(node, [Prop("onClick", Str("x"))]).None?
    ensures JsxProps(node, [Prop("onClick", Function(id))])
         == Some(node.(listeners := node.listeners + [Listener("click", Function(id))]))
  {
    EventNameOnClick();
    assert "onClick" != "children";
    assert [Prop("onClick", Function(id))][1..] == [];
  }

  /** The listeners `render` adds, in key order: one per `on…` prop. */
  function ListenersOf(props: seq<Prop>): seq<Listener>
    decreases |props|
  {
    if props == [] then []
    else
      ListenerOf(props[0]) + ListenersOf(props[1..])
  }

  /** The listener one prop adds: none unless it is an `on…` prop. */
  function ListenerOf(p: Prop): seq<Listener>
  {
    if p.name != "children" && StartsWith(p.name, "on") && |p.name| >= 3
    then [Listener(EventName(p.name).value, p.value)] else []
  }

  /** One prop assigned by `render`. */
  function JsxStep(node: Dom, p: Prop): Dom
    requires !BadListener(p)
  {
    if p.name == "children" then node
    else if StartsWith(p.name, "on") then node.(listeners := node.listeners + [Listener(EventName(p.name).value, p.value)])
    else node.(props := node.props[p.name := p.value])
  }

  lemma StepListeners(node: Dom, p: Prop)
    requires !BadListener(p)
    ensures JsxStep(node, p).listeners == node.listeners + ListenerOf(p)
  {
    if p.name != "children" && StartsWith(p.name, "on") {
      assert |p.name| >= 3 by { assert p.name != "on"; }
    } else {
      assert node.listeners + [] == node.listeners;
    }
  }

  lemma JsxPropsUnfold(node: Dom, props: seq<Prop>)
    requires props != [] && JsxProps(node, props).Some?
    ensures !BadListener(props[0])
    ensures JsxProps(node, props) == JsxProps(JsxStep(node, props[0]), props[1..])
  {
    var p := props[0];
    if p.name == "children" {
      assert p.name[..2] == "ch";
    }
  }

  /** When `render` does not throw, the node's listeners are exactly those
      of its `on…` props, in key order. */
  lemma {:induction false} JsxPropsListeners(node: Dom, props: seq<Prop>)
    requires JsxProps(node, props).Some?
    ensures JsxProps(node, props).value.listeners == node.listeners + ListenersOf(props)
    decreases |props|
  {
    if props == [] {
      assert node.listeners + [] == node.listeners;
    } else {
      JsxPropsUnfold(node, props);
      var p := props[0];
      var next := JsxStep(node, p);
      var head := ListenerOf(p);
      StepListeners(node, p);
      JsxPropsListeners(next, props[1..]);
      assert node.listeners + head + ListenersOf(props[1..]) == node.listeners + (head + ListenersOf(props[1..]));
    }
  }

  /** and its properties are exactly the other props, `children`
      excepted, each holding the value of the last prop of its name. */
  lemma {:induction false} JsxPropsKeys(node: Dom, props: seq<Prop>, k: string)
    requires JsxProps(node, props).Some?
    ensures k in JsxProps(node, props).value.props <==>
      k in node.props || (k != "children" && !StartsWith(k, "on") && exists p | p in props :: p.name == k)
    ensures k != "children" && !StartsWith(k, "on") && LastValue(props, k).Some? ==>
      k in JsxProps(node, props).value.props && JsxProps(node, props).value.props[k] == LastValue(props, k).value
    ensures LastValue(props, k).None? && k in node.props ==>
      k in JsxProps(node, props).value.props && JsxProps(node, props).value.props[k] == node.props[k]
    decreases |props|
  {
    if props != [] {
      JsxPropsUnfold(node, props);
      var next := JsxStep(node, props[0]);
      JsxPropsKeys(next, props[1..], k);
      if q :| q in props && q.name == k && k != "children" && !StartsWith(k, "on") {
        if q != props[0] {
          assert q in props[1..];
        }
      }
    }
  }

  /** `renderToString` never adds a listener: an `on…` prop is copied as a
      plain property. */
  lemma {:induction false} StringNodeNoListeners(el: Element)
    requires el.kind != Fragment
    ensures StringNode(el).value.listeners == []
    decreases el
  {
    CopyPropsExact(NewNode(el.kind), el.props, "");
    StringChildrenKeeps(el.children, CopyProps(NewNode(el.kind), el.props));
  }

  /** Rendering children into a node only appends to it: one node per
      non-fragment child, in order, and nothing for a fragment child. */
  lemma {:induction false} StringChildrenKeeps(els: seq<Element>, dom: Dom)
    ensures StringChildren(els, dom).listeners == dom.listeners
    ensures StringChildren(els, dom).props == dom.props
    ensures StringChildren(els, dom).kind == dom.kind
    ensures StringChildren(els, dom).children == dom.children + NonFragmentNodes(els)
    decreases els
  {
    if els == [] {
      assert dom.children + [] == dom.children;
    } else {
      match StringNode(els[0])
      case None =>
        assert els[0].kind == Fragment;
        assert NonFragmentNodes(els) == [] + NonFragmentNodes(els[1..]);
        assert StringChildren(els, dom) == StringChildren(els[1..], dom);
        StringChildrenKeeps(els[1..], dom);
      case Some(n) =>
        assert els[0].kind != Fragment;
        assert NonFragmentNodes(els) == [n] + NonFragmentNodes(els[1..]);
        assert StringChildren(els, dom) == StringChildren(els[1..], Append(dom, n));
        StringChildrenKeeps(els[1..], Append(dom, n));
        assert dom.children + [n] + NonFragmentNodes(els[1..]) == dom.children + ([n] + NonFragmentNodes(els[1..]));
    }
  }

  /** The nodes `renderToString` keeps for a list of children. */
  function NonFragmentNodes(els: seq<Element>): seq<Dom>
    decreases els
  {
    if els == [] then []
    else (if els[0].kind == Fragment then [] else [StringNode(els[0]).value]) + NonFragmentNodes(els[1..])
  }

  /** A top-level fragment returns nothing and leaves the container as it
      was; its children are rendered with no container and discarded. */
  lemma FragmentToStringNothing(el: Element, container: Option<Dom>, outerHTML: Dom -> string)
    requires el.kind == Fragment
    ensures RenderToString(el, container, outerHTML) == StringResult(None, container)
  {
  }

  /** Without a container an element returns its `outerHTML`; with one it
      is appended and nothing is returned. */
  lemma ToStringElement(el: Element, container: Option<Dom>, outerHTML: Dom -> string)
    requires el.kind != Fragment && el.kind != TextElement
    ensures container.None? ==>
      RenderToString(el, container, outerHTML) == StringResult(Some(outerHTML(StringNode(el).value)), None)
    ensures container.Some? ==>
      RenderToString(el, container, outerHTML)
      == StringResult(None, Some(container.value.(children := container.value.children + [StringNode(el).value])))
  {
    CopyPropsExact(NewNode(el.kind), el.props, "");
    StringChildrenKeeps(el.children, CopyProps(NewNode(el.kind), el.props));
  }
}
