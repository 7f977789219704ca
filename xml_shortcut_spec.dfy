/**
 * What resolving shortcuts from a shortcuts document computes
 * (JRun/src/XmlShortcutFile.cs), as state-passing functions over the
 * document, the scope in use and the contents of the macro value store.
 *
 * Every expansion may finalize macro values in the shared store, and every
 * `AddMacros` allocates values in it, so each function takes the store's
 * contents and returns them with its result. `depth` bounds the length of
 * a template chain: the code has no cycle guard, and a chain longer than
 * the bound ends in `OutOfFuel` where the code would recurse or loop
 * forever. `fuel` is the bound handed to macro expansion.
 */
module XmlShortcutSpec {
  import opened Wrappers
  import opened Text
  import opened XmlTree
  import opened Errors
  import opened XmlMacro

  /** `XmlVirtualShortcut`, with the state of its macro collection as a value. */
  datatype VirtualShortcut = VirtualShortcut(name: string, contextNode: NodeId, shortcutNode: NodeId, macros: Scope)

  /** A `Shortcut` as `CreateShortcut` fills it: `params` is None where `Params` stays null. */
  datatype Shortcut = Shortcut(executable: string, params: Option<string>)

  /** The `XmlVirtualShortcut` constructor: an empty name is rejected. */
  function NewVirtualShortcut(name: string, context: NodeId, node: NodeId, macros: Scope): (r: Res<VirtualShortcut>)
    ensures r.Ok? <==> name != ""
    ensures r.Ok? ==> r.value == VirtualShortcut(name, context, node, macros)
    ensures r.Err? ==> r.error == ArgumentEmpty("inName")
  {
    if name == "" then Err(ArgumentEmpty("inName")) else Ok(VirtualShortcut(name, context, node, macros))
  }

  /** A virtual shortcut whose nodes are in `t` and whose scope refers to values below `n`. */
  ghost predicate ShortcutIn(t: Tree, v: VirtualShortcut, n: nat) {
    t.Has(v.contextNode) && t.Has(v.shortcutNode) && v.macros.In(n)
  }

  ghost predicate AllIn(t: Tree, vs: seq<VirtualShortcut>, n: nat) {
    forall k :: 0 <= k < |vs| ==> ShortcutIn(t, vs[k], n)
  }

  lemma InGrows(s: Scope, n: nat, m: nat)
    requires s.In(n) && n <= m
    ensures s.In(m)
  {
  }

  lemma AllInGrows(t: Tree, vs: seq<VirtualShortcut>, n: nat, m: nat)
    requires AllIn(t, vs, n) && n <= m
    ensures AllIn(t, vs, m)
  {
  }

  // ---------------------------------------------------------------------
  // Attributes and templates
  // ---------------------------------------------------------------------

  /**
   * `GetAttributeValue(node, macros, attribName, out value)`: the
   * attribute's expanded value, None when it is absent; an expansion
   * failure is wrapped in an error located at the node.
   */
  function ExpandedAttribute(t: Tree, s: Scope, h: Heap, node: NodeId, attribName: string, fuel: nat): (st: Step<Option<string>>)
    requires t.Valid() && t.Has(node) && s.In(|h|)
    ensures |st.heap| == |h|
    ensures GetAttributeValue(t.nodes[node], attribName).None? ==> st == Step(Ok(None), h)
    ensures st.r.Ok? ==> (st.r.value.Some? <==> GetAttributeValue(t.nodes[node], attribName).Some?)
    ensures GetAttributeValue(t.nodes[node], attribName).Some? ==>
              && st.heap == Expand(s.macros, h, GetAttributeValue(t.nodes[node], attribName).value, fuel).heap
              && (st.r.Ok? <==> Expand(s.macros, h, GetAttributeValue(t.nodes[node], attribName).value, fuel).r.Ok?)
              && (st.r.Ok? ==> st.r.value == Some(Expand(s.macros, h, GetAttributeValue(t.nodes[node], attribName).value, fuel).r.value))
              && (st.r.Err? ==> st.r.error == XmlError(node, AttributeNotExpanded(attribName),
                                                      Some(Expand(s.macros, h, GetAttributeValue(t.nodes[node], attribName).value, fuel).r.error)))
  {
    match GetAttributeValue(t.nodes[node], attribName)
    case None => Step(Ok(None), h)
    case Some(v) =>
      var e := Expand(s.macros, h, v, fuel);
      if e.r.Err? then Step(Err(XmlError(node, AttributeNotExpanded(attribName), Some(e.r.error))), e.heap)
      else Step(Ok(Some(e.r.value)), e.heap)
  }

  /** `AttributeValueMatches`: the attribute is present and its expanded value equals `valueCheck` ignoring case. */
  function AttributeMatches(t: Tree, s: Scope, h: Heap, node: NodeId, attribName: string, valueCheck: string, fuel: nat): (st: Step<bool>)
    requires t.Valid() && t.Has(node) && s.In(|h|)
    ensures |st.heap| == |h|
    ensures var a := ExpandedAttribute(t, s, h, node, attribName, fuel);
            && st.heap == a.heap
            && (st.r.Err? <==> a.r.Err?)
            && (st.r.Ok? ==> (st.r.value <==> a.r.value.Some? && EqualsIgnoreCase(a.r.value.value, valueCheck)))
  {
    var a := ExpandedAttribute(t, s, h, node, attribName, fuel);
    if a.r.Err? then Step(Err(a.r.error), a.heap)
    else Step(Ok(a.r.value.Some? && EqualsIgnoreCase(a.r.value.value, valueCheck)), a.heap)
  }

  /** The loop of `FindTemplate` over the child nodes `cs[k..]` of one node. */
  function SearchChildren(t: Tree, s: Scope, h: Heap, cs: seq<NodeId>, k: nat, name: string, fuel: nat): (st: Step<Option<NodeId>>)
    requires t.Valid() && k <= |cs| && (forall i :: 0 <= i < |cs| ==> cs[i] < |t.nodes|) && s.In(|h|)
    ensures |st.heap| == |h|
    ensures st.r.Ok? && st.r.value.Some? ==> exists i :: k <= i < |cs| && cs[i] == st.r.value.value
    decreases |cs| - k
  {
    if k == |cs| then Step(Ok(None), h)
    else
      var m := AttributeMatches(t, s, h, cs[k], "name", name, fuel);
      if m.r.Err? then Step(Err(m.r.error), m.heap)
      else if m.r.value then Step(Ok(Some(cs[k])), m.heap)
      else SearchChildren(t, s, m.heap, cs, k + 1, name, fuel)
  }

  /**
   * `FindTemplate(start, macros, templateName)`: the first child of `start`
   * whose expanded `name` matches, else the same search from the parent,
   * else None at the root.
   */
  function TemplateSearch(t: Tree, s: Scope, h: Heap, start: NodeId, name: string, fuel: nat): (st: Step<Option<NodeId>>)
    requires t.Valid() && t.Has(start) && s.In(|h|)
    ensures |st.heap| == |h|
    ensures st.r.Ok? && st.r.value.Some? ==> t.Has(st.r.value.value)
    decreases start
  {
    var c := SearchChildren(t, s, h, t.nodes[start].children, 0, name, fuel);
    if c.r.Err? || c.r.value.Some? || t.nodes[start].parent.None? then c
    else TemplateSearch(t, s, c.heap, t.nodes[start].parent.value, name, fuel)
  }

  /**
   * `GetNodeTemplate(node, macros)`: None exactly when `inherits` is absent;
   * an `inherits` that expands to "" or names no template throws "Could not
   * find template"; the search starts at the parent, and a node without one
   * dereferences null.
   */
  function TemplateOf(t: Tree, s: Scope, h: Heap, node: NodeId, fuel: nat): (st: Step<Option<NodeId>>)
    requires t.Valid() && t.Has(node) && s.In(|h|)
    ensures |st.heap| == |h|
    ensures st.r.Ok? && st.r.value.None? <==> GetAttributeValue(t.nodes[node], "inherits").None?
    ensures GetAttributeValue(t.nodes[node], "inherits").None? ==> st.heap == h
    ensures st.r.Ok? && st.r.value.Some? ==> t.Has(st.r.value.value)
    ensures var a := ExpandedAttribute(t, s, h, node, "inherits", fuel);
            && (a.r.Err? ==> st == Step(Err(a.r.error), a.heap))
            && (a.r.Ok? && a.r.value == Some("") ==> st == Step(Err(XmlError(node, TemplateNotFound(""), None)), a.heap))
            && (a.r.Ok? && a.r.value.Some? && a.r.value.value != "" && t.nodes[node].parent.None? ==> st == Step(Err(NullReference), a.heap))
    ensures var a := ExpandedAttribute(t, s, h, node, "inherits", fuel);
            a.r.Ok? && a.r.value.Some? && a.r.value.value != "" && t.nodes[node].parent.Some? ==>
              var f := TemplateSearch(t, s, a.heap, t.nodes[node].parent.value, a.r.value.value, fuel);
              && (f.r.Ok? && f.r.value.None? ==> st == Step(Err(XmlError(node, TemplateNotFound(a.r.value.value), None)), f.heap))
              && (f.r.Err? || f.r.value.Some? ==> st == f)
  {
    var a := ExpandedAttribute(t, s, h, node, "inherits", fuel);
    if a.r.Err? then Step(Err(a.r.error), a.heap)
    else if a.r.value.None? then Step(Ok(None), a.heap)
    else
      var name := a.r.value.value;
      if name == "" then Step(Err(XmlError(node, TemplateNotFound(name), None)), a.heap)
      else if t.nodes[node].parent.None? then Step(Err(NullReference), a.heap)
      else
        var f := TemplateSearch(t, s, a.heap, t.nodes[node].parent.value, name, fuel);
        if f.r.Ok? && f.r.value.None? then Step(Err(XmlError(node, TemplateNotFound(name), None)), f.heap)
        else f
  }

  /**
   * `AddTemplateMacros(node, macros)`: the template's chain first (deepest
   * template first), then the node's own Defines, all into one scope.
   */
  function WithTemplateMacros(t: Tree, s: Scope, h: Heap, node: NodeId, depth: nat, fuel: nat): (st: ScopeStep)
    requires t.Valid() && t.Has(node) && s.In(|h|)
    ensures st.scope.In(|st.heap|) && |h| <= |st.heap|
    decreases depth
  {
    var tn := TemplateOf(t, s, h, node, fuel);
    if tn.r.Err? then ScopeStep(Fail(tn.r.error), s, tn.heap)
    else if tn.r.value.None? then WithMacros(t, s, tn.heap, node)
    else if depth == 0 then ScopeStep(Fail(OutOfFuel), s, tn.heap)
    else
      var inner := WithTemplateMacros(t, s, tn.heap, tn.r.value.value, depth - 1, fuel);
      if inner.outcome.Fail? then inner
      else WithMacros(t, inner.scope, inner.heap, node)
  }

  /** One step of `WithTemplateMacros`, in terms of the template `tn` of `node`. */
  lemma TemplateMacrosStep(t: Tree, s: Scope, h: Heap, node: NodeId, depth: nat, fuel: nat, tn: Step<Option<NodeId>>)
    requires t.Valid() && t.Has(node) && s.In(|h|)
    requires tn == TemplateOf(t, s, h, node, fuel)
    ensures s.In(|tn.heap|)
    ensures tn.r.Err? ==> WithTemplateMacrosAt(t, s, h, node, depth, fuel) == ScopeStep(Fail(tn.r.error), s, tn.heap)
    ensures tn.r.Ok? && tn.r.value.None? ==> WithTemplateMacrosAt(t, s, h, node, depth, fuel) == WithMacros(t, s, tn.heap, node)
    ensures tn.r.Ok? && tn.r.value.Some? && depth == 0 ==> WithTemplateMacrosAt(t, s, h, node, depth, fuel) == ScopeStep(Fail(OutOfFuel), s, tn.heap)
    ensures tn.r.Ok? && tn.r.value.Some? ==> t.Has(tn.r.value.value)
    ensures tn.r.Ok? && tn.r.value.Some? && depth > 0 && WithTemplateMacrosAt(t, s, tn.heap, tn.r.value.value, depth - 1, fuel).outcome.Fail? ==>
              WithTemplateMacrosAt(t, s, h, node, depth, fuel) == WithTemplateMacrosAt(t, s, tn.heap, tn.r.value.value, depth - 1, fuel)
    ensures tn.r.Ok? && tn.r.value.Some? && depth > 0 && WithTemplateMacrosAt(t, s, tn.heap, tn.r.value.value, depth - 1, fuel).outcome.Pass? ==>
              WithTemplateMacrosAt(t, s, h, node, depth, fuel)
              == WithMacros(t, WithTemplateMacrosAt(t, s, tn.heap, tn.r.value.value, depth - 1, fuel).scope,
                            WithTemplateMacrosAt(t, s, tn.heap, tn.r.value.value, depth - 1, fuel).heap, node)
  {
    InGrows(s, |h|, |tn.heap|);
  }

  // ---------------------------------------------------------------------
  // Properties
  // ---------------------------------------------------------------------

  /** The loop of `GetPropertyValue`: the inner text of the first chain element with a child tagged `propertyName`. */
  function PropertyText(t: Tree, s: Scope, h: Heap, element: NodeId, propertyName: string, depth: nat, fuel: nat): (st: Step<Option<string>>)
    requires t.Valid() && t.Has(element) && s.In(|h|)
    ensures |st.heap| == |h|
    decreases depth
  {
    match FirstChildNamed(t, element, propertyName)
    case Some(c) => Step(Ok(Some(t.nodes[c].innerText)), h)
    case None =>
      var next := TemplateOf(t, s, h, element, fuel);
      if next.r.Err? then Step(Err(next.r.error), next.heap)
      else if next.r.value.None? then Step(Ok(None), next.heap)
      else if depth == 0 then Step(Err(OutOfFuel), next.heap)
      else PropertyText(t, s, next.heap, next.r.value.value, propertyName, depth - 1, fuel)
  }

  /** One step of the `GetPropertyValue` loop, for an element without the property: how the rest of the lookup follows from its template. */
  lemma PropertyTextStep(t: Tree, s: Scope, h: Heap, element: NodeId, propertyName: string, depth: nat, fuel: nat, next: Step<Option<NodeId>>)
    requires t.Valid() && t.Has(element) && s.In(|h|) && FirstChildNamed(t, element, propertyName).None?
    requires next == TemplateOf(t, s, h, element, fuel)
    ensures next.r.Ok? && next.r.value.Some? ==> t.Has(next.r.value.value) && s.In(|next.heap|)
    ensures PropertyText(t, s, h, element, propertyName, depth, fuel)
         == if next.r.Err? then Step(Err(next.r.error), next.heap)
            else if next.r.value.None? then Step(Ok(None), next.heap)
            else if depth == 0 then Step(Err(OutOfFuel), next.heap)
            else PropertyText(t, s, next.heap, next.r.value.value, propertyName, depth - 1, fuel)
  {
  }

  /** `GetPropertyValue(node, macros, propertyName, out value)`: the property's text, expanded; None when no chain element has it. */
  function PropertyOf(t: Tree, s: Scope, h: Heap, node: NodeId, propertyName: string, fuel: nat): (st: Step<Option<string>>)
    requires t.Valid() && t.Has(node) && s.In(|h|)
    ensures |st.heap| == |h|
    ensures var p := PropertyText(t, s, h, node, propertyName, fuel, fuel);
            && (p.r.Err? ==> st == p)
            && (p.r.Ok? && p.r.value.None? ==> st == p)
            && (st.r.Ok? ==> p.r.Ok? && (st.r.value.Some? <==> p.r.value.Some?))
    ensures var p := PropertyText(t, s, h, node, propertyName, fuel, fuel);
            p.r.Ok? && p.r.value.Some? ==>
              && s.In(|p.heap|)
              && var e := Expand(s.macros, p.heap, p.r.value.value, fuel);
              && st.heap == e.heap
              && (st.r.Ok? <==> e.r.Ok?)
              && (st.r.Ok? ==> st.r.value == Some(e.r.value))
              && (st.r.Err? ==> st.r.error == XmlError(node, PropertyNotExpanded(propertyName), Some(e.r.error)))
  {
    var p := PropertyText(t, s, h, node, propertyName, fuel, fuel);
    if p.r.Err? || p.r.value.None? then p
    else
      var e := Expand(s.macros, p.heap, p.r.value.value, fuel);
      if e.r.Err? then Step(Err(XmlError(node, PropertyNotExpanded(propertyName), Some(e.r.error))), e.heap)
      else Step(Ok(Some(e.r.value)), e.heap)
  }

  // ---------------------------------------------------------------------
  // Virtual shortcuts
  // ---------------------------------------------------------------------

  /**
   * `CreateVirtualShortcut(context, shortcutNode, outerMacros)`: a node
   * whose `name` is missing or empty, or expands to "", gives none;
   * otherwise the shortcut gets a copy of the outer scope holding its own
   * chain's macros. The name's expansion error is not wrapped.
   */
  function VirtualShortcutOf(t: Tree, s: Scope, h: Heap, context: NodeId, node: NodeId, fuel: nat): (st: Step<Option<VirtualShortcut>>)
    requires t.Valid() && t.Has(context) && t.Has(node) && s.In(|h|)
    ensures |h| <= |st.heap|
    ensures st.r.Ok? && st.r.value.Some? ==> ShortcutIn(t, st.r.value.value, |st.heap|)
  {
    var nodeName := GetAttributeValue(t.nodes[node], "name");
    if nodeName.None? || nodeName.value == "" then Step(Ok(None), h)
    else
      var e := Expand(s.macros, h, nodeName.value, fuel);
      if e.r.Err? then Step(Err(e.r.error), e.heap)
      else if e.r.value == "" then Step(Ok(None), e.heap)
      else
        var w := WithTemplateMacros(t, CopyScope(s), e.heap, node, fuel, fuel);
        if w.outcome.Fail? then Step(Err(w.outcome.error), w.heap)
        else match NewVirtualShortcut(e.r.value, context, node, w.scope)
          case Err(err) => Step(Err(err), w.heap)
          case Ok(v) => Step(Ok(Some(v)), w.heap)
  }

  /** The shortcut nodes `nodes[k..]` of one chain element, each made a virtual shortcut in scope `s` and appended to `acc`. */
  function ShortcutsAmong(t: Tree, s: Scope, h: Heap, nodes: seq<NodeId>, k: nat, acc: seq<VirtualShortcut>, fuel: nat): (st: Step<seq<VirtualShortcut>>)
    requires t.Valid() && k <= |nodes| && (forall i :: 0 <= i < |nodes| ==> nodes[i] < |t.nodes|) && s.In(|h|) && AllIn(t, acc, |h|)
    ensures |h| <= |st.heap|
    ensures st.r.Ok? ==> AllIn(t, st.r.value, |st.heap|)
    decreases |nodes| - k
  {
    if k == |nodes| then Step(Ok(acc), h)
    else
      var v := VirtualShortcutOf(t, s, h, nodes[k], nodes[k], fuel);
      if v.r.Err? then Step(Err(v.r.error), v.heap)
      else
        AllInGrows(t, acc, |h|, |v.heap|);
        InGrows(s, |h|, |v.heap|);
        var acc' := acc + if v.r.value.Some? then [v.r.value.value] else [];
        var rest := ShortcutsAmong(t, s, v.heap, nodes, k + 1, acc', fuel);
        rest
  }

  /**
   * `GetAllShortcutNodes(node, macros)` as its caller consumes it: the
   * Shortcut children of each chain element in turn, the next template
   * being looked up once the current element's shortcuts are made.
   */
  function ChainShortcuts(t: Tree, s: Scope, h: Heap, element: NodeId, acc: seq<VirtualShortcut>, depth: nat, fuel: nat): (st: Step<seq<VirtualShortcut>>)
    requires t.Valid() && t.Has(element) && s.In(|h|) && AllIn(t, acc, |h|)
    ensures |h| <= |st.heap|
    ensures st.r.Ok? ==> AllIn(t, st.r.value, |st.heap|)
    decreases depth
  {
    var here := ShortcutsAmong(t, s, h, ChildrenNamed(t, element, "Shortcut"), 0, acc, fuel);
    if here.r.Err? then here
    else
      InGrows(s, |h|, |here.heap|);
      var next := TemplateOf(t, s, here.heap, element, fuel);
      if next.r.Err? then Step(Err(next.r.error), next.heap)
      else if next.r.value.None? then Step(here.r, next.heap)
      else if depth == 0 then Step(Err(OutOfFuel), next.heap)
      else ChainShortcuts(t, s, next.heap, next.r.value.value, here.r.value, depth - 1, fuel)
  }

  /** One step of `ChainShortcuts`, in terms of its two parts. */
  lemma ShortcutsChainStep(t: Tree, s: Scope, h: Heap, element: NodeId, acc: seq<VirtualShortcut>, depth: nat, fuel: nat,
                           here: Step<seq<VirtualShortcut>>, next: Step<Option<NodeId>>)
    requires t.Valid() && t.Has(element) && s.In(|h|) && AllIn(t, acc, |h|)
    requires here == ShortcutsAmong(t, s, h, ChildrenNamed(t, element, "Shortcut"), 0, acc, fuel)
    requires here.r.Ok? ==> s.In(|here.heap|) && next == TemplateOf(t, s, here.heap, element, fuel)
    ensures var whole := ChainShortcuts(t, s, h, element, acc, depth, fuel);
            && (here.r.Err? ==> whole == here)
            && (here.r.Ok? && next.r.Err? ==> whole == Step(Err(next.r.error), next.heap))
            && (here.r.Ok? && next.r.Ok? && next.r.value.None? ==> whole == Step(here.r, next.heap))
            && (here.r.Ok? && next.r.Ok? && next.r.value.Some? && depth == 0 ==> whole == Step(Err(OutOfFuel), next.heap))
            && (here.r.Ok? && next.r.Ok? && next.r.value.Some? && depth > 0 ==>
                  AllIn(t, here.r.value, |next.heap|) && t.Has(next.r.value.value) && s.In(|next.heap|) &&
                  whole == ChainShortcuts(t, s, next.heap, next.r.value.value, here.r.value, depth - 1, fuel))
  {
  }

  /** One step of `ChainLists`, in terms of its two parts. */
  lemma ListsChainStep(t: Tree, s: Scope, h: Heap, element: NodeId, acc: seq<VirtualShortcut>, depth: nat, fuel: nat,
                       here: Step<seq<VirtualShortcut>>, next: Step<Option<NodeId>>)
    requires t.Valid() && t.Has(element) && s.In(|h|) && AllIn(t, acc, |h|)
    requires here == ListsAmong(t, s, h, ChildrenNamed(t, element, "List"), 0, acc, fuel)
    requires here.r.Ok? ==> s.In(|here.heap|) && next == TemplateOf(t, s, here.heap, element, fuel)
    ensures var whole := ChainLists(t, s, h, element, acc, depth, fuel);
            && (here.r.Err? ==> whole == here)
            && (here.r.Ok? && next.r.Err? ==> whole == Step(Err(next.r.error), next.heap))
            && (here.r.Ok? && next.r.Ok? && next.r.value.None? ==> whole == Step(here.r, next.heap))
            && (here.r.Ok? && next.r.Ok? && next.r.value.Some? && depth == 0 ==> whole == Step(Err(OutOfFuel), next.heap))
            && (here.r.Ok? && next.r.Ok? && next.r.value.Some? && depth > 0 ==>
                  AllIn(t, here.r.value, |next.heap|) && t.Has(next.r.value.value) && s.In(|next.heap|) &&
                  whole == ChainLists(t, s, next.heap, next.r.value.value, here.r.value, depth - 1, fuel))
  {
  }

  /** The List children `lists[k..]` of one profile chain element: each gets a copy of the profile scope with its chain's macros, then its chain's shortcuts. */
  function ListsAmong(t: Tree, s: Scope, h: Heap, lists: seq<NodeId>, k: nat, acc: seq<VirtualShortcut>, fuel: nat): (st: Step<seq<VirtualShortcut>>)
    requires t.Valid() && k <= |lists| && (forall i :: 0 <= i < |lists| ==> lists[i] < |t.nodes|) && s.In(|h|) && AllIn(t, acc, |h|)
    ensures |h| <= |st.heap|
    ensures st.r.Ok? ==> AllIn(t, st.r.value, |st.heap|)
    decreases |lists| - k
  {
    if k == |lists| then Step(Ok(acc), h)
    else
      var w := WithTemplateMacros(t, CopyScope(s), h, lists[k], fuel, fuel);
      if w.outcome.Fail? then Step(Err(w.outcome.error), w.heap)
      else
        AllInGrows(t, acc, |h|, |w.heap|);
        var sc := ChainShortcuts(t, w.scope, w.heap, lists[k], acc, fuel, fuel);
        if sc.r.Err? then sc
        else
          InGrows(s, |h|, |sc.heap|);
          ListsAmong(t, s, sc.heap, lists, k + 1, sc.r.value, fuel)
  }

  /** The list part of `GetAllVirtualShortcuts`: the Lists of each element of the profile's chain in turn. */
  function ChainLists(t: Tree, s: Scope, h: Heap, element: NodeId, acc: seq<VirtualShortcut>, depth: nat, fuel: nat): (st: Step<seq<VirtualShortcut>>)
    requires t.Valid() && t.Has(element) && s.In(|h|) && AllIn(t, acc, |h|)
    ensures |h| <= |st.heap|
    ensures st.r.Ok? ==> AllIn(t, st.r.value, |st.heap|)
    decreases depth
  {
    var here := ListsAmong(t, s, h, ChildrenNamed(t, element, "List"), 0, acc, fuel);
    if here.r.Err? then here
    else
      InGrows(s, |h|, |here.heap|);
      var next := TemplateOf(t, s, here.heap, element, fuel);
      if next.r.Err? then Step(Err(next.r.error), next.heap)
      else if next.r.value.None? then Step(here.r, next.heap)
      else if depth == 0 then Step(Err(OutOfFuel), next.heap)
      else ChainLists(t, s, next.heap, next.r.value.value, here.r.value, depth - 1, fuel)
  }

  /** The body run for the selected profile: its scope, its chain's shortcuts, then its chain's lists' shortcuts. */
  function ProfileShortcuts(t: Tree, g: Scope, h: Heap, profile: NodeId, fuel: nat): (st: Step<seq<VirtualShortcut>>)
    requires t.Valid() && t.Has(profile) && g.In(|h|)
    ensures |h| <= |st.heap|
    ensures st.r.Ok? ==> AllIn(t, st.r.value, |st.heap|)
  {
    var w := WithTemplateMacros(t, CopyScope(g), h, profile, fuel, fuel);
    if w.outcome.Fail? then Step(Err(w.outcome.error), w.heap)
    else
      var direct := ChainShortcuts(t, w.scope, w.heap, profile, [], fuel, fuel);
      if direct.r.Err? then direct
      else
        InGrows(w.scope, |w.heap|, |direct.heap|);
        ChainLists(t, w.scope, direct.heap, profile, direct.r.value, fuel, fuel)
  }

  /** The profile loop of `GetAllVirtualShortcuts` over `profiles[k..]`: the first match is processed and ends the loop. */
  function ProfileScan(t: Tree, g: Scope, h: Heap, profiles: seq<NodeId>, k: nat, profileName: string, fuel: nat): (st: Step<seq<VirtualShortcut>>)
    requires t.Valid() && k <= |profiles| && (forall i :: 0 <= i < |profiles| ==> profiles[i] < |t.nodes|) && g.In(|h|)
    ensures |h| <= |st.heap|
    ensures st.r.Ok? ==> AllIn(t, st.r.value, |st.heap|)
    decreases |profiles| - k
  {
    if k == |profiles| then Step(Ok([]), h)
    else if profileName == "" then ProfileShortcuts(t, g, h, profiles[k], fuel)
    else
      var m := AttributeMatches(t, g, h, profiles[k], "name", profileName, fuel);
      if m.r.Err? then Step(Err(m.r.error), m.heap)
      else if m.r.value then ProfileShortcuts(t, g, m.heap, profiles[k], fuel)
      else ProfileScan(t, g, m.heap, profiles, k + 1, profileName, fuel)
  }

  /** `GetAllVirtualShortcuts(profileName)` with the global scope `g`. */
  function VirtualShortcuts(t: Tree, g: Scope, h: Heap, profileName: string, fuel: nat): (st: Step<seq<VirtualShortcut>>)
    requires t.Valid() && g.In(|h|)
    ensures |h| <= |st.heap|
    ensures st.r.Ok? ==> AllIn(t, st.r.value, |st.heap|)
  {
    ProfileScan(t, g, h, ChildrenNamed(t, t.documentElement, "Profile"), 0, profileName, fuel)
  }

  function Names(vs: seq<VirtualShortcut>): (r: seq<string>)
    ensures |r| == |vs| && forall k :: 0 <= k < |vs| ==> r[k] == vs[k].name
  {
    if vs == [] then [] else [vs[0].name] + Names(vs[1..])
  }

  /** `GetAllShortcutNames(profileName)`: the names of the virtual shortcuts, in order. */
  function ShortcutNames(t: Tree, g: Scope, h: Heap, profileName: string, fuel: nat): (st: Step<seq<string>>)
    requires t.Valid() && g.In(|h|)
  {
    var all := VirtualShortcuts(t, g, h, profileName, fuel);
    if all.r.Err? then Step(Err(all.r.error), all.heap) else Step(Ok(Names(all.r.value)), all.heap)
  }

  // ---------------------------------------------------------------------
  // Shortcuts
  // ---------------------------------------------------------------------

  /**
   * `CreateShortcut(vShortcut)`: `Path` and `Params` as inherited
   * properties; a Path that is absent or empty after expansion throws at
   * the context node.
   */
  function Materialized(t: Tree, v: VirtualShortcut, h: Heap, fuel: nat): (st: Step<Shortcut>)
    requires t.Valid() && ShortcutIn(t, v, |h|)
    ensures |st.heap| == |h|
    ensures st.r.Ok? ==> st.r.value.executable != ""
    ensures var path := PropertyOf(t, v.macros, h, v.shortcutNode, "Path", fuel);
            path.r.Err? ==> st == Step(Err(path.r.error), path.heap)
    ensures var path := PropertyOf(t, v.macros, h, v.shortcutNode, "Path", fuel);
            path.r.Ok? ==>
              && v.macros.In(|path.heap|)
              && var ps := PropertyOf(t, v.macros, path.heap, v.shortcutNode, "Params", fuel);
              && st.heap == ps.heap
              && (ps.r.Err? ==> st.r == Err(ps.r.error))
              && (ps.r.Ok? && (path.r.value.None? || path.r.value.value == "") ==> st.r == Err(XmlError(v.contextNode, NoExecutablePath, None)))
              && (ps.r.Ok? && path.r.value.Some? && path.r.value.value != "" ==> st.r == Ok(Shortcut(path.r.value.value, ps.r.value)))
  {
    var path := PropertyOf(t, v.macros, h, v.shortcutNode, "Path", fuel);
    if path.r.Err? then Step(Err(path.r.error), path.heap)
    else
      var ps := PropertyOf(t, v.macros, path.heap, v.shortcutNode, "Params", fuel);
      if ps.r.Err? then Step(Err(ps.r.error), ps.heap)
      else if path.r.value.None? || path.r.value.value == "" then Step(Err(XmlError(v.contextNode, NoExecutablePath, None)), ps.heap)
      else Step(Ok(Shortcut(path.r.value.value, ps.r.value)), ps.heap)
  }

  /** The index of the first virtual shortcut named `name` ignoring case. */
  function FirstNamed(vs: seq<VirtualShortcut>, name: string): (r: Option<nat>)
    ensures r.Some? ==> r.value < |vs| && EqualsIgnoreCase(vs[r.value].name, name)
    ensures r.Some? ==> forall k :: 0 <= k < r.value ==> !EqualsIgnoreCase(vs[k].name, name)
    ensures r.None? ==> forall k :: 0 <= k < |vs| ==> !EqualsIgnoreCase(vs[k].name, name)
  {
    if vs == [] then None
    else if EqualsIgnoreCase(vs[0].name, name) then Some(0)
    else match FirstNamed(vs[1..], name)
      case None => None
      case Some(k) => Some(k + 1)
  }

  /** `GetShortcut(profileName, shortcutName)`: the whole list is built first, then its first match is materialized. */
  function ShortcutLookup(t: Tree, g: Scope, h: Heap, profileName: string, shortcutName: string, fuel: nat): (st: Step<Option<Shortcut>>)
    requires t.Valid() && g.In(|h|)
  {
    var all := VirtualShortcuts(t, g, h, profileName, fuel);
    if all.r.Err? then Step(Err(all.r.error), all.heap)
    else match FirstNamed(all.r.value, shortcutName)
      case None => Step(Ok(None), all.heap)
      case Some(k) =>
        var m := Materialized(t, all.r.value[k], all.heap, fuel);
        if m.r.Err? then Step(Err(m.r.error), m.heap) else Step(Ok(Some(m.r.value)), m.heap)
  }

  /** `vs[k..]` materialized in order, appended to `acc`. */
  function MaterializedAll(t: Tree, vs: seq<VirtualShortcut>, k: nat, h: Heap, acc: seq<Shortcut>, fuel: nat): (st: Step<seq<Shortcut>>)
    requires t.Valid() && k <= |vs| && AllIn(t, vs, |h|)
    ensures |st.heap| == |h|
    ensures st.r.Ok? ==> |st.r.value| == |acc| + |vs| - k && acc <= st.r.value
    decreases |vs| - k
  {
    if k == |vs| then Step(Ok(acc), h)
    else
      var m := Materialized(t, vs[k], h, fuel);
      if m.r.Err? then Step(Err(m.r.error), m.heap)
      else MaterializedAll(t, vs, k + 1, m.heap, acc + [m.r.value], fuel)
  }

  /** `GetAllShortcuts(profileName)`, enumerated to the end. */
  function AllShortcuts(t: Tree, g: Scope, h: Heap, profileName: string, fuel: nat): (st: Step<seq<Shortcut>>)
    requires t.Valid() && g.In(|h|)
  {
    var all := VirtualShortcuts(t, g, h, profileName, fuel);
    if all.r.Err? then Step(Err(all.r.error), all.heap)
    else MaterializedAll(t, all.r.value, 0, all.heap, [], fuel)
  }

  /** The `XmlShortcutFile` constructor after loading: a new global collection receives the document element's Defines. */
  function Opened(t: Tree): (st: ScopeStep)
    requires t.Valid()
    ensures st.scope.In(|st.heap|)
  {
    WithMacros(t, Scope(None, None), [], t.documentElement)
  }

  // ---------------------------------------------------------------------
  // The walks under non-recursive names
  // ---------------------------------------------------------------------
  // A proof goal that names a recursive function lets the solver unfold it
  // and everything it calls; the recursive methods and the inductive lemmas
  // state "this is the rest of the walk" through these names instead.

  ghost function WithTemplateMacrosAt(t: Tree, s: Scope, h: Heap, node: NodeId, depth: nat, fuel: nat): ScopeStep
    requires t.Valid() && t.Has(node) && s.In(|h|)
  {
    WithTemplateMacros(t, s, h, node, depth, fuel)
  }

  ghost function ShortcutsAmongAt(t: Tree, s: Scope, h: Heap, nodes: seq<NodeId>, k: nat, acc: seq<VirtualShortcut>, fuel: nat): Step<seq<VirtualShortcut>>
    requires t.Valid() && k <= |nodes| && (forall i :: 0 <= i < |nodes| ==> nodes[i] < |t.nodes|) && s.In(|h|) && AllIn(t, acc, |h|)
  {
    ShortcutsAmong(t, s, h, nodes, k, acc, fuel)
  }

  ghost function ChainShortcutsAt(t: Tree, s: Scope, h: Heap, element: NodeId, acc: seq<VirtualShortcut>, depth: nat, fuel: nat): Step<seq<VirtualShortcut>>
    requires t.Valid() && t.Has(element) && s.In(|h|) && AllIn(t, acc, |h|)
  {
    ChainShortcuts(t, s, h, element, acc, depth, fuel)
  }

  ghost function ListsAmongAt(t: Tree, s: Scope, h: Heap, lists: seq<NodeId>, k: nat, acc: seq<VirtualShortcut>, fuel: nat): Step<seq<VirtualShortcut>>
    requires t.Valid() && k <= |lists| && (forall i :: 0 <= i < |lists| ==> lists[i] < |t.nodes|) && s.In(|h|) && AllIn(t, acc, |h|)
  {
    ListsAmong(t, s, h, lists, k, acc, fuel)
  }

  ghost function ChainListsAt(t: Tree, s: Scope, h: Heap, element: NodeId, acc: seq<VirtualShortcut>, depth: nat, fuel: nat): Step<seq<VirtualShortcut>>
    requires t.Valid() && t.Has(element) && s.In(|h|) && AllIn(t, acc, |h|)
  {
    ChainLists(t, s, h, element, acc, depth, fuel)
  }
}
