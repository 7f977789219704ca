/**
 * Which virtual shortcuts `GetAllVirtualShortcuts` returns, and in what
 * order (JRun/src/XmlShortcutFile.cs:134-219), stated on documents whose
 * `name` and `inherits` attributes hold no placeholder: there template
 * lookup and shortcut naming do not depend on the macros in scope, and the
 * result is a function of the document alone.
 */
module XmlShortcutOrder {
  import opened Wrappers
  import opened XmlTree
  import opened XmlMacro
  import opened XmlMacroProperties
  import opened XmlShortcutSpec
  import opened XmlShortcutProperties

  /** No `name` and no `inherits` attribute of the document holds a placeholder. */
  ghost predicate PlainDocument(t: Tree) {
    PlainNames(t) && forall n :: 0 <= n < |t.nodes| ==> PlainAttribute(t, n, "inherits")
  }

  /** The shortcut node of each virtual shortcut, in order. */
  function Nodes(vs: seq<VirtualShortcut>): (r: seq<NodeId>)
    ensures |r| == |vs| && forall k :: 0 <= k < |vs| ==> r[k] == vs[k].shortcutNode
  {
    if vs == [] then [] else [vs[0].shortcutNode] + Nodes(vs[1..])
  }

  lemma {:induction false} NodesAppend(a: seq<VirtualShortcut>, b: seq<VirtualShortcut>)
    ensures Nodes(a + b) == Nodes(a) + Nodes(b)
  {
    var l, r := Nodes(a + b), Nodes(a) + Nodes(b);
    assert |l| == |r|;
    forall k | 0 <= k < |l|
      ensures l[k] == r[k]
    {
      if k < |a| {
        assert (a + b)[k] == a[k];
      } else {
        assert (a + b)[k] == b[k - |a|];
      }
    }
  }

  /** The node has a `name` attribute that is not empty. */
  function HasName(t: Tree, n: NodeId): bool
    requires t.Has(n)
  {
    var a := GetAttributeValue(t.nodes[n], "name");
    a.Some? && a.value != ""
  }

  /** The nodes of `cs[k..]` that have a non-empty name, in order. */
  function Named(t: Tree, cs: seq<NodeId>, k: nat): (r: seq<NodeId>)
    requires k <= |cs| && forall i :: 0 <= i < |cs| ==> cs[i] < |t.nodes|
    ensures forall i :: 0 <= i < |r| ==> r[i] < |t.nodes| && HasName(t, r[i])
    decreases |cs| - k
  {
    if k == |cs| then []
    else (if HasName(t, cs[k]) then [cs[k]] else []) + Named(t, cs, k + 1)
  }

  /**
   * The template `GetNodeTemplate` finds on a plain document, as
   * TemplateOfPlain states: None where `inherits` is absent, and also where
   * the lookup throws (an empty `inherits`, no parent, no template found).
   */
  function PlainTemplate(t: Tree, node: NodeId): (r: Option<NodeId>)
    requires t.Valid() && t.Has(node)
    ensures r.Some? ==> t.Has(r.value)
  {
    match GetAttributeValue(t.nodes[node], "inherits")
    case None => None
    case Some(v) =>
      if v == "" || t.nodes[node].parent.None? then None
      else NearestTemplate(t, t.nodes[node].parent.value, v)
  }

  /** `NodeTemplateTree(node)` on a plain document: the node, then its templates, at most `depth` of them. */
  function PlainChain(t: Tree, node: NodeId, depth: nat): (c: seq<NodeId>)
    requires t.Valid() && t.Has(node)
    ensures |c| > 0 && c[0] == node && forall i :: 0 <= i < |c| ==> c[i] < |t.nodes|
    decreases depth
  {
    match PlainTemplate(t, node)
    case None => [node]
    case Some(n) => if depth == 0 then [node] else [node] + PlainChain(t, n, depth - 1)
  }

  /** The named Shortcut children of each element of `chain` in turn. */
  function ChainShortcutNodes(t: Tree, chain: seq<NodeId>): seq<NodeId>
    requires t.Valid() && forall i :: 0 <= i < |chain| ==> chain[i] < |t.nodes|
  {
    if chain == [] then []
    else Named(t, ChildrenNamed(t, chain[0], "Shortcut"), 0) + ChainShortcutNodes(t, chain[1..])
  }

  /** For each List of `lists[k..]` in turn, the named Shortcuts along its own chain. */
  function ListNodes(t: Tree, lists: seq<NodeId>, k: nat, depth: nat): seq<NodeId>
    requires t.Valid() && k <= |lists| && forall i :: 0 <= i < |lists| ==> lists[i] < |t.nodes|
    decreases |lists| - k
  {
    if k == |lists| then []
    else ChainShortcutNodes(t, PlainChain(t, lists[k], depth)) + ListNodes(t, lists, k + 1, depth)
  }

  /** For each element of `chain` in turn, the shortcuts of its Lists. */
  function ChainListNodes(t: Tree, chain: seq<NodeId>, depth: nat): seq<NodeId>
    requires t.Valid() && forall i :: 0 <= i < |chain| ==> chain[i] < |t.nodes|
  {
    if chain == [] then []
    else ListNodes(t, ChildrenNamed(t, chain[0], "List"), 0, depth) + ChainListNodes(t, chain[1..], depth)
  }

  /** The shortcut nodes of a profile: the Shortcuts along its chain, then those of the Lists along its chain. */
  function ProfileNodes(t: Tree, profile: NodeId, fuel: nat): seq<NodeId>
    requires t.Valid() && t.Has(profile)
  {
    var c := PlainChain(t, profile, fuel);
    ChainShortcutNodes(t, c) + ChainListNodes(t, c, fuel)
  }

  // ---------------------------------------------------------------------
  // The walks, on a plain document
  // ---------------------------------------------------------------------

  /** On a plain document, a Shortcut node becomes a virtual shortcut exactly when it has a non-empty name. */
  lemma PlainShortcut(t: Tree, s: Scope, h: Heap, n: NodeId, fuel: nat)
    requires t.Valid() && t.Has(n) && s.In(|h|) && PlainDocument(t)
    ensures var v := VirtualShortcutOf(t, s, h, n, n, fuel);
            v.r.Ok? ==> (v.r.value.Some? <==> HasName(t, n)) && (v.r.value.Some? ==> v.r.value.value.shortcutNode == n)
  {
    VirtualShortcutShape(t, s, h, n, n, fuel);
    var a := GetAttributeValue(t.nodes[n], "name");
    if a.Some? {
      assert PlainName(t, n);
      ExpandPlain(s.macros, h, a.value, fuel);
    }
  }

  /**
   * One Shortcut node of `ShortcutsAmong` on a plain document: either the
   * walk ends at `nodes[k]`, or (`more`) it goes on from `nodes[k + 1]`
   * with the node's shortcut appended to `acc` when it is named.
   */
  lemma ShortcutNodesParts(t: Tree, s: Scope, h: Heap, nodes: seq<NodeId>, k: nat, acc: seq<VirtualShortcut>, fuel: nat,
                           st: Step<seq<VirtualShortcut>>)
    returns (more: bool, h': Heap, acc': seq<VirtualShortcut>)
    requires t.Valid() && k <= |nodes| && (forall i :: 0 <= i < |nodes| ==> nodes[i] < |t.nodes|) && s.In(|h|) && AllIn(t, acc, |h|)
    requires PlainDocument(t)
    requires st == ShortcutsAmongAt(t, s, h, nodes, k, acc, fuel)
    ensures more ==> k < |nodes| && s.In(|h'|) && AllIn(t, acc', |h'|)
    ensures more ==> st == ShortcutsAmongAt(t, s, h', nodes, k + 1, acc', fuel)
    ensures more && st.r.Ok? && Nodes(st.r.value) == Nodes(acc') + Named(t, nodes, k + 1) ==>
              Nodes(st.r.value) == Nodes(acc) + Named(t, nodes, k)
    ensures !more && st.r.Ok? ==> Nodes(st.r.value) == Nodes(acc) + Named(t, nodes, k)
  {
    more, h', acc' := false, h, acc;
    if k < |nodes| {
      var v := VirtualShortcutOf(t, s, h, nodes[k], nodes[k], fuel);
      PlainShortcut(t, s, h, nodes[k], fuel);
      if v.r.Ok? {
        AllInGrows(t, acc, |h|, |v.heap|);
        InGrows(s, |h|, |v.heap|);
        var one := if v.r.value.Some? then [v.r.value.value] else [];
        more, h', acc' := true, v.heap, acc + one;
        NodesAppend(acc, one);
        var mine := if HasName(t, nodes[k]) then [nodes[k]] else [];
        assert Nodes(one) == mine;
        Associative(Nodes(acc), mine, Named(t, nodes, k + 1));
      }
    } else {
      Associative(Nodes(acc), [], []);
    }
  }

  /** `st` is the walk over the Shortcut nodes `nodes[k..]`; a successful one appends exactly the named ones, in order. */
  lemma {:induction false} ShortcutsAmongNodes(t: Tree, s: Scope, h: Heap, nodes: seq<NodeId>, k: nat, acc: seq<VirtualShortcut>, fuel: nat,
                                               st: Step<seq<VirtualShortcut>>)
    requires t.Valid() && k <= |nodes| && (forall i :: 0 <= i < |nodes| ==> nodes[i] < |t.nodes|) && s.In(|h|) && AllIn(t, acc, |h|)
    requires PlainDocument(t)
    requires st == ShortcutsAmongAt(t, s, h, nodes, k, acc, fuel)
    ensures st.r.Ok? ==> Nodes(st.r.value) == Nodes(acc) + Named(t, nodes, k)
    decreases |nodes| - k
  {
    var more, h', acc' := ShortcutNodesParts(t, s, h, nodes, k, acc, fuel, st);
    if more {
      ShortcutsAmongNodes(t, s, h', nodes, k + 1, acc', fuel, st);
    }
  }

  /** On a plain document, a template lookup that succeeds finds `PlainTemplate`, and no lookup allocates. */
  lemma PlainTemplateOf(t: Tree, s: Scope, h: Heap, node: NodeId, fuel: nat)
    requires t.Valid() && t.Has(node) && s.In(|h|) && PlainDocument(t)
    ensures TemplateOf(t, s, h, node, fuel).heap == h
    ensures TemplateOf(t, s, h, node, fuel).r.Ok? ==> TemplateOf(t, s, h, node, fuel).r.value == PlainTemplate(t, node)
  {
    TemplateOfPlain(t, s, h, node, fuel);
  }

  /**
   * One element of `ChainShortcuts` on a plain document: either the walk
   * ends at `element`, or (`more`) it goes on from its template `e'` with
   * the element's named Shortcuts appended to `acc`.
   */
  lemma ShortcutsNodesParts(t: Tree, s: Scope, h: Heap, element: NodeId, acc: seq<VirtualShortcut>, depth: nat, fuel: nat,
                            whole: Step<seq<VirtualShortcut>>)
    returns (more: bool, h': Heap, e': NodeId, acc': seq<VirtualShortcut>)
    requires t.Valid() && t.Has(element) && s.In(|h|) && AllIn(t, acc, |h|) && PlainDocument(t)
    requires whole == ChainShortcutsAt(t, s, h, element, acc, depth, fuel)
    ensures more ==> depth > 0 && t.Has(e') && s.In(|h'|) && AllIn(t, acc', |h'|)
    ensures more ==> whole == ChainShortcutsAt(t, s, h', e', acc', depth - 1, fuel)
    ensures more && whole.r.Ok? && Nodes(whole.r.value) == Nodes(acc') + ChainShortcutNodes(t, PlainChain(t, e', depth - 1)) ==>
              Nodes(whole.r.value) == Nodes(acc) + ChainShortcutNodes(t, PlainChain(t, element, depth))
    ensures !more && whole.r.Ok? ==> Nodes(whole.r.value) == Nodes(acc) + ChainShortcutNodes(t, PlainChain(t, element, depth))
  {
    var cs := ChildrenNamed(t, element, "Shortcut");
    var here := ShortcutsAmong(t, s, h, cs, 0, acc, fuel);
    ShortcutsAmongNodes(t, s, h, cs, 0, acc, fuel, here);
    InGrows(s, |h|, |here.heap|);
    var next := TemplateOf(t, s, here.heap, element, fuel);
    PlainTemplateOf(t, s, here.heap, element, fuel);
    ShortcutsChainStep(t, s, h, element, acc, depth, fuel, here, next);
    more, h', e', acc' := false, h, element, acc;
    var mine := Named(t, cs, 0);
    if here.r.Ok? && next.r.Ok? && next.r.value.Some? && depth > 0 {
      more, h', e', acc' := true, next.heap, next.r.value.value, here.r.value;
      var rest := PlainChain(t, e', depth - 1);
      assert PlainChain(t, element, depth) == [element] + rest;
      ChainShortcutNodesCons(t, element, rest);
      Associative(Nodes(acc), mine, ChainShortcutNodes(t, rest));
    } else if whole.r.Ok? {
      assert PlainChain(t, element, depth) == [element];
      ChainShortcutNodesCons(t, element, []);
      Associative(Nodes(acc), mine, []);
    }
  }

  /** `st` is the walk over the chain from `element`; a successful one appends the named Shortcuts of every chain element, in chain order. */
  lemma {:induction false} ChainShortcutsNodes(t: Tree, s: Scope, h: Heap, element: NodeId, acc: seq<VirtualShortcut>, depth: nat, fuel: nat,
                                               st: Step<seq<VirtualShortcut>>)
    requires t.Valid() && t.Has(element) && s.In(|h|) && AllIn(t, acc, |h|) && PlainDocument(t)
    requires st == ChainShortcutsAt(t, s, h, element, acc, depth, fuel)
    ensures st.r.Ok? ==> Nodes(st.r.value) == Nodes(acc) + ChainShortcutNodes(t, PlainChain(t, element, depth))
    decreases depth
  {
    var more, h', e', acc' := ShortcutsNodesParts(t, s, h, element, acc, depth, fuel, st);
    if more {
      ChainShortcutsNodes(t, s, h', e', acc', depth - 1, fuel, st);
    }
  }

  /**
   * One List of `ListsAmong` on a plain document: either the walk ends at
   * `lists[k]`, or (`more`) it goes on from `lists[k + 1]` with the
   * shortcuts of the List's chain appended to `acc`.
   */
  lemma ListsNodesParts(t: Tree, s: Scope, h: Heap, lists: seq<NodeId>, k: nat, acc: seq<VirtualShortcut>, fuel: nat,
                        st: Step<seq<VirtualShortcut>>)
    returns (more: bool, h': Heap, acc': seq<VirtualShortcut>)
    requires t.Valid() && k <= |lists| && (forall i :: 0 <= i < |lists| ==> lists[i] < |t.nodes|) && s.In(|h|) && AllIn(t, acc, |h|)
    requires PlainDocument(t)
    requires st == ListsAmongAt(t, s, h, lists, k, acc, fuel)
    ensures more ==> k < |lists| && s.In(|h'|) && AllIn(t, acc', |h'|)
    ensures more ==> st == ListsAmongAt(t, s, h', lists, k + 1, acc', fuel)
    ensures more && st.r.Ok? && Nodes(st.r.value) == Nodes(acc') + ListNodes(t, lists, k + 1, fuel) ==>
              Nodes(st.r.value) == Nodes(acc) + ListNodes(t, lists, k, fuel)
    ensures !more && st.r.Ok? ==> Nodes(st.r.value) == Nodes(acc) + ListNodes(t, lists, k, fuel)
  {
    more, h', acc' := false, h, acc;
    if k < |lists| {
      var w := WithTemplateMacros(t, CopyScope(s), h, lists[k], fuel, fuel);
      if w.outcome.Pass? {
        AllInGrows(t, acc, |h|, |w.heap|);
        var sc := ChainShortcuts(t, w.scope, w.heap, lists[k], acc, fuel, fuel);
        ChainShortcutsNodes(t, w.scope, w.heap, lists[k], acc, fuel, fuel, sc);
        if sc.r.Ok? {
          InGrows(s, |h|, |sc.heap|);
          more, h', acc' := true, sc.heap, sc.r.value;
          Associative(Nodes(acc), ChainShortcutNodes(t, PlainChain(t, lists[k], fuel)), ListNodes(t, lists, k + 1, fuel));
        }
      }
    } else {
      Associative(Nodes(acc), [], []);
    }
  }

  /** `st` is the walk over the List nodes `lists[k..]`; a successful one appends the shortcuts of each List's chain, List by List. */
  lemma {:induction false} ListsAmongNodes(t: Tree, s: Scope, h: Heap, lists: seq<NodeId>, k: nat, acc: seq<VirtualShortcut>, fuel: nat,
                                           st: Step<seq<VirtualShortcut>>)
    requires t.Valid() && k <= |lists| && (forall i :: 0 <= i < |lists| ==> lists[i] < |t.nodes|) && s.In(|h|) && AllIn(t, acc, |h|)
    requires PlainDocument(t)
    requires st == ListsAmongAt(t, s, h, lists, k, acc, fuel)
    ensures st.r.Ok? ==> Nodes(st.r.value) == Nodes(acc) + ListNodes(t, lists, k, fuel)
    decreases |lists| - k
  {
    var more, h', acc' := ListsNodesParts(t, s, h, lists, k, acc, fuel, st);
    if more {
      ListsAmongNodes(t, s, h', lists, k + 1, acc', fuel, st);
    }
  }

  /**
   * One element of `ChainLists` on a plain document: either the walk ends
   * at `element`, or (`more`) it goes on from its template `e'` with the
   * shortcuts of the element's Lists appended to `acc`.
   */
  lemma ListsChainNodesParts(t: Tree, s: Scope, h: Heap, element: NodeId, acc: seq<VirtualShortcut>, depth: nat, fuel: nat,
                             whole: Step<seq<VirtualShortcut>>)
    returns (more: bool, h': Heap, e': NodeId, acc': seq<VirtualShortcut>)
    requires t.Valid() && t.Has(element) && s.In(|h|) && AllIn(t, acc, |h|) && PlainDocument(t)
    requires whole == ChainListsAt(t, s, h, element, acc, depth, fuel)
    ensures more ==> depth > 0 && t.Has(e') && s.In(|h'|) && AllIn(t, acc', |h'|)
    ensures more ==> whole == ChainListsAt(t, s, h', e', acc', depth - 1, fuel)
    ensures more && whole.r.Ok? && Nodes(whole.r.value) == Nodes(acc') + ChainListNodes(t, PlainChain(t, e', depth - 1), fuel) ==>
              Nodes(whole.r.value) == Nodes(acc) + ChainListNodes(t, PlainChain(t, element, depth), fuel)
    ensures !more && whole.r.Ok? ==> Nodes(whole.r.value) == Nodes(acc) + ChainListNodes(t, PlainChain(t, element, depth), fuel)
  {
    var cs := ChildrenNamed(t, element, "List");
    var here := ListsAmong(t, s, h, cs, 0, acc, fuel);
    ListsAmongNodes(t, s, h, cs, 0, acc, fuel, here);
    InGrows(s, |h|, |here.heap|);
    var next := TemplateOf(t, s, here.heap, element, fuel);
    PlainTemplateOf(t, s, here.heap, element, fuel);
    ListsChainStep(t, s, h, element, acc, depth, fuel, here, next);
    more, h', e', acc' := false, h, element, acc;
    var mine := ListNodes(t, cs, 0, fuel);
    if here.r.Ok? && next.r.Ok? && next.r.value.Some? && depth > 0 {
      more, h', e', acc' := true, next.heap, next.r.value.value, here.r.value;
      var rest := PlainChain(t, e', depth - 1);
      assert PlainChain(t, element, depth) == [element] + rest;
      ChainListNodesCons(t, element, rest, fuel);
      Associative(Nodes(acc), mine, ChainListNodes(t, rest, fuel));
    } else if whole.r.Ok? {
      assert PlainChain(t, element, depth) == [element];
      ChainListNodesCons(t, element, [], fuel);
      Associative(Nodes(acc), mine, []);
    }
  }

  /** `st` is the walk over the Lists of the chain from `element`; a successful one appends the shortcuts of every chain element's Lists, in chain order. */
  lemma {:induction false} ChainListsNodes(t: Tree, s: Scope, h: Heap, element: NodeId, acc: seq<VirtualShortcut>, depth: nat, fuel: nat,
                                           st: Step<seq<VirtualShortcut>>)
    requires t.Valid() && t.Has(element) && s.In(|h|) && AllIn(t, acc, |h|) && PlainDocument(t)
    requires st == ChainListsAt(t, s, h, element, acc, depth, fuel)
    ensures st.r.Ok? ==> Nodes(st.r.value) == Nodes(acc) + ChainListNodes(t, PlainChain(t, element, depth), fuel)
    decreases depth
  {
    var more, h', e', acc' := ListsChainNodesParts(t, s, h, element, acc, depth, fuel, st);
    if more {
      ChainListsNodes(t, s, h', e', acc', depth - 1, fuel, st);
    }
  }

  /**
   * The selected profile on a plain document yields, in order, the named
   * Shortcuts along its template chain, then for each element of that
   * chain the shortcuts of its Lists, each List along its own chain.
   */
  lemma ProfileShortcutsNodes(t: Tree, g: Scope, h: Heap, profile: NodeId, fuel: nat, st: Step<seq<VirtualShortcut>>)
    requires t.Valid() && t.Has(profile) && g.In(|h|) && PlainDocument(t)
    requires st == ProfileShortcuts(t, g, h, profile, fuel)
    ensures st.r.Ok? ==> Nodes(st.r.value) == ProfileNodes(t, profile, fuel)
  {
    var w := WithTemplateMacros(t, CopyScope(g), h, profile, fuel, fuel);
    if w.outcome.Pass? {
      var direct := ChainShortcuts(t, w.scope, w.heap, profile, [], fuel, fuel);
      ChainShortcutsNodes(t, w.scope, w.heap, profile, [], fuel, fuel, direct);
      if direct.r.Ok? {
        InGrows(w.scope, |w.heap|, |direct.heap|);
        assert st == ChainListsAt(t, w.scope, direct.heap, profile, direct.r.value, fuel, fuel);
        ChainListsNodes(t, w.scope, direct.heap, profile, direct.r.value, fuel, fuel, st);
        var c := PlainChain(t, profile, fuel);
        assert Nodes([]) == [];
        Associative([], ChainShortcutNodes(t, c), []);
      }
    }
  }

  /**
   * What `GetAllVirtualShortcuts` returns on a plain document, when it
   * succeeds: nothing where no profile is picked, else exactly the
   * shortcut nodes `ProfileNodes` lists for the picked profile, in order.
   */
  lemma VirtualShortcutsOrder(t: Tree, g: Scope, h: Heap, profileName: string, fuel: nat)
    requires t.Valid() && g.In(|h|) && PlainDocument(t)
    ensures var st := VirtualShortcuts(t, g, h, profileName, fuel);
            var profiles := ChildrenNamed(t, t.documentElement, "Profile");
            st.r.Ok? ==>
              Nodes(st.r.value) == match FirstProfile(t, profiles, 0, profileName)
                                   case None => []
                                   case Some(j) => ProfileNodes(t, profiles[j], fuel)
  {
    var profiles := ChildrenNamed(t, t.documentElement, "Profile");
    ProfileSelection(t, g, h, profileName, fuel);
    match FirstProfile(t, profiles, 0, profileName)
    case None =>
    case Some(j) => ProfileShortcutsNodes(t, g, h, profiles[j], fuel, ProfileShortcuts(t, g, h, profiles[j], fuel));
  }

  lemma ChainListNodesCons(t: Tree, element: NodeId, rest: seq<NodeId>, depth: nat)
    requires t.Valid() && t.Has(element) && forall i :: 0 <= i < |rest| ==> rest[i] < |t.nodes|
    ensures ChainListNodes(t, [element] + rest, depth) == ListNodes(t, ChildrenNamed(t, element, "List"), 0, depth) + ChainListNodes(t, rest, depth)
  {
    assert ([element] + rest)[1..] == rest;
  }

  lemma ChainShortcutNodesCons(t: Tree, element: NodeId, rest: seq<NodeId>)
    requires t.Valid() && t.Has(element) && forall i :: 0 <= i < |rest| ==> rest[i] < |t.nodes|
    ensures ChainShortcutNodes(t, [element] + rest) == Named(t, ChildrenNamed(t, element, "Shortcut"), 0) + ChainShortcutNodes(t, rest)
  {
    assert ([element] + rest)[1..] == rest;
  }

  lemma Associative(a: seq<NodeId>, b: seq<NodeId>, c: seq<NodeId>)
    ensures a + b + c == a + (b + c) && a + [] == a && [] + b == b
  {
  }
}
