/**
 * Properties of shortcut resolution (JRun/src/XmlShortcutFile.cs): the
 * order and shape of the virtual-shortcut list, profile and template
 * selection by first match, own Defines overriding inherited ones, and
 * property lookup along the template chain.
 */
module XmlShortcutProperties {
  import opened Wrappers
  import opened Text
  import opened XmlTree
  import opened Errors
  import opened XmlMacro
  import opened XmlMacroProperties
  import opened XmlShortcutSpec

  // ---------------------------------------------------------------------
  // Order and shape of the virtual-shortcut list
  // ---------------------------------------------------------------------

  /** What every enumerated virtual shortcut looks like: a non-empty name, and a Shortcut node that is also its context. */
  ghost predicate WellFormed(t: Tree, v: VirtualShortcut) {
    && v.name != ""
    && v.contextNode == v.shortcutNode
    && t.Has(v.shortcutNode)
    && t.nodes[v.shortcutNode].name == "Shortcut"
  }

  /** `vs` keeps `acc` as its prefix and only appends well-formed shortcuts. */
  ghost predicate Extends(t: Tree, acc: seq<VirtualShortcut>, vs: seq<VirtualShortcut>) {
    acc <= vs && forall k :: |acc| <= k < |vs| ==> WellFormed(t, vs[k])
  }

  /**
   * `CreateVirtualShortcut`: a node whose `name` is missing or empty gives
   * none and touches nothing; otherwise an expansion error of the name
   * escapes unwrapped, a name that expands to "" gives none, a failure to
   * add the chain macros is passed on, and else the shortcut has the
   * expanded name, the given context and node, and the branched scope with
   * the node's chain macros.
   */
  lemma VirtualShortcutShape(t: Tree, s: Scope, h: Heap, context: NodeId, node: NodeId, fuel: nat)
    requires t.Valid() && t.Has(context) && t.Has(node) && s.In(|h|)
    ensures var st := VirtualShortcutOf(t, s, h, context, node, fuel);
            var nodeName := GetAttributeValue(t.nodes[node], "name");
            && (nodeName.None? || nodeName.value == "" ==> st == Step(Ok(None), h))
            && (st.r.Ok? && st.r.value.Some? ==>
                  var e := Expand(s.macros, h, nodeName.value, fuel);
                  && nodeName.Some? && e.r == Ok(st.r.value.value.name)
                  && st.r.value.value.name != ""
                  && st.r.value.value.contextNode == context
                  && st.r.value.value.shortcutNode == node
                  && st.r.value.value.macros == WithTemplateMacros(t, CopyScope(s), e.heap, node, fuel, fuel).scope)
    ensures var st := VirtualShortcutOf(t, s, h, context, node, fuel);
            var nodeName := GetAttributeValue(t.nodes[node], "name");
            nodeName.Some? && nodeName.value != "" ==>
              var e := Expand(s.macros, h, nodeName.value, fuel);
              && (e.r.Err? ==> st == Step(Err(e.r.error), e.heap))
              && (e.r.Ok? && e.r.value == "" ==> st == Step(Ok(None), e.heap))
              && (e.r.Ok? && e.r.value != "" ==>
                    var w := WithTemplateMacros(t, CopyScope(s), e.heap, node, fuel, fuel);
                    && (w.outcome.Fail? ==> st == Step(Err(w.outcome.error), w.heap))
                    && (w.outcome.Pass? ==> st == Step(Ok(Some(VirtualShortcut(e.r.value, context, node, w.scope))), w.heap)))
  {
  }

  lemma ShortcutChildren(t: Tree, element: NodeId)
    requires t.Valid() && t.Has(element)
    ensures forall i :: 0 <= i < |ChildrenNamed(t, element, "Shortcut")| ==>
              t.nodes[ChildrenNamed(t, element, "Shortcut")[i]].name == "Shortcut"
  {
    WithTagExactly(t, t.nodes[element].children, "Shortcut");
  }

  /** Appending well-formed shortcuts twice appends well-formed shortcuts. */
  lemma ExtendsTransitive(t: Tree, a: seq<VirtualShortcut>, b: seq<VirtualShortcut>, c: seq<VirtualShortcut>)
    requires Extends(t, a, b) && Extends(t, b, c)
    ensures Extends(t, a, c)
  {
    assert |a| <= |b|;
    forall k | |a| <= k < |c|
      ensures WellFormed(t, c[k])
    {
      if k < |b| {
        assert c[k] == b[k];
      }
    }
  }

  /**
   * The last step shared by the two chain walks: whatever `whole` the step
   * lemma reports, a successful one extends `acc` when the element's part
   * `here` does and the rest of the walk `rest` extends `here`.
   */
  lemma ChainStepExtends(t: Tree, acc: seq<VirtualShortcut>, depth: nat, here: Step<seq<VirtualShortcut>>, next: Step<Option<NodeId>>,
                         whole: Step<seq<VirtualShortcut>>, rest: Step<seq<VirtualShortcut>>)
    requires here.r.Ok? ==> Extends(t, acc, here.r.value)
    requires here.r.Err? ==> whole == here
    requires here.r.Ok? && next.r.Err? ==> whole == Step(Err(next.r.error), next.heap)
    requires here.r.Ok? && next.r.Ok? && next.r.value.None? ==> whole == Step(here.r, next.heap)
    requires here.r.Ok? && next.r.Ok? && next.r.value.Some? && depth == 0 ==> whole == Step(Err(OutOfFuel), next.heap)
    requires here.r.Ok? && next.r.Ok? && next.r.value.Some? && depth > 0 ==>
               whole == rest && (rest.r.Ok? ==> Extends(t, here.r.value, rest.r.value))
    ensures whole.r.Ok? ==> Extends(t, acc, whole.r.value)
  {
    if here.r.Ok? && next.r.Ok? && next.r.value.Some? && depth > 0 && rest.r.Ok? {
      ExtendsTransitive(t, acc, here.r.value, rest.r.value);
    }
  }

  /** `st` is the walk over the Shortcut nodes `nodes[k..]`; a successful one only appends well-formed shortcuts to `acc`. */
  lemma {:induction false} ShortcutsAmongExtends(t: Tree, s: Scope, h: Heap, nodes: seq<NodeId>, k: nat, acc: seq<VirtualShortcut>, fuel: nat,
                                                 st: Step<seq<VirtualShortcut>>)
    requires t.Valid() && k <= |nodes| && (forall i :: 0 <= i < |nodes| ==> nodes[i] < |t.nodes|) && s.In(|h|) && AllIn(t, acc, |h|)
    requires forall i :: 0 <= i < |nodes| ==> t.nodes[nodes[i]].name == "Shortcut"
    requires st == ShortcutsAmongAt(t, s, h, nodes, k, acc, fuel)
    ensures st.r.Ok? ==> Extends(t, acc, st.r.value)
    decreases |nodes| - k
  {
    if k < |nodes| {
      var v := VirtualShortcutOf(t, s, h, nodes[k], nodes[k], fuel);
      VirtualShortcutShape(t, s, h, nodes[k], nodes[k], fuel);
      if v.r.Ok? {
        AllInGrows(t, acc, |h|, |v.heap|);
        InGrows(s, |h|, |v.heap|);
        var acc' := acc + if v.r.value.Some? then [v.r.value.value] else [];
        assert Extends(t, acc, acc');
        assert st == ShortcutsAmongAt(t, s, v.heap, nodes, k + 1, acc', fuel);
        ShortcutsAmongExtends(t, s, v.heap, nodes, k + 1, acc', fuel, st);
        if st.r.Ok? {
          ExtendsTransitive(t, acc, acc', st.r.value);
        }
      }
    }
  }

  /**
   * One element of `ChainShortcuts`: either the walk ends at `element` (and a
   * successful end extends `acc`), or (`more`) it goes on from the template
   * `e'` with the shortcuts `acc'` collected so far, which extend `acc`.
   */
  lemma ShortcutsChainParts(t: Tree, s: Scope, h: Heap, element: NodeId, acc: seq<VirtualShortcut>, depth: nat, fuel: nat,
                         whole: Step<seq<VirtualShortcut>>)
    returns (more: bool, h': Heap, e': NodeId, acc': seq<VirtualShortcut>)
    requires t.Valid() && t.Has(element) && s.In(|h|) && AllIn(t, acc, |h|)
    requires whole == ChainShortcutsAt(t, s, h, element, acc, depth, fuel)
    ensures more ==> depth > 0 && t.Has(e') && s.In(|h'|) && AllIn(t, acc', |h'|)
    ensures more ==> whole == ChainShortcutsAt(t, s, h', e', acc', depth - 1, fuel)
    ensures more && (whole.r.Ok? ==> Extends(t, acc', whole.r.value)) ==> (whole.r.Ok? ==> Extends(t, acc, whole.r.value))
    ensures !more ==> (whole.r.Ok? ==> Extends(t, acc, whole.r.value))
  {
    var cs := ChildrenNamed(t, element, "Shortcut");
    ShortcutChildren(t, element);
    var here := ShortcutsAmong(t, s, h, cs, 0, acc, fuel);
    ShortcutsAmongExtends(t, s, h, cs, 0, acc, fuel, here);
    InGrows(s, |h|, |here.heap|);
    var next := TemplateOf(t, s, here.heap, element, fuel);
    ShortcutsChainStep(t, s, h, element, acc, depth, fuel, here, next);
    more, h', e', acc' := false, h, element, acc;
    if here.r.Ok? && next.r.Ok? && next.r.value.Some? && depth > 0 {
      more, h', e', acc' := true, next.heap, next.r.value.value, here.r.value;
      if whole.r.Ok? && Extends(t, acc', whole.r.value) {
        ExtendsTransitive(t, acc, acc', whole.r.value);
      }
    } else {
      ChainStepExtends(t, acc, depth, here, next, whole, whole);
    }
  }

  /** `st` is the walk over the chain from `element`; a successful one only appends well-formed shortcuts to `acc`. */
  lemma {:induction false} ChainShortcutsExtends(t: Tree, s: Scope, h: Heap, element: NodeId, acc: seq<VirtualShortcut>, depth: nat, fuel: nat,
                                             st: Step<seq<VirtualShortcut>>)
    requires t.Valid() && t.Has(element) && s.In(|h|) && AllIn(t, acc, |h|)
    requires st == ChainShortcutsAt(t, s, h, element, acc, depth, fuel)
    ensures st.r.Ok? ==> Extends(t, acc, st.r.value)
    decreases depth
  {
    var more, h', e', acc' := ShortcutsChainParts(t, s, h, element, acc, depth, fuel, st);
    if more {
      ChainShortcutsExtends(t, s, h', e', acc', depth - 1, fuel, st);
    }
  }


  /**
   * One List of `ListsAmong`: either the walk ends at `lists[k]` (and a
   * successful end extends `acc`), or (`more`) it goes on from `lists[k + 1]`
   * with the shortcuts `acc'` collected so far, which extend `acc`.
   */
  lemma ListsAmongParts(t: Tree, s: Scope, h: Heap, lists: seq<NodeId>, k: nat, acc: seq<VirtualShortcut>, fuel: nat,
                        st: Step<seq<VirtualShortcut>>)
    returns (more: bool, h': Heap, acc': seq<VirtualShortcut>)
    requires t.Valid() && k <= |lists| && (forall i :: 0 <= i < |lists| ==> lists[i] < |t.nodes|) && s.In(|h|) && AllIn(t, acc, |h|)
    requires st == ListsAmongAt(t, s, h, lists, k, acc, fuel)
    ensures more ==> k < |lists| && s.In(|h'|) && AllIn(t, acc', |h'|) && Extends(t, acc, acc')
    ensures more ==> st == ListsAmongAt(t, s, h', lists, k + 1, acc', fuel)
    ensures !more ==> (st.r.Ok? ==> Extends(t, acc, st.r.value))
  {
    more, h', acc' := false, h, acc;
    if k < |lists| {
      var w := WithTemplateMacros(t, CopyScope(s), h, lists[k], fuel, fuel);
      if w.outcome.Pass? {
        AllInGrows(t, acc, |h|, |w.heap|);
        var sc := ChainShortcuts(t, w.scope, w.heap, lists[k], acc, fuel, fuel);
        ChainShortcutsExtends(t, w.scope, w.heap, lists[k], acc, fuel, fuel, sc);
        if sc.r.Ok? {
          InGrows(s, |h|, |sc.heap|);
          more, h', acc' := true, sc.heap, sc.r.value;
        }
      }
    }
  }

  /** `st` is the walk over the List nodes `lists[k..]`; a successful one only appends well-formed shortcuts to `acc`. */
  lemma {:induction false} ListsAmongExtends(t: Tree, s: Scope, h: Heap, lists: seq<NodeId>, k: nat, acc: seq<VirtualShortcut>, fuel: nat,
                                             st: Step<seq<VirtualShortcut>>)
    requires t.Valid() && k <= |lists| && (forall i :: 0 <= i < |lists| ==> lists[i] < |t.nodes|) && s.In(|h|) && AllIn(t, acc, |h|)
    requires st == ListsAmongAt(t, s, h, lists, k, acc, fuel)
    ensures st.r.Ok? ==> Extends(t, acc, st.r.value)
    decreases |lists| - k
  {
    var more, h', acc' := ListsAmongParts(t, s, h, lists, k, acc, fuel, st);
    if more {
      ListsAmongExtends(t, s, h', lists, k + 1, acc', fuel, st);
      if st.r.Ok? {
        ExtendsTransitive(t, acc, acc', st.r.value);
      }
    }
  }

  /**
   * One element of `ChainLists`: either the walk ends at `element` (and a
   * successful end extends `acc`), or (`more`) it goes on from the template
   * `e'` with the shortcuts `acc'` collected so far, which extend `acc`.
   */
  lemma ListsChainParts(t: Tree, s: Scope, h: Heap, element: NodeId, acc: seq<VirtualShortcut>, depth: nat, fuel: nat,
                         whole: Step<seq<VirtualShortcut>>)
    returns (more: bool, h': Heap, e': NodeId, acc': seq<VirtualShortcut>)
    requires t.Valid() && t.Has(element) && s.In(|h|) && AllIn(t, acc, |h|)
    requires whole == ChainLists(t, s, h, element, acc, depth, fuel)
    ensures more ==> depth > 0 && t.Has(e') && s.In(|h'|) && AllIn(t, acc', |h'|)
    ensures more ==> whole == ChainListsAt(t, s, h', e', acc', depth - 1, fuel)
    ensures more && (whole.r.Ok? ==> Extends(t, acc', whole.r.value)) ==> (whole.r.Ok? ==> Extends(t, acc, whole.r.value))
    ensures !more ==> (whole.r.Ok? ==> Extends(t, acc, whole.r.value))
  {
    var cs := ChildrenNamed(t, element, "List");
    var here := ListsAmong(t, s, h, cs, 0, acc, fuel);
    ListsAmongExtends(t, s, h, cs, 0, acc, fuel, here);
    InGrows(s, |h|, |here.heap|);
    var next := TemplateOf(t, s, here.heap, element, fuel);
    ListsChainStep(t, s, h, element, acc, depth, fuel, here, next);
    more, h', e', acc' := false, h, element, acc;
    if here.r.Ok? && next.r.Ok? && next.r.value.Some? && depth > 0 {
      more, h', e', acc' := true, next.heap, next.r.value.value, here.r.value;
      if whole.r.Ok? && Extends(t, acc', whole.r.value) {
        ExtendsTransitive(t, acc, acc', whole.r.value);
      }
    } else {
      ChainStepExtends(t, acc, depth, here, next, whole, whole);
    }
  }

  /** `st` is the walk over the Lists of the chain from `element`; a successful one only appends well-formed shortcuts to `acc`. */
  lemma {:induction false} ChainListsExtends(t: Tree, s: Scope, h: Heap, element: NodeId, acc: seq<VirtualShortcut>, depth: nat, fuel: nat,
                                             st: Step<seq<VirtualShortcut>>)
    requires t.Valid() && t.Has(element) && s.In(|h|) && AllIn(t, acc, |h|)
    requires st == ChainListsAt(t, s, h, element, acc, depth, fuel)
    ensures st.r.Ok? ==> Extends(t, acc, st.r.value)
    decreases depth
  {
    var more, h', e', acc' := ListsChainParts(t, s, h, element, acc, depth, fuel, st);
    if more {
      ChainListsExtends(t, s, h', e', acc', depth - 1, fuel, st);
    }
  }


  /**
   * For the selected profile, the Shortcuts of its own template chain come
   * first, then those of its Lists; every one is well formed.
   */
  lemma DirectShortcutsFirst(t: Tree, g: Scope, h: Heap, profile: NodeId, fuel: nat)
    requires t.Valid() && t.Has(profile) && g.In(|h|)
    ensures var st := ProfileShortcuts(t, g, h, profile, fuel);
            st.r.Ok? ==>
              var w := WithTemplateMacros(t, CopyScope(g), h, profile, fuel, fuel);
              && w.outcome.Pass?
              && var direct := ChainShortcuts(t, w.scope, w.heap, profile, [], fuel, fuel);
              && direct.r.Ok?
              && direct.r.value <= st.r.value
              && forall k :: 0 <= k < |st.r.value| ==> WellFormed(t, st.r.value[k])
  {
    var w := WithTemplateMacros(t, CopyScope(g), h, profile, fuel, fuel);
    if w.outcome.Pass? {
      var direct := ChainShortcuts(t, w.scope, w.heap, profile, [], fuel, fuel);
      ChainShortcutsExtends(t, w.scope, w.heap, profile, [], fuel, fuel, direct);
      if direct.r.Ok? {
        InGrows(w.scope, |w.heap|, |direct.heap|);
        ChainListsExtends(t, w.scope, direct.heap, profile, direct.r.value, fuel, fuel, ChainListsAt(t, w.scope, direct.heap, profile, direct.r.value, fuel, fuel));
      }
    }
  }

  lemma {:induction false} ProfileScanWellFormed(t: Tree, g: Scope, h: Heap, profiles: seq<NodeId>, k: nat, profileName: string, fuel: nat,
                                                 st: Step<seq<VirtualShortcut>>)
    requires t.Valid() && k <= |profiles| && (forall i :: 0 <= i < |profiles| ==> profiles[i] < |t.nodes|) && g.In(|h|)
    requires st == ProfileScan(t, g, h, profiles, k, profileName, fuel)
    ensures st.r.Ok? ==> forall i :: 0 <= i < |st.r.value| ==> WellFormed(t, st.r.value[i])
    decreases |profiles| - k
  {
    if k < |profiles| {
      if profileName == "" {
        DirectShortcutsFirst(t, g, h, profiles[k], fuel);
      } else {
        var m := AttributeMatches(t, g, h, profiles[k], "name", profileName, fuel);
        if m.r.Ok? {
          if m.r.value {
            DirectShortcutsFirst(t, g, m.heap, profiles[k], fuel);
          } else {
            assert st == ProfileScan(t, g, m.heap, profiles, k + 1, profileName, fuel);
            ProfileScanWellFormed(t, g, m.heap, profiles, k + 1, profileName, fuel, st);
          }
        }
      }
    }
  }

  /** Every virtual shortcut `GetAllVirtualShortcuts` returns has a non-empty name and is a Shortcut node that is its own context. */
  lemma VirtualShortcutsWellFormed(t: Tree, g: Scope, h: Heap, profileName: string, fuel: nat)
    requires t.Valid() && g.In(|h|)
    ensures var st := VirtualShortcuts(t, g, h, profileName, fuel);
            st.r.Ok? ==> forall i :: 0 <= i < |st.r.value| ==> WellFormed(t, st.r.value[i])
  {
    var profiles := ChildrenNamed(t, t.documentElement, "Profile");
    ProfileScanWellFormed(t, g, h, profiles, 0, profileName, fuel, ProfileScan(t, g, h, profiles, 0, profileName, fuel));
  }

  /** The list is built in full before the lookup: an error anywhere in the profile fails `GetShortcut` for every name. */
  lemma LookupIsEager(t: Tree, g: Scope, h: Heap, profileName: string, shortcutName: string, fuel: nat)
    requires t.Valid() && g.In(|h|)
    ensures var all := VirtualShortcuts(t, g, h, profileName, fuel);
            all.r.Err? ==> ShortcutLookup(t, g, h, profileName, shortcutName, fuel) == Step(Err(all.r.error), all.heap)
  {
  }

  // ---------------------------------------------------------------------
  // Selection by plain names
  // ---------------------------------------------------------------------

  /** The node's `name` attribute, where present, holds no placeholder, so expanding it changes nothing. */
  ghost predicate PlainName(t: Tree, n: NodeId)
    requires t.Has(n)
  {
    var a := GetAttributeValue(t.nodes[n], "name");
    a.Some? ==> NoPlaceholder(a.value, true) && NoPlaceholder(a.value, false)
  }

  ghost predicate PlainNames(t: Tree) {
    forall n :: 0 <= n < |t.nodes| ==> PlainName(t, n)
  }

  /** The node's `name` attribute is present and equals `v` ignoring case. */
  function NameIs(t: Tree, n: NodeId, v: string): bool
    requires t.Has(n)
  {
    var a := GetAttributeValue(t.nodes[n], "name");
    a.Some? && EqualsIgnoreCase(a.value, v)
  }

  /** With a plain name, `AttributeValueMatches(node, macros, "name", v)` compares the raw attribute and touches no value. */
  lemma PlainMatch(t: Tree, s: Scope, h: Heap, n: NodeId, v: string, fuel: nat)
    requires t.Valid() && t.Has(n) && s.In(|h|) && PlainName(t, n)
    ensures AttributeMatches(t, s, h, n, "name", v, fuel) == Step(Ok(NameIs(t, n, v)), h)
  {
    var a := GetAttributeValue(t.nodes[n], "name");
    if a.Some? {
      ExpandPlain(s.macros, h, a.value, fuel);
    }
  }

  /** The first of `cs[k..]` named `v` ignoring case. */
  function FirstNamedChild(t: Tree, cs: seq<NodeId>, k: nat, v: string): (r: Option<NodeId>)
    requires k <= |cs| && forall i :: 0 <= i < |cs| ==> cs[i] < |t.nodes|
    ensures r.Some? ==> exists i :: k <= i < |cs| && cs[i] == r.value && NameIs(t, r.value, v)
                          && forall j :: k <= j < i ==> !NameIs(t, cs[j], v)
    ensures r.None? ==> forall i :: k <= i < |cs| ==> !NameIs(t, cs[i], v)
    decreases |cs| - k
  {
    if k == |cs| then None
    else if NameIs(t, cs[k], v) then Some(cs[k])
    else FirstNamedChild(t, cs, k + 1, v)
  }

  /** The nearest template named `v`: among the children of `start`, then of its parent, and so on up to the root. */
  function NearestTemplate(t: Tree, start: NodeId, v: string): (r: Option<NodeId>)
    requires t.Valid() && t.Has(start)
    ensures r.Some? ==> t.Has(r.value) && NameIs(t, r.value, v)
    ensures FirstNamedChild(t, t.nodes[start].children, 0, v).Some? ==> r == FirstNamedChild(t, t.nodes[start].children, 0, v)
    decreases start
  {
    match FirstNamedChild(t, t.nodes[start].children, 0, v)
    case Some(c) => Some(c)
    case None =>
      if t.nodes[start].parent.None? then None
      else NearestTemplate(t, t.nodes[start].parent.value, v)
  }

  lemma {:induction false} SearchChildrenPlain(t: Tree, s: Scope, h: Heap, cs: seq<NodeId>, k: nat, v: string, fuel: nat)
    requires t.Valid() && k <= |cs| && (forall i :: 0 <= i < |cs| ==> cs[i] < |t.nodes|) && s.In(|h|) && PlainNames(t)
    ensures SearchChildren(t, s, h, cs, k, v, fuel) == Step(Ok(FirstNamedChild(t, cs, k, v)), h)
    decreases |cs| - k
  {
    if k < |cs| {
      PlainMatch(t, s, h, cs[k], v, fuel);
      if !NameIs(t, cs[k], v) {
        SearchChildrenPlain(t, s, h, cs, k + 1, v, fuel);
      }
    }
  }

  /**
   * `FindTemplate` on plain names is the nearest-ancestor search: the first
   * matching child of the start node, else of its parent, and so on,
   * None at the root.
   */
  lemma {:induction false} TemplateSearchPlain(t: Tree, s: Scope, h: Heap, start: NodeId, v: string, fuel: nat)
    requires t.Valid() && t.Has(start) && s.In(|h|) && PlainNames(t)
    ensures TemplateSearch(t, s, h, start, v, fuel) == Step(Ok(NearestTemplate(t, start, v)), h)
    decreases start
  {
    assert forall i :: 0 <= i < |t.nodes[start].children| ==> t.nodes[start].children[i] < |t.nodes|;
    SearchChildrenPlain(t, s, h, t.nodes[start].children, 0, v, fuel);
    if FirstNamedChild(t, t.nodes[start].children, 0, v).None? && t.nodes[start].parent.Some? {
      TemplateSearchPlain(t, s, h, t.nodes[start].parent.value, v, fuel);
    }
  }

  /** The node's attribute `a`, where present, holds no placeholder of either kind. */
  ghost predicate PlainAttribute(t: Tree, n: NodeId, a: string)
    requires t.Has(n)
  {
    var v := GetAttributeValue(t.nodes[n], a);
    v.Some? ==> NoPlaceholder(v.value, true) && NoPlaceholder(v.value, false)
  }

  /**
   * `GetNodeTemplate` on plain names: no `inherits` gives no template; an
   * empty one, or one that names no template among the ancestors'
   * children, throws "Could not find template" at the node; a parentless
   * node dereferences null; otherwise the nearest template of that name.
   */
  lemma TemplateOfPlain(t: Tree, s: Scope, h: Heap, node: NodeId, fuel: nat)
    requires t.Valid() && t.Has(node) && s.In(|h|) && PlainNames(t) && PlainAttribute(t, node, "inherits")
    ensures TemplateOf(t, s, h, node, fuel) ==
            match GetAttributeValue(t.nodes[node], "inherits")
            case None => Step(Ok(None), h)
            case Some(v) =>
              if v == "" then Step(Err(XmlError(node, TemplateNotFound(""), None)), h)
              else if t.nodes[node].parent.None? then Step(Err(NullReference), h)
              else match NearestTemplate(t, t.nodes[node].parent.value, v)
                case None => Step(Err(XmlError(node, TemplateNotFound(v), None)), h)
                case Some(tpl) => Step(Ok(Some(tpl)), h)
  {
    var a := GetAttributeValue(t.nodes[node], "inherits");
    if a.Some? {
      ExpandPlain(s.macros, h, a.value, fuel);
      if a.value != "" && t.nodes[node].parent.Some? {
        TemplateSearchPlain(t, s, h, t.nodes[node].parent.value, a.value, fuel);
      }
    }
  }

  /** The profile the loop of `GetAllVirtualShortcuts` picks from `profiles[k..]` on plain names: the first, or with a filter the first named by it. */
  function FirstProfile(t: Tree, profiles: seq<NodeId>, k: nat, profileName: string): (r: Option<nat>)
    requires k <= |profiles| && forall i :: 0 <= i < |profiles| ==> profiles[i] < |t.nodes|
    ensures r.Some? ==> k <= r.value < |profiles|
    ensures profileName == "" ==> r == if k < |profiles| then Some(k) else None
    ensures profileName != "" && r.Some? ==> NameIs(t, profiles[r.value], profileName)
                                              && forall j :: k <= j < r.value ==> !NameIs(t, profiles[j], profileName)
    ensures profileName != "" && r.None? ==> forall j :: k <= j < |profiles| ==> !NameIs(t, profiles[j], profileName)
    decreases |profiles| - k
  {
    if k == |profiles| then None
    else if profileName == "" || NameIs(t, profiles[k], profileName) then Some(k)
    else FirstProfile(t, profiles, k + 1, profileName)
  }

  lemma {:induction false} ProfileScanPlain(t: Tree, g: Scope, h: Heap, profiles: seq<NodeId>, k: nat, profileName: string, fuel: nat)
    requires t.Valid() && k <= |profiles| && (forall i :: 0 <= i < |profiles| ==> profiles[i] < |t.nodes|) && g.In(|h|) && PlainNames(t)
    ensures ProfileScan(t, g, h, profiles, k, profileName, fuel) ==
            match FirstProfile(t, profiles, k, profileName)
            case None => Step(Ok([]), h)
            case Some(j) => ProfileShortcuts(t, g, h, profiles[j], fuel)
    decreases |profiles| - k
  {
    if k < |profiles| && profileName != "" {
      PlainMatch(t, g, h, profiles[k], profileName, fuel);
      if !NameIs(t, profiles[k], profileName) {
        ProfileScanPlain(t, g, h, profiles, k + 1, profileName, fuel);
      }
    }
  }

  /**
   * At most one profile is processed: on plain names, the first root
   * Profile whose name equals the filter ignoring case (the first Profile
   * for an empty filter); none matching gives an empty list.
   */
  lemma ProfileSelection(t: Tree, g: Scope, h: Heap, profileName: string, fuel: nat)
    requires t.Valid() && g.In(|h|) && PlainNames(t)
    ensures var profiles := ChildrenNamed(t, t.documentElement, "Profile");
            VirtualShortcuts(t, g, h, profileName, fuel) ==
            match FirstProfile(t, profiles, 0, profileName)
            case None => Step(Ok([]), h)
            case Some(j) => ProfileShortcuts(t, g, h, profiles[j], fuel)
  {
    ProfileScanPlain(t, g, h, ChildrenNamed(t, t.documentElement, "Profile"), 0, profileName, fuel);
  }

  // ---------------------------------------------------------------------
  // Own Defines override inherited ones
  // ---------------------------------------------------------------------

  /** `AddMacros(node)` that succeeds: a name the node defines resolves to the fresh cell of its last Define of that name. */
  lemma MacrosOverride(t: Tree, s: Scope, h: Heap, node: NodeId, n: string, k: nat)
    requires t.Valid() && t.Has(node) && s.In(|h|)
    ensures var st := WithMacros(t, s, h, node);
            var defs := ChildrenNamed(t, node, "Define");
            st.outcome.Pass? && k < |defs| && (forall i :: 0 <= i < |defs| ==> ValidDefine(t, defs[i])) &&
            LastDefining(t, defs, 0, |defs|, IgnoresCase(st.scope.macros), n) == Some(k) ==>
              var c := LookupIn(st.scope.macros, n);
              c.Some? && c.value < |st.heap| && st.heap[c.value] == MacroValue(DefineValue(t, defs[k]), false)
  {
    if node !in s.nodes.GetOr({}) {
      var defs := ChildrenNamed(t, node, "Define");
      AddMacrosFreshNode(t, s, h, node, n);
      var s' := s.(nodes := Some(s.nodes.GetOr({}) + {node}));
      WithDefinesShape(t, s', h, defs, 0, WithDefines(t, s', h, defs, 0));
    }
  }

  /**
   * `AddTemplateMacros` adds the node's own Defines last: when it succeeds,
   * a name the node itself defines resolves to a fresh, unfinalized cell
   * holding the value of the node's last Define of that name, whatever the
   * templates defined.
   */
  lemma OwnDefinesOverride(t: Tree, s: Scope, h: Heap, node: NodeId, depth: nat, fuel: nat, n: string, k: nat)
    requires t.Valid() && t.Has(node) && s.In(|h|)
    ensures var st := WithTemplateMacros(t, s, h, node, depth, fuel);
            var defs := ChildrenNamed(t, node, "Define");
            st.outcome.Pass? && k < |defs| && (forall i :: 0 <= i < |defs| ==> ValidDefine(t, defs[i])) &&
            LastDefining(t, defs, 0, |defs|, IgnoresCase(st.scope.macros), n) == Some(k) ==>
              var c := LookupIn(st.scope.macros, n);
              c.Some? && c.value < |st.heap| && st.heap[c.value] == MacroValue(DefineValue(t, defs[k]), false)
  {
    var tn := TemplateOf(t, s, h, node, fuel);
    if tn.r.Ok? {
      if tn.r.value.None? {
        MacrosOverride(t, s, tn.heap, node, n, k);
      } else if depth > 0 {
        var inner := WithTemplateMacros(t, s, tn.heap, tn.r.value.value, depth - 1, fuel);
        if inner.outcome.Pass? {
          MacrosOverride(t, inner.scope, inner.heap, node, n, k);
        }
      }
    }
  }

  // ---------------------------------------------------------------------
  // The template chain and inherited properties
  // ---------------------------------------------------------------------

  /**
   * `NodeTemplateTree(node, macros)` run to the end: the node first, then
   * each successive template, ending at the first element without an
   * `inherits` attribute.
   */
  function TemplateChain(t: Tree, s: Scope, h: Heap, node: NodeId, depth: nat, fuel: nat): (st: Step<seq<NodeId>>)
    requires t.Valid() && t.Has(node) && s.In(|h|)
    ensures |st.heap| == |h|
    decreases depth
  {
    var next := TemplateOf(t, s, h, node, fuel);
    if next.r.Err? then Step(Err(next.r.error), next.heap)
    else if next.r.value.None? then Step(Ok([node]), next.heap)
    else if depth == 0 then Step(Err(OutOfFuel), next.heap)
    else
      var rest := TemplateChain(t, s, next.heap, next.r.value.value, depth - 1, fuel);
      if rest.r.Err? then rest else Step(Ok([node] + rest.r.value), rest.heap)
  }

  /**
   * The inner text of the property child of the first element of `chain`
   * that has one (an index outside the document ends the search; a chain
   * never holds one, by TemplateChainShape).
   */
  function FirstText(t: Tree, chain: seq<NodeId>, propertyName: string): (r: Option<string>)
    requires t.Valid()
  {
    if chain == [] || chain[0] >= |t.nodes| then None
    else match FirstChildNamed(t, chain[0], propertyName)
      case Some(c) => Some(t.nodes[c].innerText)
      case None => FirstText(t, chain[1..], propertyName)
  }

  /**
   * On a chain of document nodes, FirstText finds nothing exactly when no
   * element has the property child, and otherwise the text of the first
   * element's that has one.
   */
  lemma {:induction false} FirstTextFinds(t: Tree, chain: seq<NodeId>, propertyName: string)
    requires t.Valid() && forall i :: 0 <= i < |chain| ==> t.Has(chain[i])
    ensures FirstText(t, chain, propertyName).None? <==> forall i :: 0 <= i < |chain| ==> FirstChildNamed(t, chain[i], propertyName).None?
    ensures FirstText(t, chain, propertyName).Some? ==>
              exists i :: 0 <= i < |chain| && FirstChildNamed(t, chain[i], propertyName).Some?
                && FirstText(t, chain, propertyName) == Some(t.nodes[FirstChildNamed(t, chain[i], propertyName).value].innerText)
                && forall j :: 0 <= j < i ==> FirstChildNamed(t, chain[j], propertyName).None?
  {
    if chain != [] && FirstChildNamed(t, chain[0], propertyName).None? {
      var rest := chain[1..];
      FirstTextFinds(t, rest, propertyName);
      assert FirstText(t, chain, propertyName) == FirstText(t, rest, propertyName);
      assert forall i :: 1 <= i < |chain| ==> chain[i] == rest[i - 1];
      if FirstText(t, rest, propertyName).Some? {
        var i :| 0 <= i < |rest| && FirstChildNamed(t, rest[i], propertyName).Some?
                 && FirstText(t, rest, propertyName) == Some(t.nodes[FirstChildNamed(t, rest[i], propertyName).value].innerText)
                 && forall j :: 0 <= j < i ==> FirstChildNamed(t, rest[j], propertyName).None?;
        assert chain[i + 1] == rest[i];
      }
    }
  }

  /** One step of `TemplateChain`: a resolved chain continues with the resolved chain of the node's template. */
  lemma TemplateChainStep(t: Tree, s: Scope, h: Heap, node: NodeId, depth: nat, fuel: nat, next: Step<Option<NodeId>>)
    requires t.Valid() && t.Has(node) && s.In(|h|)
    requires next == TemplateOf(t, s, h, node, fuel)
    ensures var chain := TemplateChain(t, s, h, node, depth, fuel);
            chain.r.Ok? ==>
              && next.r.Ok?
              && (next.r.value.None? ==> chain.r.value == [node])
              && (next.r.value.Some? ==>
                    && depth > 0 && s.In(|next.heap|) && t.Has(next.r.value.value)
                    && var rest := TemplateChain(t, s, next.heap, next.r.value.value, depth - 1, fuel);
                    && rest.r.Ok? && chain.r.value == [node] + rest.r.value)
  {
  }
  /**
   * What `NodeTemplateTree` yields: the node first and then templates,
   * every one a document node; each element but the last has an
   * `inherits` attribute, and the last has none.
   */
  ghost predicate ChainShaped(t: Tree, node: NodeId, c: seq<NodeId>) {
    && |c| > 0 && c[0] == node
    && (forall i :: 0 <= i < |c| ==> t.Has(c[i]))
    && (forall i :: 0 <= i < |c| - 1 ==> GetAttributeValue(t.nodes[c[i]], "inherits").Some?)
    && GetAttributeValue(t.nodes[c[|c| - 1]], "inherits").None?
  }

  /** A resolved template chain has the shape `NodeTemplateTree` promises. */
  lemma {:induction false} TemplateChainShape(t: Tree, s: Scope, h: Heap, node: NodeId, depth: nat, fuel: nat, st: Step<seq<NodeId>>)
    requires t.Valid() && t.Has(node) && s.In(|h|)
    requires st == TemplateChain(t, s, h, node, depth, fuel)
    ensures st.r.Ok? ==> ChainShaped(t, node, st.r.value)
    decreases depth
  {
    var next := TemplateOf(t, s, h, node, fuel);
    TemplateChainStep(t, s, h, node, depth, fuel, next);
    if st.r.Ok? {
      if next.r.value.Some? {
        var rest := TemplateChain(t, s, next.heap, next.r.value.value, depth - 1, fuel);
        TemplateChainShape(t, s, next.heap, next.r.value.value, depth - 1, fuel, rest);
        ConsShaped(t, node, next.r.value.value, rest.r.value, st.r.value);
      } else {
        assert st.r.value == [node];
      }
    }
  }

  lemma ConsShaped(t: Tree, node: NodeId, next: NodeId, rest: seq<NodeId>, c: seq<NodeId>)
    requires t.Has(node) && ChainShaped(t, next, rest) && c == [node] + rest
    requires GetAttributeValue(t.nodes[node], "inherits").Some?
    ensures ChainShaped(t, node, c)
  {
    assert forall i :: 1 <= i < |c| ==> c[i] == rest[i - 1];
  }



  /**
   * `GetPropertyValue` takes the property from the first element of the
   * template chain that has it, the node's own child before any inherited
   * one; where the whole chain resolves, that is the result.
   */
  lemma {:induction false} PropertyFromChain(t: Tree, s: Scope, h: Heap, element: NodeId, propertyName: string, depth: nat, fuel: nat)
    requires t.Valid() && t.Has(element) && s.In(|h|)
    ensures TemplateChain(t, s, h, element, depth, fuel).r.Ok? ==>
              PropertyText(t, s, h, element, propertyName, depth, fuel).r == Ok(FirstText(t, TemplateChain(t, s, h, element, depth, fuel).r.value, propertyName))
    decreases depth
  {
    var more, h', e' := PropertyStep(t, s, h, element, propertyName, depth, fuel);
    var chain := TemplateChain(t, s, h, element, depth, fuel);
    if more {
      PropertyFromChain(t, s, h', e', propertyName, depth - 1, fuel);
      var rest := TemplateChain(t, s, h', e', depth - 1, fuel);
      assert rest.r.Ok? ==> PropertyText(t, s, h', e', propertyName, depth - 1, fuel).r == Ok(FirstText(t, rest.r.value, propertyName));
      assert chain.r.Ok? ==> rest.r.Ok? && FirstText(t, chain.r.value, propertyName) == FirstText(t, rest.r.value, propertyName);
      assert PropertyText(t, s, h, element, propertyName, depth, fuel) == PropertyText(t, s, h', e', propertyName, depth - 1, fuel);
    } else {
      assert chain.r.Ok? ==> PropertyText(t, s, h, element, propertyName, depth, fuel).r == Ok(FirstText(t, chain.r.value, propertyName));
    }
  }

  /**
   * `GetPropertyValue` where the whole chain resolves and the text found
   * holds no placeholder: that text, or None when no element of the chain
   * has the property.
   */
  lemma PropertyOfPlain(t: Tree, s: Scope, h: Heap, node: NodeId, propertyName: string, fuel: nat)
    requires t.Valid() && t.Has(node) && s.In(|h|)
    ensures var chain := TemplateChain(t, s, h, node, fuel, fuel);
            chain.r.Ok? && (FirstText(t, chain.r.value, propertyName).Some? ==>
                              NoPlaceholder(FirstText(t, chain.r.value, propertyName).value, true) &&
                              NoPlaceholder(FirstText(t, chain.r.value, propertyName).value, false)) ==>
              PropertyOf(t, s, h, node, propertyName, fuel).r == Ok(FirstText(t, chain.r.value, propertyName))
  {
    PropertyFromChain(t, s, h, node, propertyName, fuel, fuel);
    var p := PropertyText(t, s, h, node, propertyName, fuel, fuel);
    if p.r.Ok? && p.r.value.Some? && NoPlaceholder(p.r.value.value, true) && NoPlaceholder(p.r.value.value, false) {
      ExpandPlain(s.macros, p.heap, p.r.value.value, fuel);
    }
  }

  /**
   * One element of `PropertyFromChain`: either the property is settled at
   * `element`, or (`more`) both the chain and the lookup go on from the
   * template `e'` in store `h'`.
   */
  lemma PropertyStep(t: Tree, s: Scope, h: Heap, element: NodeId, propertyName: string, depth: nat, fuel: nat)
    returns (more: bool, h': Heap, e': NodeId)
    requires t.Valid() && t.Has(element) && s.In(|h|)
    ensures more ==> depth > 0 && t.Has(e') && s.In(|h'|)
    ensures more ==> PropertyText(t, s, h, element, propertyName, depth, fuel) == PropertyText(t, s, h', e', propertyName, depth - 1, fuel)
    ensures more && TemplateChain(t, s, h, element, depth, fuel).r.Ok? ==>
              && TemplateChain(t, s, h', e', depth - 1, fuel).r.Ok?
              && FirstText(t, TemplateChain(t, s, h, element, depth, fuel).r.value, propertyName)
                 == FirstText(t, TemplateChain(t, s, h', e', depth - 1, fuel).r.value, propertyName)
    ensures !more && TemplateChain(t, s, h, element, depth, fuel).r.Ok? ==>
              PropertyText(t, s, h, element, propertyName, depth, fuel).r == Ok(FirstText(t, TemplateChain(t, s, h, element, depth, fuel).r.value, propertyName))
  {
    more, h', e' := false, h, element;
    var chain := TemplateChain(t, s, h, element, depth, fuel);
    if chain.r.Ok? {
      var own := FirstChildNamed(t, element, propertyName);
      if own.Some? {
        assert FirstText(t, chain.r.value, propertyName) == Some(t.nodes[own.value].innerText);
      } else {
        var next := TemplateOf(t, s, h, element, fuel);
        InheritedStep(t, s, h, element, propertyName, depth, fuel, next);
        if next.r.value.Some? {
          more, h', e' := true, next.heap, next.r.value.value;
        }
      }
    }
  }

  /** For an element without the property, both the chain and the property lookup continue in the element's template. */
  lemma InheritedStep(t: Tree, s: Scope, h: Heap, element: NodeId, propertyName: string, depth: nat, fuel: nat, next: Step<Option<NodeId>>)
    requires t.Valid() && t.Has(element) && s.In(|h|) && FirstChildNamed(t, element, propertyName).None?
    requires next == TemplateOf(t, s, h, element, fuel)
    ensures var chain := TemplateChain(t, s, h, element, depth, fuel);
            var pt := PropertyText(t, s, h, element, propertyName, depth, fuel);
            chain.r.Ok? ==>
              && next.r.Ok?
              && (next.r.value.None? ==> pt.r == Ok(None) && FirstText(t, chain.r.value, propertyName) == None)
              && (next.r.value.Some? ==>
                    && depth > 0 && s.In(|next.heap|) && t.Has(next.r.value.value)
                    && var rest := TemplateChain(t, s, next.heap, next.r.value.value, depth - 1, fuel);
                    && rest.r.Ok?
                    && pt == PropertyText(t, s, next.heap, next.r.value.value, propertyName, depth - 1, fuel)
                    && FirstText(t, chain.r.value, propertyName) == FirstText(t, rest.r.value, propertyName))
  {
    TemplateChainStep(t, s, h, element, depth, fuel, next);
    PropertyTextStep(t, s, h, element, propertyName, depth, fuel, next);
    var chain := TemplateChain(t, s, h, element, depth, fuel);
    if chain.r.Ok? {
      var c := chain.r.value;
      assert FirstText(t, c, propertyName) == FirstText(t, c[1..], propertyName);
      if next.r.value.Some? {
        assert c[1..] == TemplateChain(t, s, next.heap, next.r.value.value, depth - 1, fuel).r.value;
      } else {
        assert c[1..] == [];
      }
    }
  }
}
