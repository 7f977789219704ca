/**
 * `XmlShortcutFile` (JRun/src/XmlShortcutFile.cs): a loaded shortcuts
 * document with its global macro collection. Each method is proved to
 * compute what its specification function in XmlShortcutSpec says, for
 * the result and for the new contents of the macro value store.
 */
module XmlShortcutFile {
  import opened Wrappers
  import opened Text
  import opened XmlTree
  import opened Errors
  import opened XmlMacro
  import opened XmlShortcutSpec

  class ShortcutFile {
    const tree: Tree
    const globalMacros: MacroCollection
    const heap: MacroHeap
    const fuel: nat

    ghost predicate Valid()
      reads globalMacros, heap
    {
      tree.Valid() && globalMacros.ValidIn(heap)
    }

    constructor Make(t: Tree, g: MacroCollection, h: MacroHeap, f: nat)
      requires t.Valid() && g.ValidIn(h)
      ensures tree == t && globalMacros == g && heap == h && fuel == f && Valid()
    {
      tree, globalMacros, heap, fuel := t, g, h, f;
    }

    /** `GetAttributeValue(node, macros, attribName, out value)`. */
    method GetAttributeValue(node: NodeId, macros: MacroCollection, attribName: string) returns (value: Res<Option<string>>)
      requires Valid() && tree.Has(node) && macros.ValidIn(heap)
      modifies heap
      ensures Valid() && macros.ValidIn(heap)
      ensures Step(value, heap.cells) == ExpandedAttribute(tree, macros.Value(), old(heap.cells), node, attribName, fuel)
    {
      var v := XmlTree.GetAttributeValue(tree.nodes[node], attribName);
      if v.None? {
        return Ok(None);
      }
      var e := macros.GetExpandedValue(heap, v.value, fuel);
      if e.Err? {
        return Err(XmlError(node, AttributeNotExpanded(attribName), Some(e.error)));
      }
      return Ok(Some(e.value));
    }

    /** `AttributeValueMatches(node, macros, attribName, valueCheck)`. */
    method AttributeValueMatches(node: NodeId, macros: MacroCollection, attribName: string, valueCheck: string) returns (r: Res<bool>)
      requires Valid() && tree.Has(node) && macros.ValidIn(heap)
      modifies heap
      ensures Valid() && macros.ValidIn(heap)
      ensures Step(r, heap.cells) == AttributeMatches(tree, macros.Value(), old(heap.cells), node, attribName, valueCheck, fuel)
    {
      var nodeValue := GetAttributeValue(node, macros, attribName);
      if nodeValue.Err? {
        return Err(nodeValue.error);
      }
      return Ok(nodeValue.value.Some? && EqualsIgnoreCase(nodeValue.value.value, valueCheck));
    }

    /** `FindTemplate(start, macros, templateName)`. */
    method FindTemplate(start: NodeId, macros: MacroCollection, templateName: string) returns (r: Res<Option<NodeId>>)
      requires Valid() && tree.Has(start) && macros.ValidIn(heap)
      modifies heap
      ensures Valid() && macros.ValidIn(heap)
      ensures Step(r, heap.cells) == TemplateSearch(tree, macros.Value(), old(heap.cells), start, templateName, fuel)
      decreases start
    {
      var cs := tree.nodes[start].children;
      assert forall i :: 0 <= i < |cs| ==> cs[i] < |tree.nodes|;
      var k := 0;
      while k < |cs|
        invariant 0 <= k <= |cs| && Valid() && macros.ValidIn(heap)
        invariant SearchChildren(tree, macros.Value(), old(heap.cells), cs, 0, templateName, fuel)
               == SearchChildren(tree, macros.Value(), heap.cells, cs, k, templateName, fuel)
      {
        var m := AttributeValueMatches(cs[k], macros, "name", templateName);
        if m.Err? {
          return Err(m.error);
        }
        if m.value {
          return Ok(Some(cs[k]));
        }
        k := k + 1;
      }
      if tree.nodes[start].parent.None? {
        return Ok(None);
      }
      r := FindTemplate(tree.nodes[start].parent.value, macros, templateName);
    }

    /** `GetNodeTemplate(node, macros)`. */
    method GetNodeTemplate(node: NodeId, macros: MacroCollection) returns (r: Res<Option<NodeId>>)
      requires Valid() && tree.Has(node) && macros.ValidIn(heap)
      modifies heap
      ensures Valid() && macros.ValidIn(heap)
      ensures Step(r, heap.cells) == TemplateOf(tree, macros.Value(), old(heap.cells), node, fuel)
    {
      var name := GetAttributeValue(node, macros, "inherits");
      if name.Err? {
        return Err(name.error);
      }
      if name.value.None? {
        return Ok(None);
      }
      var templateName := name.value.value;
      if templateName != "" {
        if tree.nodes[node].parent.None? {
          return Err(NullReference);
        }
        var found := FindTemplate(tree.nodes[node].parent.value, macros, templateName);
        if found.Err? || found.value.Some? {
          return found;
        }
      }
      return Err(XmlError(node, TemplateNotFound(templateName), None));
    }

    /**
     * `AddTemplateMacros(node, macros)`, recursing at most `depth` templates
     * deep; the ghost `whole` names the new scope and store it leads to.
     */
    method AddTemplateMacros(node: NodeId, macros: MacroCollection, depth: nat, ghost whole: ScopeStep)
      returns (r: Outcome<Error>)
      requires Valid() && tree.Has(node) && macros.ValidIn(heap)
      requires whole == WithTemplateMacrosAt(tree, macros.Value(), heap.cells, node, depth, fuel)
      modifies macros, heap
      ensures Valid() && macros.ValidIn(heap)
      ensures ScopeStep(r, macros.Value(), heap.cells) == whole
      decreases depth
    {
      ghost var s0, h0 := macros.Value(), heap.cells;
      var templateNode := GetNodeTemplate(node, macros);
      TemplateMacrosStep(tree, s0, h0, node, depth, fuel, Step(templateNode, heap.cells));
      if templateNode.Err? {
        return Fail(templateNode.error);
      }
      if templateNode.value.Some? {
        if depth == 0 {
          return Fail(OutOfFuel);
        }
        ghost var inner := WithTemplateMacrosAt(tree, s0, heap.cells, templateNode.value.value, depth - 1, fuel);
        var innerOutcome := AddTemplateMacros(templateNode.value.value, macros, depth - 1, inner);
        if innerOutcome.Fail? {
          return innerOutcome;
        }
      }
      r := macros.AddMacros(tree, node, heap);
    }

    /** The `NodeTemplateTree` loop of `GetPropertyValue`: the inner text of the first chain element with a child tagged `propertyName`. */
    method FindPropertyText(node: NodeId, macros: MacroCollection, propertyName: string) returns (text: Res<Option<string>>)
      requires Valid() && tree.Has(node) && macros.ValidIn(heap)
      modifies heap
      ensures Valid() && macros.ValidIn(heap)
      ensures Step(text, heap.cells) == PropertyText(tree, macros.Value(), old(heap.cells), node, propertyName, fuel, fuel)
    {
      ghost var sc := macros.Value();
      ghost var whole := PropertyText(tree, sc, heap.cells, node, propertyName, fuel, fuel);
      var element, depth := node, fuel;
      while true
        invariant Valid() && macros.ValidIn(heap) && macros.Value() == sc && tree.Has(element)
        invariant whole == PropertyText(tree, sc, heap.cells, element, propertyName, depth, fuel)
        decreases depth
      {
        var child := FirstChildNamed(tree, element, propertyName);
        if child.Some? {
          return Ok(Some(tree.nodes[child.value].innerText));
        }
        ghost var h := heap.cells;
        var next := GetNodeTemplate(element, macros);
        PropertyTextStep(tree, sc, h, element, propertyName, depth, fuel, Step(next, heap.cells));
        if next.Err? {
          return Err(next.error);
        }
        if next.value.None? {
          return Ok(None);
        }
        if depth == 0 {
          return Err(OutOfFuel);
        }
        element, depth := next.value.value, depth - 1;
      }
    }

    /** `GetPropertyValue(node, macros, propertyName, out value)`. */
    method GetPropertyValue(node: NodeId, macros: MacroCollection, propertyName: string) returns (value: Res<Option<string>>)
      requires Valid() && tree.Has(node) && macros.ValidIn(heap)
      modifies heap
      ensures Valid() && macros.ValidIn(heap)
      ensures Step(value, heap.cells) == PropertyOf(tree, macros.Value(), old(heap.cells), node, propertyName, fuel)
    {
      var text := FindPropertyText(node, macros, propertyName);
      if text.Err? {
        return text;
      }
      if text.value.None? {
        return Ok(None);
      }
      var e := macros.GetExpandedValue(heap, text.value.value, fuel);
      if e.Err? {
        return Err(XmlError(node, PropertyNotExpanded(propertyName), Some(e.error)));
      }
      return Ok(Some(e.value));
    }

    /** `CreateVirtualShortcut(context, shortcutNode, outerMacros)`. */
    method CreateVirtualShortcut(context: NodeId, shortcutNode: NodeId, outerMacros: MacroCollection) returns (r: Res<Option<VirtualShortcut>>)
      requires Valid() && tree.Has(context) && tree.Has(shortcutNode) && outerMacros.ValidIn(heap)
      modifies heap
      ensures Valid() && outerMacros.ValidIn(heap)
      ensures Step(r, heap.cells) == VirtualShortcutOf(tree, outerMacros.Value(), old(heap.cells), context, shortcutNode, fuel)
    {
      var nodeName := XmlTree.GetAttributeValue(tree.nodes[shortcutNode], "name");
      if nodeName.None? || nodeName.value == "" {
        return Ok(None);
      }
      var realName := outerMacros.GetExpandedValue(heap, nodeName.value, fuel);
      if realName.Err? {
        return Err(realName.error);
      }
      if realName.value == "" {
        return Ok(None);
      }
      var newMacros := new MacroCollection.Copy(outerMacros, heap);
      var added := AddTemplateMacros(shortcutNode, newMacros, fuel, WithTemplateMacrosAt(tree, newMacros.Value(), heap.cells, shortcutNode, fuel, fuel));
      if added.Fail? {
        return Err(added.error);
      }
      return Ok(Some(VirtualShortcut(realName.value, context, shortcutNode, newMacros.Value())));
    }

    /** The Shortcut nodes of one chain element, each made a virtual shortcut in `macros` and appended to `shortcuts`. */
    method AddShortcuts(nodes: seq<NodeId>, macros: MacroCollection, shortcuts: seq<VirtualShortcut>) returns (r: Res<seq<VirtualShortcut>>)
      requires Valid() && (forall i :: 0 <= i < |nodes| ==> nodes[i] < |tree.nodes|) && macros.ValidIn(heap)
      requires AllIn(tree, shortcuts, |heap.cells|)
      modifies heap
      ensures Valid() && macros.ValidIn(heap) && macros.Value() == old(macros.Value())
      ensures Step(r, heap.cells) == ShortcutsAmong(tree, macros.Value(), old(heap.cells), nodes, 0, shortcuts, fuel)
    {
      ghost var sc := macros.Value();
      ghost var whole := ShortcutsAmongAt(tree, sc, heap.cells, nodes, 0, shortcuts, fuel);
      var acc := shortcuts;
      var i := 0;
      while i < |nodes|
        invariant 0 <= i <= |nodes| && Valid() && macros.ValidIn(heap) && macros.Value() == sc
        invariant AllIn(tree, acc, |heap.cells|)
        invariant whole == ShortcutsAmongAt(tree, sc, heap.cells, nodes, i, acc, fuel)
      {
        var v := CreateVirtualShortcut(nodes[i], nodes[i], macros);
        if v.Err? {
          return Err(v.error);
        }
        acc := acc + if v.value.Some? then [v.value.value] else [];
        i := i + 1;
      }
      return Ok(acc);
    }

    /**
     * One element of the chain: its Shortcut children handled, then the
     * element's template looked up. `next` is the element the chain goes on
     * with; when it is `None`, `r` is what the whole chain returns. The
     * ghost `whole` names the chain's result from `element`.
     */
    method ElementShortcuts(element: NodeId, macros: MacroCollection, shortcuts: seq<VirtualShortcut>, depth: nat,
                ghost whole: Step<seq<VirtualShortcut>>)
      returns (r: Res<seq<VirtualShortcut>>, next: Option<NodeId>)
      requires Valid() && tree.Has(element) && macros.ValidIn(heap) && AllIn(tree, shortcuts, |heap.cells|)
      requires whole == ChainShortcutsAt(tree, macros.Value(), heap.cells, element, shortcuts, depth, fuel)
      modifies heap
      ensures Valid() && macros.ValidIn(heap) && macros.Value() == old(macros.Value())
      ensures next.None? ==> Step(r, heap.cells) == whole
      ensures next.Some? ==> r.Ok? && depth > 0 && tree.Has(next.value) && AllIn(tree, r.value, |heap.cells|)
      ensures next.Some? ==> whole == ChainShortcutsAt(tree, macros.Value(), heap.cells, next.value, r.value, depth - 1, fuel)
    {
      ghost var h0 := heap.cells;
      var nodes := SelectXmlNodes(tree, element, "Shortcut");
      var here := AddShortcuts(nodes, macros, shortcuts);
      ghost var spHere := Step(here, heap.cells);
      if here.Err? {
        ShortcutsChainStep(tree, macros.Value(), h0, element, shortcuts, depth, fuel, spHere, Step(Ok(None), heap.cells));
        return here, None;
      }
      var template := GetNodeTemplate(element, macros);
      ShortcutsChainStep(tree, macros.Value(), h0, element, shortcuts, depth, fuel, spHere, Step(template, heap.cells));
      if template.Err? {
        return Err(template.error), None;
      }
      if template.value.None? {
        return here, None;
      }
      if depth == 0 {
        return Err(OutOfFuel), None;
      }
      return here, template.value;
    }

    /** The rest of a chain from `element`, at most `depth` templates further; the ghost `whole` names its result. */
    method ChainShortcutsFrom(element: NodeId, macros: MacroCollection, shortcuts: seq<VirtualShortcut>, depth: nat,
               ghost whole: Step<seq<VirtualShortcut>>)
      returns (r: Res<seq<VirtualShortcut>>)
      requires Valid() && tree.Has(element) && macros.ValidIn(heap) && AllIn(tree, shortcuts, |heap.cells|)
      requires whole == ChainShortcutsAt(tree, macros.Value(), heap.cells, element, shortcuts, depth, fuel)
      modifies heap
      ensures Valid() && macros.ValidIn(heap) && macros.Value() == old(macros.Value())
      ensures Step(r, heap.cells) == whole
      decreases depth
    {
      var here, next := ElementShortcuts(element, macros, shortcuts, depth, whole);
      if next.None? {
        return here;
      }
      r := ChainShortcutsFrom(next.value, macros, here.value, depth - 1, whole);
    }

    /**
     * `GetAllShortcutNodes(listNode, macros)` together with the loop that
     * consumes it in `GetAllVirtualShortcuts`: each Shortcut child of each
     * element of the template chain from `listNode` becomes a virtual
     * shortcut in `macros`, appended to `shortcuts`.
     */
    method AddChainShortcuts(listNode: NodeId, macros: MacroCollection, shortcuts: seq<VirtualShortcut>) returns (r: Res<seq<VirtualShortcut>>)
      requires Valid() && tree.Has(listNode) && macros.ValidIn(heap) && AllIn(tree, shortcuts, |heap.cells|)
      modifies heap
      ensures Valid() && macros.ValidIn(heap) && macros.Value() == old(macros.Value())
      ensures Step(r, heap.cells) == ChainShortcuts(tree, macros.Value(), old(heap.cells), listNode, shortcuts, fuel, fuel)
    {
      r := ChainShortcutsFrom(listNode, macros, shortcuts, fuel, ChainShortcutsAt(tree, macros.Value(), heap.cells, listNode, shortcuts, fuel, fuel));
    }

    /** The Lists of one chain element of a profile: each gets a copy of `profileMacros` holding its chain's macros, then its chain's shortcuts. */
    method AddLists(lists: seq<NodeId>, profileMacros: MacroCollection, shortcuts: seq<VirtualShortcut>) returns (r: Res<seq<VirtualShortcut>>)
      requires Valid() && (forall i :: 0 <= i < |lists| ==> lists[i] < |tree.nodes|) && profileMacros.ValidIn(heap)
      requires AllIn(tree, shortcuts, |heap.cells|)
      modifies heap
      ensures Valid() && profileMacros.ValidIn(heap) && profileMacros.Value() == old(profileMacros.Value())
      ensures Step(r, heap.cells) == ListsAmong(tree, profileMacros.Value(), old(heap.cells), lists, 0, shortcuts, fuel)
    {
      ghost var sc := profileMacros.Value();
      ghost var whole := ListsAmongAt(tree, sc, heap.cells, lists, 0, shortcuts, fuel);
      var acc := shortcuts;
      var i := 0;
      while i < |lists|
        invariant 0 <= i <= |lists| && Valid() && profileMacros.ValidIn(heap) && profileMacros.Value() == sc
        invariant AllIn(tree, acc, |heap.cells|)
        invariant whole == ListsAmongAt(tree, sc, heap.cells, lists, i, acc, fuel)
      {
        var listMacros := new MacroCollection.Copy(profileMacros, heap);
        var added := AddTemplateMacros(lists[i], listMacros, fuel, WithTemplateMacrosAt(tree, listMacros.Value(), heap.cells, lists[i], fuel, fuel));
        if added.Fail? {
          return Err(added.error);
        }
        var chain := AddChainShortcuts(lists[i], listMacros, acc);
        if chain.Err? {
          return chain;
        }
        acc := chain.value;
        i := i + 1;
      }
      return Ok(acc);
    }

    /**
     * One element of the chain: its List children handled, then the
     * element's template looked up. `next` is the element the chain goes on
     * with; when it is `None`, `r` is what the whole chain returns. The
     * ghost `whole` names the chain's result from `element`.
     */
    method ElementLists(element: NodeId, profileMacros: MacroCollection, shortcuts: seq<VirtualShortcut>, depth: nat,
                ghost sc: Scope, ghost whole: Step<seq<VirtualShortcut>>)
      returns (r: Res<seq<VirtualShortcut>>, next: Option<NodeId>)
      requires Valid() && tree.Has(element) && profileMacros.ValidIn(heap) && AllIn(tree, shortcuts, |heap.cells|)
      requires sc == profileMacros.Value() && whole == ChainListsAt(tree, sc, heap.cells, element, shortcuts, depth, fuel)
      modifies heap
      ensures Valid() && profileMacros.ValidIn(heap) && profileMacros.Value() == sc
      ensures next.None? ==> Step(r, heap.cells) == whole
      ensures next.Some? ==> r.Ok? && depth > 0 && tree.Has(next.value) && AllIn(tree, r.value, |heap.cells|)
      ensures next.Some? ==> whole == ChainListsAt(tree, sc, heap.cells, next.value, r.value, depth - 1, fuel)
    {
      ghost var h0 := heap.cells;
      var nodes := SelectXmlNodes(tree, element, "List");
      var here := AddLists(nodes, profileMacros, shortcuts);
      ghost var spHere := Step(here, heap.cells);
      if here.Err? {
        ListsChainStep(tree, sc, h0, element, shortcuts, depth, fuel, spHere, Step(Ok(None), heap.cells));
        return here, None;
      }
      var template := GetNodeTemplate(element, profileMacros);
      ListsChainStep(tree, sc, h0, element, shortcuts, depth, fuel, spHere, Step(template, heap.cells));
      if template.Err? {
        return Err(template.error), None;
      }
      if template.value.None? {
        return here, None;
      }
      if depth == 0 {
        return Err(OutOfFuel), None;
      }
      return here, template.value;
    }

    /** The rest of a chain from `element`, at most `depth` templates further; the ghost `whole` names its result. */
    method ChainListsFrom(element: NodeId, profileMacros: MacroCollection, shortcuts: seq<VirtualShortcut>, depth: nat,
               ghost sc: Scope, ghost whole: Step<seq<VirtualShortcut>>)
      returns (r: Res<seq<VirtualShortcut>>)
      requires Valid() && tree.Has(element) && profileMacros.ValidIn(heap) && AllIn(tree, shortcuts, |heap.cells|)
      requires sc == profileMacros.Value() && whole == ChainListsAt(tree, sc, heap.cells, element, shortcuts, depth, fuel)
      modifies heap
      ensures Step(r, heap.cells) == whole
      decreases depth
    {
      var here, next := ElementLists(element, profileMacros, shortcuts, depth, sc, whole);
      if next.None? {
        return here;
      }
      r := ChainListsFrom(next.value, profileMacros, here.value, depth - 1, sc, whole);
    }

    /** The list loop of `GetAllVirtualShortcuts`: the Lists of each element of the profile's chain in turn. */
    method AddChainLists(profile: NodeId, profileMacros: MacroCollection, shortcuts: seq<VirtualShortcut>) returns (r: Res<seq<VirtualShortcut>>)
      requires Valid() && tree.Has(profile) && profileMacros.ValidIn(heap) && AllIn(tree, shortcuts, |heap.cells|)
      modifies heap
      ensures Valid() && profileMacros.ValidIn(heap) && profileMacros.Value() == old(profileMacros.Value())
      ensures Step(r, heap.cells) == ChainLists(tree, profileMacros.Value(), old(heap.cells), profile, shortcuts, fuel, fuel)
    {
      ghost var h0 := heap.cells;
      r := ChainListsFrom(profile, profileMacros, shortcuts, fuel, profileMacros.Value(), ChainListsAt(tree, profileMacros.Value(), heap.cells, profile, shortcuts, fuel, fuel));
      InGrows(globalMacros.Value(), |h0|, |heap.cells|);
      InGrows(profileMacros.Value(), |h0|, |heap.cells|);
    }

    /** `GetAllVirtualShortcuts(profileName)`. */
    method GetAllVirtualShortcuts(profileName: string) returns (r: Res<seq<VirtualShortcut>>)
      requires Valid()
      modifies heap
      ensures Valid()
      ensures Step(r, heap.cells) == VirtualShortcuts(tree, globalMacros.Value(), old(heap.cells), profileName, fuel)
    {
      var profiles := SelectXmlNodes(tree, tree.documentElement, "Profile");
      var k := 0;
      while k < |profiles|
        invariant 0 <= k <= |profiles| && Valid()
        invariant ProfileScan(tree, globalMacros.Value(), old(heap.cells), profiles, 0, profileName, fuel)
               == ProfileScan(tree, globalMacros.Value(), heap.cells, profiles, k, profileName, fuel)
      {
        var selected := profileName == "";
        if !selected {
          var m := AttributeValueMatches(profiles[k], globalMacros, "name", profileName);
          if m.Err? {
            return Err(m.error);
          }
          selected := m.value;
        }
        if selected {
          ghost var h0 := heap.cells;
          var profileMacros := new MacroCollection.Copy(globalMacros, heap);
          var added := AddTemplateMacros(profiles[k], profileMacros, fuel, WithTemplateMacrosAt(tree, profileMacros.Value(), heap.cells, profiles[k], fuel, fuel));
          if added.Fail? {
            return Err(added.error);
          }
          var direct := AddChainShortcuts(profiles[k], profileMacros, []);
          if direct.Err? {
            return direct;
          }
          r := AddChainLists(profiles[k], profileMacros, direct.value);
          assert ProfileShortcuts(tree, globalMacros.Value(), h0, profiles[k], fuel) == Step(r, heap.cells);
          return;
        }
        k := k + 1;
      }
      return Ok([]);
    }

    /** `GetAllShortcutNames(profileName)`. */
    method GetAllShortcutNames(profileName: string) returns (r: Res<seq<string>>)
      requires Valid()
      modifies heap
      ensures Valid()
      ensures Step(r, heap.cells) == ShortcutNames(tree, globalMacros.Value(), old(heap.cells), profileName, fuel)
    {
      var all := GetAllVirtualShortcuts(profileName);
      if all.Err? {
        return Err(all.error);
      }
      var vs := all.value;
      var names := [];
      var i := 0;
      while i < |vs|
        invariant 0 <= i <= |vs| && |names| == i
        invariant forall k :: 0 <= k < i ==> names[k] == vs[k].name
      {
        names := names + [vs[i].name];
        i := i + 1;
      }
      assert names == Names(vs);
      return Ok(names);
    }

    /** `CreateShortcut(vShortcut)`. */
    method CreateShortcut(vShortcut: VirtualShortcut) returns (r: Res<Shortcut>)
      requires Valid() && ShortcutIn(tree, vShortcut, |heap.cells|)
      modifies heap
      ensures Valid() && ShortcutIn(tree, vShortcut, |heap.cells|)
      ensures Step(r, heap.cells) == Materialized(tree, vShortcut, old(heap.cells), fuel)
    {
      var macros := new MacroCollection.Of(vShortcut.macros);
      var filePath := GetPropertyValue(vShortcut.shortcutNode, macros, "Path");
      if filePath.Err? {
        return Err(filePath.error);
      }
      var processParams := GetPropertyValue(vShortcut.shortcutNode, macros, "Params");
      if processParams.Err? {
        return Err(processParams.error);
      }
      if filePath.value.None? || filePath.value.value == "" {
        return Err(XmlError(vShortcut.contextNode, NoExecutablePath, None));
      }
      return Ok(Shortcut(filePath.value.value, processParams.value));
    }

    /** `GetShortcut(profileName, shortcutName)`: None where the code returns null. */
    method GetShortcut(profileName: string, shortcutName: string) returns (r: Res<Option<Shortcut>>)
      requires Valid()
      modifies heap
      ensures Valid()
      ensures Step(r, heap.cells) == ShortcutLookup(tree, globalMacros.Value(), old(heap.cells), profileName, shortcutName, fuel)
    {
      var all := GetAllVirtualShortcuts(profileName);
      if all.Err? {
        return Err(all.error);
      }
      var vs := all.value;
      var i := 0;
      while i < |vs|
        invariant 0 <= i <= |vs|
        invariant forall k :: 0 <= k < i ==> !EqualsIgnoreCase(vs[k].name, shortcutName)
      {
        if EqualsIgnoreCase(vs[i].name, shortcutName) {
          assert FirstNamed(vs, shortcutName) == Some(i);
          var shortcut := CreateShortcut(vs[i]);
          if shortcut.Err? {
            return Err(shortcut.error);
          }
          return Ok(Some(shortcut.value));
        }
        i := i + 1;
      }
      assert FirstNamed(vs, shortcutName).None?;
      return Ok(None);
    }

    /** `GetAllShortcuts(profileName)`, enumerated to the end. */
    method GetAllShortcuts(profileName: string) returns (r: Res<seq<Shortcut>>)
      requires Valid()
      modifies heap
      ensures Valid()
      ensures Step(r, heap.cells) == AllShortcuts(tree, globalMacros.Value(), old(heap.cells), profileName, fuel)
    {
      var all := GetAllVirtualShortcuts(profileName);
      if all.Err? {
        return Err(all.error);
      }
      var vs := all.value;
      ghost var whole := MaterializedAll(tree, vs, 0, heap.cells, [], fuel);
      var shortcuts := [];
      var i := 0;
      while i < |vs|
        invariant 0 <= i <= |vs| && Valid() && AllIn(tree, vs, |heap.cells|)
        invariant whole == MaterializedAll(tree, vs, i, heap.cells, shortcuts, fuel)
      {
        var shortcut := CreateShortcut(vs[i]);
        if shortcut.Err? {
          return Err(shortcut.error);
        }
        shortcuts := shortcuts + [shortcut.value];
        i := i + 1;
      }
      return Ok(shortcuts);
    }
  }

  /** The `XmlShortcutFile` constructor, given the loaded document: a fresh global collection receives the document element's Defines. */
  method Open(t: Tree, fuel: nat) returns (r: Res<ShortcutFile>)
    requires t.Valid()
    ensures r.Ok? <==> Opened(t).outcome.Pass?
    ensures r.Err? ==> Opened(t).outcome == Fail(r.error)
    ensures r.Ok? ==> && fresh(r.value) && fresh(r.value.heap) && r.value.Valid() && r.value.tree == t && r.value.fuel == fuel
                      && r.value.globalMacros.Value() == Opened(t).scope && r.value.heap.cells == Opened(t).heap
  {
    var heap := new MacroHeap();
    var globalMacros := new MacroCollection();
    var added := globalMacros.AddMacros(t, t.documentElement, heap);
    if added.Fail? {
      return Err(added.error);
    }
    var file := new ShortcutFile.Make(t, globalMacros, heap, fuel);
    return Ok(file);
  }
}
