# HotCuts shortcut resolution, modelled in Dafny

HotCuts (JRun and JRunUI) runs shortcuts defined in an XML shortcuts file.
Each `Profile` holds `Shortcut` nodes and `List` nodes of shortcuts. Any node
may `inherit` a named template. `Define` nodes declare macros, and these
expand inside attribute values and properties as `{name}` (required) and
`[name]` (optional). This project models the engine that turns such a
document into shortcuts, together with the small helpers around it, and
proves what that engine promises.

The modules follow the program:

- `Wrappers`, `Errors` and `Text`: option and result types, the exceptions
  as values, and the string operations of the .NET library the code uses.
- `XmlTree` (JRun/src/Extensions.cs): the document as an arena of nodes
  (tag, attribute map, ordered children, parent index, inner text), with the
  node helpers.
- `XmlMacro` (JRun/src/XmlMacro.cs):
  - macro values live in one shared store, `MacroHeap`;
  - a macro dictionary maps names to indices into that store;
  - `MacroCollection` is a class whose methods are proved to compute
    state-passing specification functions over the collection's tables and
    the store.
- `XmlMacroProperties`: finalize-once, last-write-wins, added-twice, copy
  semantics and the two expansion passes, proved about those functions.
- `XmlShortcutSpec` and `XmlShortcutFile` (JRun/src/XmlShortcutFile.cs):
  - `XmlShortcutSpec` holds template search, template chains, property
    lookup, virtual-shortcut enumeration and materialisation as
    state-passing functions;
  - `XmlShortcutFile.ShortcutFile` is the class whose methods are proved to
    compute them.
- `XmlShortcutProperties`: result order and shape, first-match profile and
  template selection, own Defines overriding inherited ones, property
  inheritance along the chain, and eager enumeration.
- `XmlShortcutOrder`: which virtual shortcuts come back and in what order,
  against reference definitions on documents whose names and `inherits`
  attributes hold no placeholder.
- `ShortcutExecutor` (JRun/src/ShortcutExecutor.cs): parameters and their
  fluent setters, the dotted error path, and the lookup, argument appending
  and error mapping of `ExecuteShortcut`.
- `ShortcutWindow` (JRunUI/src/controls/ShortcutWindow.xaml.cs): the
  auto-complete name rule, the history update, the un-highlighted text and
  the guard that writes a completion back.
- `HotKeyString` (JRunUI/src/HotKeyString.cs): the modifier-key table and
  the hotkey string round trip, with the WPF converters as parameters.

## How the code was followed

The code behaves as follows, and the model with it:

- A copied collection shares its value cells with its source, so
  finalizing through one is seen through the other.
- A copied dictionary is case-sensitive: it is built without the
  OrdinalIgnoreCase comparer.
- A collection that never received a Define has a null dictionary, and any
  placeholder then dereferences null.
- The context node of a virtual shortcut is the Shortcut node itself.
- An absent `Params` stays null (`None`).
- The whole virtual-shortcut list is built before `GetShortcut` searches
  it.

Template chains and macro self-references have no cycle guard in the code.
The model bounds both with a `fuel`/`depth` count. A walk that exceeds the
bound ends in the error `OutOfFuel`, where the code would not terminate.

## Model

| member | source | states |
|---|---|---|
| Text.IndexOf | JRunUI/src/HotKeyString.cs:110 | `String.IndexOf`: -1 exactly when the pattern occurs nowhere; otherwise an occurrence with none before it |
| Text.LastIndexOf | JRunUI/src/controls/ShortcutWindow.xaml.cs:394 | `String.LastIndexOf`: -1 exactly when the pattern occurs nowhere; otherwise an occurrence with none after it |
| XmlTree.GetAttributeValue | JRun/src/Extensions.cs:42-55 | present exactly when the node has an attribute collection holding the name, and then it is that attribute's value; None otherwise |
| XmlTree.SetThenGet | JRun/src/Extensions.cs:57-71 | after setting, the attribute reads back as the new value (created if missing); every other attribute and every other part of the node are unchanged; a no-op without an attribute collection |
| XmlTree.XmlDocument.SetAttributeValue | JRun/src/Extensions.cs:57-71 | only the given node changes; the set attribute reads back when the node has attributes, and all other attributes read as before |
| XmlTree.GetDebugName | JRun/src/Extensions.cs:73-83 | the `name` attribute whenever it is present, even if empty; otherwise the tag name |
| XmlTree.WithTagExactly | JRun/src/Extensions.cs:29-40 | filtering by tag keeps exactly the members with that tag, in their original order (a subsequence) |
| XmlTree.SelectXmlNodes | JRun/src/Extensions.cs:29-40 | the filtering loop yields exactly the direct children with the tag, in document order |
| XmlTree.FirstChildNamed | JRun/src/XmlShortcutFile.cs:296 | `SelectSingleNode(tag)`: the first child with the tag, with no earlier child having it; None exactly when no child has it |
| XmlMacro.Assign | JRun/src/XmlMacro.cs:36-51 | a null value is rejected; a finalized value throws and stays as it was; otherwise the value is stored and finalized |
| XmlMacro.MacroHeap.Alloc | JRun/src/XmlMacro.cs:62-65 | `new XmlMacroValue(initial)`: a fresh unfinalized value holding `initial`; existing values unchanged |
| XmlMacro.MacroHeap.SetValue | JRun/src/XmlMacro.cs:36-51 | the `Value` setter on one value: on success only that value changes, to the assigned and finalized one; on error nothing changes |
| XmlMacro.Lookup | JRun/src/XmlMacro.cs:174 | `TryGetValue`: found exactly when the name's key under the dictionary's comparer is present, giving that entry's value cell |
| XmlMacro.CopyDict | JRun/src/XmlMacro.cs:95 | the copy is case-sensitive and holds every entry of its source under the same spelling and value cell, and nothing else |
| XmlMacro.CopyScope | JRun/src/XmlMacro.cs:86-97 | the node set is copied; a null dictionary stays null, and a present one is copied |
| XmlMacro.WithMacros | JRun/src/XmlMacro.cs:102-147 | `AddMacros` only appends values to the store, and the resulting tables refer to values in it |
| XmlMacro.WithDefines | JRun/src/XmlMacro.cs:118-146 | the Define loop only appends values to the store, and the resulting tables refer to values in it |
| XmlMacro.MatchAt | JRun/src/XmlMacro.cs:156-157 | the pattern `\{\w+\}` or `\[\w+\]` matches at a position exactly when a placeholder starts there, and then gives its closing index |
| XmlMacro.Expand | JRun/src/XmlMacro.cs:152-161 | `GetExpandedValue` keeps the store's size: expansion only rewrites existing values |
| XmlMacro.Replace | JRun/src/XmlMacro.cs:156-157 | the `Regex.Replace` scan keeps the store's size |
| XmlMacro.Substitute | JRun/src/XmlMacro.cs:167-195 | `MacroReplace` keeps the store's size |
| XmlMacro.MacroCollection.constructor | JRun/src/XmlMacro.cs:79-81 | a new collection has both tables null |
| XmlMacro.MacroCollection.Of | JRun/src/XmlShortcutFile.cs:228-229 | a collection holding exactly the tables of a virtual shortcut's scope |
| XmlMacro.MacroCollection.Copy | JRun/src/XmlMacro.cs:86-97 | the copy holds the copied tables of its source and refers to the same store |
| XmlMacro.MacroCollection.AddMacros | JRun/src/XmlMacro.cs:102-147 | the outcome, new tables and new store are those of `WithMacros` |
| XmlMacro.MacroCollection.GetExpandedValue | JRun/src/XmlMacro.cs:152-161 | the result and the new store are those of `Expand` |
| XmlMacro.MacroCollection.ReplaceAll | JRun/src/XmlMacro.cs:156-157 | the result and the new store are those of `Replace` from the start |
| XmlMacro.MacroCollection.MacroReplace | JRun/src/XmlMacro.cs:167-195 | the result and the new store are those of `Substitute` |
| XmlMacroProperties.LookupPut | JRun/src/XmlMacro.cs:134-135 | after `Remove` and `Add`, a name with the same key finds the new value cell; every other name finds what it found before |
| XmlMacroProperties.WithDefinesShape | JRun/src/XmlMacro.cs:118-146 | the valid Defines up to the first invalid one are added, each as a fresh unfinalized value; the first invalid one throws "must have a name" or "must have a value" and the earlier ones stay added; the node set and comparer are unchanged |
| XmlMacroProperties.WithDefinesLookup | JRun/src/XmlMacro.cs:118-136 | last write wins: a name resolves to the value of the last valid Define with its key (OrdinalIgnoreCase in a new dictionary), and otherwise to what it resolved to before |
| XmlMacroProperties.AddMacrosFreshNode | JRun/src/XmlMacro.cs:102-147 | on a node not yet seen, the node is recorded first and stays recorded even when a Define throws; the store, outcome and lookups are those of the Define loop |
| XmlMacroProperties.AddMacrosTwice | JRun/src/XmlMacro.cs:109-116 | on a node already in the node set (also one inherited through a copy), AddMacros throws "added twice" and adds nothing |
| XmlMacroProperties.SecondAddThrows | JRun/src/XmlMacro.cs:102-116 | adding the same node's macros twice to one collection always throws the second time |
| XmlMacroProperties.CopySharesCells | JRun/src/XmlMacro.cs:95 | the copy finds every entry of its source, under the same spelling, in the same shared value cell |
| XmlMacroProperties.CopyOfCaseSensitive | JRun/src/XmlMacro.cs:86-97 | copying a case-sensitive dictionary yields the same dictionary |
| XmlMacroProperties.CopyIsCaseSensitive | JRun/src/XmlMacro.cs:95 | for every dictionary and name, the copy finds the name exactly when the original holds it under that very spelling, and then in the same cell; a name the original finds under another spelling is not found in the copy |
| XmlMacroProperties.BranchAndAdd | JRun/src/XmlMacro.cs:86-97 | adding macros to a copy leaves its source collection unchanged, while the copy's new state is that of AddMacros on the copied tables |
| XmlMacroProperties.ReplacePlain | JRun/src/XmlMacro.cs:156-157 | a scan over text without a placeholder of its kind returns the text and leaves the store alone |
| XmlMacroProperties.ExpandPlain | JRun/src/XmlMacro.cs:152-161 | text with no `{\w+}` and no `[\w+]` match is returned unchanged, and no value is touched |
| XmlMacroProperties.RequiredUndefinedThrows | JRun/src/XmlMacro.cs:184-189 | the first required placeholder naming an undefined macro makes the expansion throw "Macro ... is undefined" with that name |
| XmlMacroProperties.DropsUndefinedOptional | JRun/src/XmlMacro.cs:191 | the optional pass replaces a placeholder naming an undefined macro by "" |
| XmlMacroProperties.OptionalUndefinedVanishes | JRun/src/XmlMacro.cs:152-191 | expanding text with one optional placeholder naming an undefined macro yields the text around it |
| XmlMacroProperties.ReplaceNull | JRun/src/XmlMacro.cs:156-174 | with a null dictionary, a scan throws NullReference when a placeholder of its kind occurs in the rest of the text, and otherwise copies that rest, touching nothing |
| XmlMacroProperties.NullCollectionThrows | JRun/src/XmlMacro.cs:152-174 | in a collection that never received a Define, any text holding a placeholder of either kind dereferences null, and any other text comes back unchanged |
| XmlMacroProperties.ReplacesPlaceholder | JRun/src/XmlMacro.cs:156-195 | after text without a placeholder of its kind, a placeholder is replaced by what `MacroReplace` returns for its name and the scan goes on over the rest in the store that call leaves; an error of either ends the scan with that error |
| XmlMacroProperties.DefinedReplaced | JRun/src/XmlMacro.cs:156-182 | a placeholder naming a defined macro is replaced by its cached text when finalized, or else by the expansion of its raw text, with the rest of the text scanned after it |
| XmlMacroProperties.ExpandPasses | JRun/src/XmlMacro.cs:152-161 | by definition, `GetExpandedValue` runs the required pass over the whole text, then the optional pass over its output in the store the first pass leaves; an error of the first pass is returned |
| XmlMacroProperties.OptionalAfterRequired | JRun/src/XmlMacro.cs:152-161 | a required placeholder whose macro is finalized is put in place first, and the optional pass then runs over the result, so optional placeholders in the macro's text are replaced too |
| XmlMacroProperties.ExpandFinalizesOnly | JRun/src/XmlMacro.cs:152-161 | expansion only finalizes values, and never changes a finalized one |
| XmlMacroProperties.ReplaceFinalizesOnly | JRun/src/XmlMacro.cs:156-157 | each replacement pass only finalizes values, and never changes a finalized one |
| XmlMacroProperties.SubstituteFinalizesOnly | JRun/src/XmlMacro.cs:174-182 | `MacroReplace` only finalizes values, and never changes a finalized one |
| XmlMacroProperties.SubstituteStores | JRun/src/XmlMacro.cs:174-182 | a finalized value is returned as cached with nothing changed; an unfinalized one is expanded from its raw text; on success the value is finalized holding the returned text |
| XmlMacroProperties.LaterReferencesAreCached | JRun/src/XmlMacro.cs:174-182 | once a reference has succeeded, every later reference to the same value through any collection sharing it returns the cached text and changes nothing |
| XmlShortcutSpec.NewVirtualShortcut | JRun/src/XmlShortcutFile.cs:59-70 | the `XmlVirtualShortcut` constructor rejects exactly the empty name, with an argument-empty error for `inName`, and otherwise holds the given fields |
| XmlShortcutSpec.ExpandedAttribute | JRun/src/XmlShortcutFile.cs:265-282 | an absent attribute gives None with the store untouched; a present one gives the expansion of its raw value in the store the expansion leaves, and a failed expansion becomes an AttributeNotExpanded XML error at the node, naming the attribute and wrapping the expansion's error |
| XmlShortcutSpec.AttributeMatches | JRun/src/XmlShortcutFile.cs:247-259 | true exactly when the attribute is present and its expanded value equals the check ignoring case; errors and store as for the attribute's expansion |
| XmlShortcutSpec.SearchChildren | JRun/src/XmlShortcutFile.cs:377-388 | a found template is one of the children searched |
| XmlShortcutSpec.TemplateSearch | JRun/src/XmlShortcutFile.cs:375-396 | `FindTemplate` keeps the store's size and finds only document nodes |
| XmlShortcutSpec.TemplateOf | JRun/src/XmlShortcutFile.cs:350-370 | `GetNodeTemplate` gives None exactly when `inherits` is absent, and then touches nothing; an expansion error is returned; an empty `inherits` throws "Could not find template" at the node; a parentless node dereferences null; otherwise `FindTemplate`'s error or template is returned, and nothing found throws "Could not find template" naming it; a found template is a document node |
| XmlShortcutSpec.WithTemplateMacros | JRun/src/XmlShortcutFile.cs:323-333 | `AddTemplateMacros` only appends to the store, and the resulting tables refer to it |
| XmlShortcutSpec.TemplateMacrosStep | JRun/src/XmlShortcutFile.cs:323-333 | a template error stops everything; with no template only the node's own macros are added; otherwise the template's whole chain is added first and, if it succeeds, the node's own macros after it |
| XmlShortcutSpec.PropertyText | JRun/src/XmlShortcutFile.cs:294-303 | the property loop keeps the store's size |
| XmlShortcutSpec.PropertyTextStep | JRun/src/XmlShortcutFile.cs:294-303 | for an element without the property, the lookup fails with a template error, ends with None at the last template, or continues in the template |
| XmlShortcutSpec.PropertyOf | JRun/src/XmlShortcutFile.cs:289-318 | `GetPropertyValue`: a loop error or a property found nowhere is returned as is; found text gives its expansion in the store the expansion leaves, and a failed expansion becomes a PropertyNotExpanded XML error at the node, wrapping the expansion's error |
| XmlShortcutSpec.VirtualShortcutOf | JRun/src/XmlShortcutFile.cs:186-205 | only appends to the store, and a shortcut made refers to document nodes and to values in the store |
| XmlShortcutSpec.ShortcutsAmong | JRun/src/XmlShortcutFile.cs:146-154 | every shortcut in a successful result refers to document nodes and to values in the store |
| XmlShortcutSpec.ChainShortcuts | JRun/src/XmlShortcutFile.cs:210-219 | every shortcut in a successful result refers to document nodes and to values in the store |
| XmlShortcutSpec.ShortcutsChainStep | JRun/src/XmlShortcutFile.cs:210-219 | `GetAllShortcutNodes` as consumed: one element's Shortcut children first, then its template looked up, then the rest of the chain from the template |
| XmlShortcutSpec.ListsChainStep | JRun/src/XmlShortcutFile.cs:157-174 | the List loop: one chain element's Lists first, then its template looked up, then the rest of the chain from the template |
| XmlShortcutSpec.ListsAmong | JRun/src/XmlShortcutFile.cs:159-173 | every shortcut in a successful result refers to document nodes and to values in the store |
| XmlShortcutSpec.ChainLists | JRun/src/XmlShortcutFile.cs:157-174 | every shortcut in a successful result refers to document nodes and to values in the store |
| XmlShortcutSpec.ProfileShortcuts | JRun/src/XmlShortcutFile.cs:142-174 | every shortcut in a successful result refers to document nodes and to values in the store |
| XmlShortcutSpec.ProfileScan | JRun/src/XmlShortcutFile.cs:138-178 | every shortcut in a successful result refers to document nodes and to values in the store |
| XmlShortcutSpec.VirtualShortcuts | JRun/src/XmlShortcutFile.cs:134-181 | every shortcut in a successful result refers to document nodes and to values in the store |
| XmlShortcutSpec.Names | JRun/src/XmlShortcutFile.cs:95-101 | one name per virtual shortcut, in the same order |
| XmlShortcutSpec.Materialized | JRun/src/XmlShortcutFile.cs:224-241 | `CreateShortcut` keeps the store's size; an error of the `Path` or `Params` property is returned; an absent or empty expanded `Path` throws "no executable path" at the context node; otherwise the shortcut's executable is the expanded `Path` and its params the expanded `Params`, None when absent |
| XmlShortcutSpec.FirstNamed | JRun/src/XmlShortcutFile.cs:120-126 | the first virtual shortcut whose name equals the wanted one ignoring case; None exactly when none does |
| XmlShortcutSpec.MaterializedAll | JRun/src/XmlShortcutFile.cs:107-113 | one shortcut per virtual shortcut, appended after those already made; the elements themselves are stated by `XmlShortcutContents.MaterializedAllElement` |
| XmlShortcutSpec.Opened | JRun/src/XmlShortcutFile.cs:81-89 | the global tables refer to values in the new store |
| XmlShortcutProperties.VirtualShortcutShape | JRun/src/XmlShortcutFile.cs:186-205 | a missing or empty `name` gives no shortcut and touches nothing; an error expanding the name is returned; an expanded name that is empty gives no shortcut; otherwise the copy of the outer scope gets its chain's macros, whose error is returned, or the shortcut with the expanded name, the given context, the node and that scope |
| XmlShortcutProperties.ShortcutsAmongExtends | JRun/src/XmlShortcutFile.cs:146-154 | the loop over one element's Shortcut nodes keeps the shortcuts collected so far as a prefix and only appends well-formed shortcuts |
| XmlShortcutProperties.ChainShortcutsExtends | JRun/src/XmlShortcutFile.cs:210-219 | the walk over a chain keeps the shortcuts collected so far as a prefix and only appends well-formed shortcuts |
| XmlShortcutProperties.ListsAmongExtends | JRun/src/XmlShortcutFile.cs:159-173 | the loop over one element's Lists keeps the shortcuts collected so far as a prefix and only appends well-formed shortcuts |
| XmlShortcutProperties.ChainListsExtends | JRun/src/XmlShortcutFile.cs:157-174 | the List loop over a chain keeps the shortcuts collected so far as a prefix and only appends well-formed shortcuts |
| XmlShortcutProperties.DirectShortcutsFirst | JRun/src/XmlShortcutFile.cs:145-174 | for the chosen profile, the result of the walk over the Shortcuts of its own chain is a prefix of the whole result; every shortcut is well formed |
| XmlShortcutProperties.ProfileScanWellFormed | JRun/src/XmlShortcutFile.cs:138-178 | every shortcut the profile loop returns has a non-empty name and is a Shortcut node that is its own context |
| XmlShortcutProperties.VirtualShortcutsWellFormed | JRun/src/XmlShortcutFile.cs:134-181 | every virtual shortcut `GetAllVirtualShortcuts` returns has a non-empty name and is a Shortcut node that is its own context |
| XmlShortcutOrder.Named | JRun/src/XmlShortcutFile.cs:146-154 | reference: the nodes with a non-empty `name`, in order; each is a document node |
| XmlShortcutOrder.PlainTemplate | JRun/src/XmlShortcutFile.cs:350-370 | reference: the template found on a plain document; a document node |
| XmlShortcutOrder.PlainChain | JRun/src/XmlShortcutFile.cs:338-345 | reference: `NodeTemplateTree` on a plain document, the node first, then its templates; all document nodes |
| XmlShortcutOrder.PlainShortcut | JRun/src/XmlShortcutFile.cs:186-205 | on a plain document, a Shortcut node becomes a virtual shortcut of that node exactly when its `name` is non-empty |
| XmlShortcutOrder.ShortcutsAmongNodes | JRun/src/XmlShortcutFile.cs:146-154 | on a plain document, the loop over Shortcut nodes appends exactly the named ones, in document order |
| XmlShortcutOrder.PlainTemplateOf | JRun/src/XmlShortcutFile.cs:350-370 | on a plain document, a template lookup touches nothing, and one that succeeds finds the reference template |
| XmlShortcutOrder.ChainShortcutsNodes | JRun/src/XmlShortcutFile.cs:210-219 | on a plain document, the chain walk appends the named Shortcut children of the node, then of its template, and so on along the chain |
| XmlShortcutOrder.ListsAmongNodes | JRun/src/XmlShortcutFile.cs:159-173 | on a plain document, the List loop appends, List by List, the named Shortcuts along each List's own chain |
| XmlShortcutOrder.ChainListsNodes | JRun/src/XmlShortcutFile.cs:157-174 | on a plain document, the List walk appends the shortcuts of the Lists of each chain element in turn |
| XmlShortcutOrder.ProfileShortcutsNodes | JRun/src/XmlShortcutFile.cs:142-174 | on a plain document, the profile's result is exactly the named Shortcuts along its chain, followed by the shortcuts of the Lists along its chain |
| XmlShortcutOrder.VirtualShortcutsOrder | JRun/src/XmlShortcutFile.cs:134-219 | on a plain document, `GetAllVirtualShortcuts` returns no shortcut when no profile is picked, and otherwise exactly the picked profile's shortcut nodes in that order |
| XmlShortcutProperties.LookupIsEager | JRun/src/XmlShortcutFile.cs:118-129 | an error while building the list fails `GetShortcut` for every name, even one that comes before the error |
| XmlShortcutProperties.PlainMatch | JRun/src/XmlShortcutFile.cs:247-259 | with a placeholder-free name, the match compares the raw attribute ignoring case and touches no value |
| XmlShortcutProperties.FirstNamedChild | JRun/src/XmlShortcutFile.cs:377-388 | reference search: the first of the children named as wanted ignoring case, none earlier; None exactly when none is |
| XmlShortcutProperties.NearestTemplate | JRun/src/XmlShortcutFile.cs:375-396 | reference search: a found node is named as wanted, and a matching child of the start node is preferred to anything further up |
| XmlShortcutProperties.SearchChildrenPlain | JRun/src/XmlShortcutFile.cs:377-388 | on plain names, the child loop of `FindTemplate` is the first-match reference search and touches no value |
| XmlShortcutProperties.TemplateSearchPlain | JRun/src/XmlShortcutFile.cs:375-396 | on plain names, `FindTemplate` is the nearest-ancestor search: the children of the start node, then of its parent, and so on, None at the root |
| XmlShortcutProperties.FirstProfile | JRun/src/XmlShortcutFile.cs:138-141 | reference choice: with an empty filter, the first Profile; otherwise the first named by the filter ignoring case, none earlier; None exactly when none is |
| XmlShortcutProperties.ProfileScanPlain | JRun/src/XmlShortcutFile.cs:138-178 | on plain names, the profile loop processes exactly the reference choice, or returns an empty list |
| XmlShortcutProperties.TemplateOfPlain | JRun/src/XmlShortcutFile.cs:350-396 | on plain names: no `inherits` gives no template; an empty one, or one naming no template among the ancestors' children, throws "Could not find template" at the node; a parentless node dereferences null; otherwise the nearest template of that name; nothing is touched |
| XmlShortcutProperties.PropertyOfPlain | JRun/src/XmlShortcutFile.cs:289-318 | where the chain resolves and the text found holds no placeholder, `GetPropertyValue` gives the text of the first chain element that has the property |
| XmlShortcutProperties.ProfileSelection | JRun/src/XmlShortcutFile.cs:138-180 | at most one profile is processed: on plain names the first root Profile matching the filter (the first for an empty filter); none matching gives an empty list |
| XmlShortcutProperties.MacrosOverride | JRun/src/XmlMacro.cs:118-136 | after a successful AddMacros, a name the node defines resolves to a fresh unfinalized value holding its last Define's value |
| XmlShortcutProperties.OwnDefinesOverride | JRun/src/XmlShortcutFile.cs:323-333 | after a successful AddTemplateMacros, a name the node itself defines resolves to its own last Define's value, whatever its templates defined |
| XmlShortcutProperties.TemplateChain | JRun/src/XmlShortcutFile.cs:338-345 | `NodeTemplateTree` run to the end keeps the store's size |
| XmlShortcutProperties.FirstTextFinds | JRun/src/XmlShortcutFile.cs:294-303 | on a chain of document nodes, no text is found exactly when no element has the property child; otherwise it is the text of the first element that has one |
| XmlShortcutProperties.TemplateChainStep | JRun/src/XmlShortcutFile.cs:341 | a resolved chain is the node alone when it has no template, and otherwise the node followed by its template's resolved chain |
| XmlShortcutProperties.TemplateChainShape | JRun/src/XmlShortcutFile.cs:338-345 | a resolved chain starts with the node and holds only document nodes; every element but the last has `inherits`, and the last has none |
| XmlShortcutProperties.PropertyFromChain | JRun/src/XmlShortcutFile.cs:289-303 | where the chain resolves, the property is the text from the first chain element that has it, the node's own before any inherited one |
| XmlShortcutProperties.InheritedStep | JRun/src/XmlShortcutFile.cs:294-303 | for an element without the property, the chain and the property lookup both continue in its template, or both end with nothing at the last one |
| XmlShortcutFile.Open | JRun/src/XmlShortcutFile.cs:81-89 | the constructor fails exactly when the document element's Defines throw; otherwise the new file holds the document and a global collection with those Defines |
| XmlShortcutFile.ShortcutFile.GetAttributeValue | JRun/src/XmlShortcutFile.cs:265-282 | the result and the new store are those of `ExpandedAttribute` |
| XmlShortcutFile.ShortcutFile.AttributeValueMatches | JRun/src/XmlShortcutFile.cs:247-259 | the result and the new store are those of `AttributeMatches` |
| XmlShortcutFile.ShortcutFile.FindTemplate | JRun/src/XmlShortcutFile.cs:375-396 | the result and the new store are those of `TemplateSearch` |
| XmlShortcutFile.ShortcutFile.GetNodeTemplate | JRun/src/XmlShortcutFile.cs:350-370 | the result and the new store are those of `TemplateOf` |
| XmlShortcutFile.ShortcutFile.AddTemplateMacros | JRun/src/XmlShortcutFile.cs:323-333 | the outcome, the collection's new tables and the new store are those of `WithTemplateMacros` |
| XmlShortcutFile.ShortcutFile.FindPropertyText | JRun/src/XmlShortcutFile.cs:289-303 | the loop over `NodeTemplateTree` gives the result and store of `PropertyText` |
| XmlShortcutFile.ShortcutFile.GetPropertyValue | JRun/src/XmlShortcutFile.cs:289-318 | the result and the new store are those of `PropertyOf` |
| XmlShortcutFile.ShortcutFile.CreateVirtualShortcut | JRun/src/XmlShortcutFile.cs:186-205 | the result and the new store are those of `VirtualShortcutOf` |
| XmlShortcutFile.ShortcutFile.AddShortcuts | JRun/src/XmlShortcutFile.cs:146-154 | the loop gives the result and store of `ShortcutsAmong`, and the collection used is unchanged |
| XmlShortcutFile.ShortcutFile.ElementShortcuts | JRun/src/XmlShortcutFile.cs:212-218 | one chain element's Shortcuts and its template: either the chain's result, or the element the same chain goes on from |
| XmlShortcutFile.ShortcutFile.ChainShortcutsFrom | JRun/src/XmlShortcutFile.cs:210-219 | the rest of the chain gives the result and store of `ChainShortcuts` |
| XmlShortcutFile.ShortcutFile.AddChainShortcuts | JRun/src/XmlShortcutFile.cs:210-219 | the result and the new store are those of `ChainShortcuts`, and the collection used is unchanged |
| XmlShortcutFile.ShortcutFile.AddLists | JRun/src/XmlShortcutFile.cs:159-173 | the loop gives the result and store of `ListsAmong`, and the profile collection is unchanged |
| XmlShortcutFile.ShortcutFile.ElementLists | JRun/src/XmlShortcutFile.cs:157-174 | one chain element's Lists and its template: either the chain's result, or the element the same chain goes on from |
| XmlShortcutFile.ShortcutFile.ChainListsFrom | JRun/src/XmlShortcutFile.cs:157-174 | the rest of the chain gives the result and store of `ChainLists` |
| XmlShortcutFile.ShortcutFile.AddChainLists | JRun/src/XmlShortcutFile.cs:157-174 | the result and the new store are those of `ChainLists`, and the profile collection is unchanged |
| XmlShortcutContents.ThreadedElement | JRun/src/XmlShortcutFile.cs:109-112 | threading a store through calls of any size-keeping function, element `i` of the result is that function's value on the `i`-th input, in the store the walk reached there: the given store for the first, one of the same size for the others |
| XmlShortcutContents.ThreadedFailure | JRun/src/XmlShortcutFile.cs:109-112 | an error of such a walk is the function's error on some input, in a store of the same size |
| XmlShortcutContents.MaterializedAllThreaded | JRun/src/XmlShortcutFile.cs:109-112 | making the shortcuts one after the other is that walk over `CreateShortcut` |
| XmlShortcutContents.MaterializedAllElement | JRun/src/XmlShortcutFile.cs:109-112 | on success, the shortcut made for the `i`-th virtual shortcut is what `CreateShortcut` returns for it, in a store of the same size (the starting store for the first) |
| XmlShortcutContents.MaterializedAllFailure | JRun/src/XmlShortcutFile.cs:109-112 | an error is what `CreateShortcut` throws for some virtual shortcut, in a store of the same size |
| XmlShortcutContents.MaterializedFromStart | JRun/src/XmlShortcutFile.cs:109-112 | from the first virtual shortcut with none made: one shortcut per virtual shortcut, the `i`-th being what `CreateShortcut` returns for the `i`-th |
| XmlShortcutContents.AllShortcutsElement | JRun/src/XmlShortcutFile.cs:107-113 | on success, the virtual-shortcut list was built, there is one shortcut per virtual shortcut, and the `i`-th is what `CreateShortcut` returns for the `i`-th, in the store the list left (the first) or one of that size |
| XmlShortcutContents.AllShortcutsFailure | JRun/src/XmlShortcutFile.cs:107-113 | an error building the virtual-shortcut list is returned with its store; otherwise an error is what `CreateShortcut` throws for one of the virtual shortcuts |
| XmlShortcutFile.ShortcutFile.GetAllVirtualShortcuts | JRun/src/XmlShortcutFile.cs:134-181 | the result and the new store are those of `VirtualShortcuts` |
| XmlShortcutFile.ShortcutFile.GetAllShortcutNames | JRun/src/XmlShortcutFile.cs:95-101 | the result and the new store are those of `ShortcutNames` |
| XmlShortcutFile.ShortcutFile.CreateShortcut | JRun/src/XmlShortcutFile.cs:224-241 | the result and the new store are those of `Materialized` |
| XmlShortcutFile.ShortcutFile.GetShortcut | JRun/src/XmlShortcutFile.cs:118-129 | the result and the new store are those of `ShortcutLookup` |
| XmlShortcutFile.ShortcutFile.GetAllShortcuts | JRun/src/XmlShortcutFile.cs:107-113 | the result and the new store are those of `AllShortcuts`, whose elements and errors `XmlShortcutContents.AllShortcutsElement` and `XmlShortcutContents.AllShortcutsFailure` state |
| ShortcutExecutor.ShortcutParams.constructor | JRun/src/ShortcutExecutor.cs:33-39 | File is "Shortcuts.xml" and Profile, Shortcut and Args are empty |
| ShortcutExecutor.ShortcutParams.SetShortcut | JRun/src/ShortcutExecutor.cs:41 | only Shortcut changes, and the same object is returned |
| ShortcutExecutor.ShortcutParams.SetFile | JRun/src/ShortcutExecutor.cs:42 | only File changes, and the same object is returned |
| ShortcutExecutor.ShortcutParams.SetProfile | JRun/src/ShortcutExecutor.cs:43 | only Profile changes, and the same object is returned |
| ShortcutExecutor.ShortcutParams.SetArgs | JRun/src/ShortcutExecutor.cs:44 | only Args changes, and the same object is returned |
| ShortcutExecutor.Lineage | JRun/src/ShortcutExecutor.cs:161-164 | the node's ancestors and the node, ending with the node |
| ShortcutExecutor.LineageDescends | JRun/src/ShortcutExecutor.cs:161-164 | the lineage starts at a node with no parent, and each node is the parent of the next |
| ShortcutExecutor.DebugNames | JRun/src/ShortcutExecutor.cs:159-163 | the debug name of each node, in order |
| ShortcutExecutor.NodePathIsLineage | JRun/src/ShortcutExecutor.cs:157-167 | the error path is the debug names from the outermost ancestor down to the failing node, joined by "." |
| ShortcutExecutor.CreateXmlException | JRun/src/ShortcutExecutor.cs:157-167 | the loop over parent links builds the node path and wraps the XML error in a `JRunException` |
| ShortcutExecutor.XmlReportOf | JRun/src/ShortcutExecutor.cs:112-115 | the report wraps the XML error, with the node's dotted path for a document node |
| ShortcutExecutor.XmlReport | JRun/src/ShortcutExecutor.cs:112-115 | computes `XmlReportOf` |
| ShortcutExecutor.MapError | JRun/src/ShortcutExecutor.cs:112-123 | an XML error becomes a `JRunException` wrapping it, a `JRunException` is rethrown unchanged, and anything else is wrapped with the shortcut, profile and file |
| ShortcutExecutor.ReportError | JRun/src/ShortcutExecutor.cs:112-123 | the three catch clauses compute `MapError` |
| ShortcutExecutor.WithArgs | JRun/src/ShortcutExecutor.cs:106 | the executable is kept and Params becomes the old Params (null read as empty), a space and the extra arguments |
| ShortcutExecutor.ExecuteShortcut | JRun/src/ShortcutExecutor.cs:94-124 | null parameters are rejected first; otherwise the result is `Execution` for the parameters' values |
| ShortcutExecutor.ExecutionFalse | JRun/src/ShortcutExecutor.cs:100-110 | false exactly when the file loads and no shortcut matches, and then the launcher plays no part |
| ShortcutExecutor.ExecutionTrue | JRun/src/ShortcutExecutor.cs:100-110 | true exactly when a shortcut is found and its launch, with the arguments appended, succeeds |
| ShortcutExecutor.ExecutionErrors | JRun/src/ShortcutExecutor.cs:112-123 | the caller only ever sees a `JRunException` or the wrapping `JException`, never a bare XML error |
| ShortcutExecutor.GetAllShortcutNames | JRun/src/ShortcutExecutor.cs:139-155 | the result is `NameListing`: a missing document or an opening error is reported (an XML error with its node path, anything else wrapped with the profile and file); the enumeration's own result passes through |
| ShortcutExecutor.NameListingParts | JRun/src/ShortcutExecutor.cs:139-155 | an opening error reaches the caller as a `JRunException` or the wrapping `JException`; after a successful open, the result is the names of the profile's virtual shortcuts in order, or the enumeration's error unwrapped |
| ShortcutExecutor.GetDefaultShortcutNames | JRun/src/ShortcutExecutor.cs:130-133 | the same with default parameters: the empty profile of "Shortcuts.xml" |
| ShortcutWindow.Candidates | JRunUI/src/controls/ShortcutWindow.xaml.cs:274-283 | there are no more candidates than enumerated names, and each starts with the input ignoring case |
| ShortcutWindow.CandidatesExactly | JRunUI/src/controls/ShortcutWindow.xaml.cs:274-283 | the candidates are exactly the names that start with the input ignoring case, in enumeration order |
| ShortcutWindow.FirstRemembered | JRunUI/src/controls/ShortcutWindow.xaml.cs:285-301 | the first history entry that starts with the input and equals a candidate ignoring case; None exactly when there is none |
| ShortcutWindow.Completion | JRunUI/src/controls/ShortcutWindow.xaml.cs:274-308 | no completion when the enumeration threw; any completion starts with the input ignoring case |
| ShortcutWindow.CompletionProperties | JRunUI/src/controls/ShortcutWindow.xaml.cs:274-308 | a completion exists exactly when the enumeration succeeded and some name starts with the input; it starts with the input and names an enumerated shortcut, ignoring case |
| ShortcutWindow.CompletionChoice | JRunUI/src/controls/ShortcutWindow.xaml.cs:285-308 | by definition, a history match wins, in the history's spelling; otherwise the first candidate; with no candidate, no output |
| ShortcutWindow.UpdateAutoComplete | JRunUI/src/controls/ShortcutWindow.xaml.cs:274-308 | the candidate loop and the history search compute the name rule |
| ShortcutWindow.RemoveFirstAbsent | JRunUI/src/controls/ShortcutWindow.xaml.cs:225 | `Remove` of a text that is absent changes nothing |
| ShortcutWindow.RemoveFirstAt | JRunUI/src/controls/ShortcutWindow.xaml.cs:225 | `Remove` cuts out exactly the first occurrence of the text |
| ShortcutWindow.Recorded | JRunUI/src/controls/ShortcutWindow.xaml.cs:221-226 | the recorded history starts with the text |
| ShortcutWindow.RemoveFirstDistinct | JRunUI/src/controls/ShortcutWindow.xaml.cs:225 | removing from a history without repeats leaves one without repeats and without the text |
| ShortcutWindow.RecordedKeepsDistinct | JRunUI/src/controls/ShortcutWindow.xaml.cs:221-226 | recording keeps a history free of repeats, with the text once at the front |
| ShortcutWindow.RemoveFirstSubsequence | JRunUI/src/controls/ShortcutWindow.xaml.cs:225 | the other entries keep their relative order |
| ShortcutWindow.History.constructor | JRunUI/src/controls/ShortcutWindow.xaml.cs:221-224 | the history is null until the first successful run |
| ShortcutWindow.History.HandleShortcutResult | JRunUI/src/controls/ShortcutWindow.xaml.cs:216-226 | a successful run moves, or puts, the text to the front of the history (creating it if null); any other result leaves it unchanged |
| ShortcutWindow.GetUnHighlightedText | JRunUI/src/controls/ShortcutWindow.xaml.cs:388-399 | with a non-empty selection that ends the text, the text before it; otherwise the whole text |
| ShortcutWindow.HandleAutoCompleteResult | JRunUI/src/controls/ShortcutWindow.xaml.cs:367-382 | only when there is a completion and the un-highlighted text equals the input, the text becomes the completion with the completed part selected; otherwise nothing changes |
| ShortcutWindow.CompletedTextKeepsTypedPart | JRunUI/src/controls/ShortcutWindow.xaml.cs:371-379 | once a completion is written, the un-highlighted part is what the user typed, up to case |
| HotKeyString.TableAgrees | JRunUI/src/HotKeyString.cs:35-50 | the table maps exactly the left and right Alt, Ctrl and Shift keys and both Windows keys, each to its modifier |
| HotKeyString.GetModifierKey | JRunUI/src/HotKeyString.cs:56-71 | at most one modifier |
| HotKeyString.GetModifierKeyCases | JRunUI/src/HotKeyString.cs:56-71 | the system key's modifier wins over the regular key's; the result is empty exactly when neither key is a modifier key |
| HotKeyString.GetHotKeyString | JRunUI/src/HotKeyString.cs:76-95 | no part set prints as ""; when the printed parts hold no space, the delimiter occurs exactly when both parts are set, and then first right after the modifier part |
| HotKeyString.FromHotKeyString | JRunUI/src/HotKeyString.cs:100-137 | an unsuccessful parse leaves both outputs at None |
| HotKeyString.HotKeyRoundTrip | JRunUI/src/HotKeyString.cs:76-137 | a hotkey string written by `GetHotKeyString` reads back as the same pair, with success exactly when some part was set |

## Left out

- XML loading (`XmlDocument.Load`) and general XPath: the document is an input. `SelectXmlNodes` and `SelectSingleNode` are child-by-tag selection. A load failure of `ExecuteShortcut` and `GetAllShortcutNames` is the `None` document.
- The .NET regular-expression engine: `\w` is ASCII letters, digits and `_`. OrdinalIgnoreCase is upper-casing of ASCII letters. Other Unicode case mappings are not modelled.
- Culture-sensitive `EndsWith` and `LastIndexOf` in `GetUnHighlightedText`, and the culture-sensitive `IndexOf` in `FromHotKeyString`, are modelled as ordinal comparisons.
- Process launching and filesystem checks: `Shortcut.Execute` is the `launch` parameter of `ExecuteShortcut`. `SelectProfile`, `ExecuteFileSystem` and the directory completion of `UpdateAutoComplete` (`AutoCompletDirectory` over the drives) are not modelled.
- The UI: window events, timers, dialogs and animations. In `HandleShortcutResult` only the history update is modelled.
- Threading: the `BackgroundWorker` dispatch of auto-completion is not modelled.
- Options window, registry, settings persistence, command line and logging.
- Win32 hotkey registration (JRunUI/src/HotKey.cs) is not part of this model.
- The WPF `ModifierKeysConverter` and `KeyConverter` are function parameters. A converter exception is a `None` result.
- Termination: template chains and macro self-references are bounded by fuel. A longer chain ends in `OutOfFuel`, where the code would not terminate.
- Objects as references: a virtual shortcut holds its collection's tables as a value, and `CreateShortcut` rebuilds a collection from them. The value cells stay shared through the store, so finalization is still seen everywhere. The identity of the collection object is not.
- `NodeTemplateTree` and `GetAllShortcutNodes` are lazy iterators in the code. The walks that consume them are modelled as recursion over the chain, and `GetPropertyValue`'s walk as a loop.
- `JArgumentNullException` checks on arguments other than `parameters` of `ExecuteShortcut` are not modelled. Values can never be null in Dafny. `String.IsNullOrEmpty` is a test for "".
- Dead paths: an expansion never produces null, so `CreateVirtualShortcut` and `GetAttributeValue` only test for "" and presence.
- XmlShortcutSpec.SearchChildren, XmlShortcutSpec.TemplateSearch, XmlShortcutSpec.PropertyText, XmlShortcutProperties.TemplateChain: their own contracts only bound the store; what they compute is stated by the lemmas `SearchChildrenPlain`, `TemplateSearchPlain`, `PropertyFromChain`, `FirstTextFinds` and `TemplateChainShape`.
- XmlMacro.Expand, XmlMacro.Replace, XmlMacro.Substitute: their own contracts state only what happens to the store. The two passes are `ExpandPasses`; a placeholder and the text around it are `ReplacesPlaceholder` and `DefinedReplaced`; plain text is `ReplacePlain`; undefined names and a null dictionary are `RequiredUndefinedThrows`, `DropsUndefinedOptional` and `ReplaceNull`; caching is `SubstituteStores`.
- XmlMacro.WithMacros, XmlMacro.WithDefines: their own contracts state only what happens to the store; the Define rules are `WithDefinesShape`, `WithDefinesLookup` and `AddMacrosFreshNode`.
- XmlMacroProperties.DefinedReplaced: for a macro value that is not finalized, stated when its expansion succeeds without finalizing that same value; a macro that refers to itself is not covered.
- XmlShortcutSpec.WithTemplateMacros: its own contract states only the store bound; what it computes is stated by `TemplateMacrosStep` and `OwnDefinesOverride`.
- XmlShortcutSpec.VirtualShortcutOf: its own contract states only the store bound and well-formedness; what it computes is stated by `VirtualShortcutShape`.
- XmlShortcutSpec.ShortcutsAmong, XmlShortcutSpec.ChainShortcuts, XmlShortcutSpec.ListsAmong, XmlShortcutSpec.ChainLists, XmlShortcutSpec.ProfileShortcuts, XmlShortcutSpec.ProfileScan, XmlShortcutSpec.VirtualShortcuts: their own contracts state only that a result refers to document nodes and store values. Which shortcuts come back, and in what order, is stated by the lemmas of `XmlShortcutOrder`.
- XmlShortcutSpec.MaterializedAll: `GetAllShortcuts` is a lazy iterator in the code (`yield return`, JRun/src/XmlShortcutFile.cs:107-113); the model enumerates it to the end. So a consumer that stops early and never meets a later `CreateShortcut` error is not modelled, nor is one that receives the first k shortcuts before `CreateShortcut` throws on the next; the model returns the error alone. The store each shortcut is made in is stated only by its size, except for the first, which is made in the store the virtual-shortcut list left.
- XmlShortcutOrder.PlainShortcut, XmlShortcutOrder.ShortcutsAmongNodes, XmlShortcutOrder.PlainTemplateOf, XmlShortcutOrder.ChainShortcutsNodes, XmlShortcutOrder.ListsAmongNodes, XmlShortcutOrder.ChainListsNodes, XmlShortcutOrder.ProfileShortcutsNodes, XmlShortcutOrder.VirtualShortcutsOrder: these lemmas are stated for plain documents, whose `name` and `inherits` attributes hold no placeholder, and for a successful run. There the template lookups and the naming do not depend on macros. A document whose names are built from macros is only covered by the well-formedness lemmas.
- XmlShortcutProperties.DirectShortcutsFirst: states the prefix and well-formedness for every document. The contents of both parts, and that the Lists' shortcuts follow, are stated by `ProfileShortcutsNodes` for plain documents.
- XmlShortcutProperties.PropertyOfPlain: stated where the text found holds no placeholder, so that its expansion is the text itself.
- XmlShortcutProperties.SearchChildrenPlain, XmlShortcutProperties.TemplateSearchPlain, XmlShortcutProperties.ProfileScanPlain, XmlShortcutProperties.ProfileSelection: stated for documents whose `name` attributes hold no placeholders, so that matching does not depend on expansion.
- XmlShortcutProperties.MacrosOverride, XmlShortcutProperties.OwnDefinesOverride: stated for a node whose Defines are all valid, on success.
- XmlShortcutProperties.PropertyFromChain: stated where the whole template chain resolves. `GetPropertyValue` stops at the first element with the property, and may succeed where a later template would fail.
- `ShortcutExecutor.GetAllShortcutNames` returns an iterator, so the code's `try` only covers opening the file. The model enumerates the names at once, and an error raised during the enumeration is returned unwrapped, as the code lets it escape.
- ShortcutExecutor.XmlReportOf: an XML error at a node outside the document gets an empty path. The operations modelled never raise one.
- ShortcutWindow.HandleAutoCompleteResult: a completion shorter than the input, which `TextBox.Select` would reject, is excluded by its precondition. The name rule only produces completions that extend the input.
- HotKeyString.HotKeyRoundTrip: holds for converters that read back what they write and print no spaces, and for a modifier converter that reads a key's name as no modifier. The WPF `ModifierKeysConverter` does not meet the last condition: on a key-only string such as "A", `FromHotKeyString` calls it on the whole string (JRunUI/src/HotKeyString.cs:122) and it throws, uncaught. The model cannot express that throw and parses such a string as None; either way, the round trip does not hold in the program for a hotkey with a key and no modifier.
- HotKeyString.FromHotKeyString: only the failure case is in its own contract. The successful cases are stated by `HotKeyRoundTrip`.
- XmlShortcutFile.ShortcutFile: the recursive methods take a ghost argument naming the rest of the walk. It equals the specification function under a non-recursive name (`WithTemplateMacrosAt`, `ChainShortcutsAt`, `ChainListsAt`, `ShortcutsAmongAt`, `ListsAmongAt`).
