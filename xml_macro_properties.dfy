/**
 * Properties of macro collections: what AddMacros leaves behind, how
 * copies relate to their source, and what expansion does with required,
 * optional, undefined, finalized and unfinalized macros.
 */
module XmlMacroProperties {
  import opened Wrappers
  import opened Text
  import opened XmlTree
  import opened Errors
  import opened XmlMacro

  // ---------------------------------------------------------------------
  // AddMacros
  // ---------------------------------------------------------------------

  /** A Define with a non-empty `name` and a present `value`. */
  ghost predicate ValidDefine(t: Tree, def: NodeId)
    requires def < |t.nodes|
  {
    var name := GetAttributeValue(t.nodes[def], "name");
    name.Some? && name.value != "" && GetAttributeValue(t.nodes[def], "value").Some?
  }

  ghost function DefineName(t: Tree, def: NodeId): string
    requires def < |t.nodes| && ValidDefine(t, def)
  {
    GetAttributeValue(t.nodes[def], "name").value
  }

  ghost function DefineValue(t: Tree, def: NodeId): string
    requires def < |t.nodes| && ValidDefine(t, def)
  {
    GetAttributeValue(t.nodes[def], "value").value
  }

  /** The error thrown for an invalid Define: a missing name is reported before a missing value. */
  ghost function DefineProblem(t: Tree, def: NodeId): XmlProblem
    requires def < |t.nodes|
  {
    var name := GetAttributeValue(t.nodes[def], "name");
    if name.None? || name.value == "" then DefineWithoutName else DefineWithoutValue
  }

  ghost predicate AllBelow(t: Tree, defs: seq<NodeId>) {
    forall k :: 0 <= k < |defs| ==> defs[k] < |t.nodes|
  }

  /** The index of the first invalid Define at or after `i`, or `|defs|`. */
  ghost function ValidUpTo(t: Tree, defs: seq<NodeId>, i: nat): (v: nat)
    requires AllBelow(t, defs) && i <= |defs|
    ensures i <= v <= |defs|
    ensures forall k :: i <= k < v ==> ValidDefine(t, defs[k])
    ensures v < |defs| ==> !ValidDefine(t, defs[v])
    decreases |defs| - i
  {
    if i == |defs| || !ValidDefine(t, defs[i]) then i else ValidUpTo(t, defs, i + 1)
  }

  /** The fresh cells the Defines `defs[i..j]` allocate, in order. */
  ghost function DefineCells(t: Tree, defs: seq<NodeId>, i: nat, j: nat): (cs: Heap)
    requires AllBelow(t, defs) && i <= j <= |defs|
    requires forall k :: i <= k < j ==> ValidDefine(t, defs[k])
    ensures |cs| == j - i
    ensures forall k :: i <= k < j ==> cs[k - i] == MacroValue(DefineValue(t, defs[k]), false)
    decreases j - i
  {
    if i == j then [] else [MacroValue(DefineValue(t, defs[i]), false)] + DefineCells(t, defs, i + 1, j)
  }

  /** The last Define in `defs[i..j]` whose name has the same key as `n`. */
  ghost function LastDefining(t: Tree, defs: seq<NodeId>, i: nat, j: nat, ignoreCase: bool, n: string): (r: Option<nat>)
    requires AllBelow(t, defs) && i <= j <= |defs|
    requires forall k :: i <= k < j ==> ValidDefine(t, defs[k])
    ensures r.Some? ==> i <= r.value < j && KeyOf(ignoreCase, DefineName(t, defs[r.value])) == KeyOf(ignoreCase, n)
    ensures r.Some? ==> forall k :: r.value < k < j ==> KeyOf(ignoreCase, DefineName(t, defs[k])) != KeyOf(ignoreCase, n)
    ensures r.None? ==> forall k :: i <= k < j ==> KeyOf(ignoreCase, DefineName(t, defs[k])) != KeyOf(ignoreCase, n)
    decreases j - i
  {
    if i == j then None
    else match LastDefining(t, defs, i + 1, j, ignoreCase, n)
      case Some(k) => Some(k)
      case None => if KeyOf(ignoreCase, DefineName(t, defs[i])) == KeyOf(ignoreCase, n) then Some(i) else None
  }

  function LookupIn(d: Option<Dict>, n: string): Option<CellRef> {
    if d.None? then None else Lookup(d.value, n)
  }

  /** The comparer a dictionary has, or will be created with. */
  function IgnoresCase(d: Option<Dict>): bool {
    d.None? || d.value.ignoreCase
  }

  lemma LookupPut(d: Dict, name: string, c: CellRef, n: string)
    ensures Lookup(Put(d, name, c), n) == if KeyOf(d.ignoreCase, name) == KeyOf(d.ignoreCase, n) then Some(c) else Lookup(d, n)
  {
  }

  /** What a lookup finds after the Defines `defs[i..v]` were added to `before`, whose cells start at `base`. */
  ghost function LookupAfter(t: Tree, defs: seq<NodeId>, i: nat, v: nat, before: Option<Dict>, base: nat, n: string): Option<CellRef>
    requires AllBelow(t, defs) && i <= v <= |defs|
    requires forall k :: i <= k < v ==> ValidDefine(t, defs[k])
  {
    match LastDefining(t, defs, i, v, IgnoresCase(before), n)
    case Some(k) => Some(base + k - i)
    case None => LookupIn(before, n)
  }

  /**
   * The Define loop adds the valid Defines of `defs[i..]` up to the first
   * invalid one, each as a fresh unfinalized cell, and the first invalid
   * Define throws, with everything before it kept.
   */
  lemma {:induction false} WithDefinesShape(t: Tree, s: Scope, h: Heap, defs: seq<NodeId>, i: nat, st: ScopeStep)
    requires t.Valid() && i <= |defs| && AllBelow(t, defs) && s.In(|h|)
    requires st == WithDefines(t, s, h, defs, i)
    ensures st.heap == h + DefineCells(t, defs, i, ValidUpTo(t, defs, i))
    ensures ValidUpTo(t, defs, i) == |defs| ==> st.outcome == Pass
    ensures ValidUpTo(t, defs, i) < |defs| ==>
              st.outcome == Fail(XmlError(defs[ValidUpTo(t, defs, i)], DefineProblem(t, defs[ValidUpTo(t, defs, i)]), None))
    ensures st.scope.nodes == s.nodes
    ensures IgnoresCase(st.scope.macros) == IgnoresCase(s.macros)
    decreases |defs| - i
  {
    var v := ValidUpTo(t, defs, i);
    if i == |defs| || !ValidDefine(t, defs[i]) {
      assert v == i;
    } else {
      var def := defs[i];
      var d := s.macros.GetOr(Dict(true, map[]));
      var s' := s.(macros := Some(Put(d, DefineName(t, def), |h|)));
      var h' := h + [MacroValue(DefineValue(t, def), false)];
      assert st == WithDefines(t, s', h', defs, i + 1);
      WithDefinesShape(t, s', h', defs, i + 1, st);
      assert ValidUpTo(t, defs, i + 1) == v;
      assert DefineCells(t, defs, i, v) == [MacroValue(DefineValue(t, def), false)] + DefineCells(t, defs, i + 1, v);
    }
  }

  /**
   * After the Define loop, a name resolves to the cell of the last valid
   * Define of that name (under the dictionary's comparer, OrdinalIgnoreCase
   * for a new dictionary), and otherwise to what it resolved to before.
   */
  lemma {:induction false} WithDefinesLookup(t: Tree, s: Scope, h: Heap, defs: seq<NodeId>, i: nat, n: string)
    requires t.Valid() && i <= |defs| && AllBelow(t, defs) && s.In(|h|)
    ensures LookupIn(WithDefines(t, s, h, defs, i).scope.macros, n) ==
            LookupAfter(t, defs, i, ValidUpTo(t, defs, i), s.macros, |h|, n)
    decreases |defs| - i
  {
    if i < |defs| && ValidDefine(t, defs[i]) {
      var def := defs[i];
      var d := s.macros.GetOr(Dict(true, map[]));
      var s' := s.(macros := Some(Put(d, DefineName(t, def), |h|)));
      var h' := h + [MacroValue(DefineValue(t, def), false)];
      assert WithDefines(t, s, h, defs, i) == WithDefines(t, s', h', defs, i + 1);
      WithDefinesLookup(t, s', h', defs, i + 1, n);
      var v := ValidUpTo(t, defs, i);
      assert ValidUpTo(t, defs, i + 1) == v;
      assert LookupIn(WithDefines(t, s', h', defs, i + 1).scope.macros, n) == LookupAfter(t, defs, i + 1, v, s'.macros, |h'|, n);
      LookupAfterStep(t, defs, i, v, s.macros, |h|, n);
      assert LookupAfter(t, defs, i + 1, v, s'.macros, |h'|, n) == LookupAfter(t, defs, i, v, s.macros, |h|, n);
    }
  }

  /** Adding the Define `defs[i]` first and the rest after it finds what adding `defs[i..v]` at once finds. */
  lemma LookupAfterStep(t: Tree, defs: seq<NodeId>, i: nat, v: nat, before: Option<Dict>, base: nat, n: string)
    requires AllBelow(t, defs) && i < v <= |defs|
    requires forall k :: i <= k < v ==> ValidDefine(t, defs[k])
    ensures var d := before.GetOr(Dict(true, map[]));
            LookupAfter(t, defs, i + 1, v, Some(Put(d, DefineName(t, defs[i]), base)), base + 1, n)
            == LookupAfter(t, defs, i, v, before, base, n)
  {
    var d := before.GetOr(Dict(true, map[]));
    var name := DefineName(t, defs[i]);
    var ic := IgnoresCase(before);
    assert d.ignoreCase == ic && IgnoresCase(Some(Put(d, name, base))) == ic;
    LookupPut(d, name, base, n);
    assert LookupIn(before, n) == Lookup(d, n);
    var later := LastDefining(t, defs, i + 1, v, ic, n);
    assert LastDefining(t, defs, i, v, ic, n) ==
           if later.Some? then later else if KeyOf(ic, name) == KeyOf(ic, n) then Some(i) else None;
  }

  /**
   * AddMacros on a node this collection has not seen: the node is recorded
   * first (it stays recorded even when a Define throws), then the Define
   * loop runs as stated in WithDefinesShape and WithDefinesLookup.
   */
  lemma AddMacrosFreshNode(t: Tree, s: Scope, h: Heap, node: NodeId, n: string)
    requires t.Valid() && t.Has(node) && s.In(|h|)
    requires node !in s.nodes.GetOr({})
    ensures var defs := ChildrenNamed(t, node, "Define");
            var v := ValidUpTo(t, defs, 0);
            var r := WithMacros(t, s, h, node);
            && r.scope.nodes == Some(s.nodes.GetOr({}) + {node})
            && r.heap == h + DefineCells(t, defs, 0, v)
            && r.outcome == (if v == |defs| then Pass else Fail(XmlError(defs[v], DefineProblem(t, defs[v]), None)))
            && LookupIn(r.scope.macros, n) == LookupAfter(t, defs, 0, v, s.macros, |h|, n)
  {
    var defs := ChildrenNamed(t, node, "Define");
    var s' := s.(nodes := Some(s.nodes.GetOr({}) + {node}));
    assert WithMacros(t, s, h, node) == WithDefines(t, s', h, defs, 0);
    WithDefinesShape(t, s', h, defs, 0, WithDefines(t, s', h, defs, 0));
    WithDefinesLookup(t, s', h, defs, 0, n);
  }

  /** AddMacros on a node already recorded (also through a copy) throws and adds nothing. */
  lemma AddMacrosTwice(t: Tree, s: Scope, h: Heap, node: NodeId)
    requires t.Valid() && t.Has(node) && s.In(|h|)
    requires node in s.nodes.GetOr({})
    ensures WithMacros(t, s, h, node) == ScopeStep(Fail(XmlError(node, AddedTwice, None)), s.(nodes := Some(s.nodes.GetOr({}))), h)
  {
  }

  /** Adding the same node's macros twice to one collection always throws the second time. */
  lemma {:induction false} SecondAddThrows(t: Tree, s: Scope, h: Heap, node: NodeId)
    requires t.Valid() && t.Has(node) && s.In(|h|)
    ensures var r := WithMacros(t, s, h, node);
            WithMacros(t, r.scope, r.heap, node).outcome == Fail(XmlError(node, AddedTwice, None))
  {
    var r := WithMacros(t, s, h, node);
    if node !in s.nodes.GetOr({}) {
      AddMacrosFreshNode(t, s, h, node, "");
    }
    assert node in r.scope.nodes.GetOr({});
  }

  // ---------------------------------------------------------------------
  // Copies
  // ---------------------------------------------------------------------

  /** A copy holds every entry of its source, under the same spelling and with the same (shared) cell. */
  lemma CopySharesCells(d: Dict, k: string)
    requires d.Valid() && k in d.entries
    ensures Lookup(CopyDict(d), d.entries[k].spelling) == Some(d.entries[k].cell)
  {
  }

  /** Copying a case-sensitive dictionary changes nothing. */
  lemma CopyOfCaseSensitive(d: Dict)
    requires d.Valid() && !d.ignoreCase
    ensures CopyDict(d) == d
  {
    var c := CopyDict(d);
    assert forall k :: k in d.entries ==> k in c.entries && c.entries[k] == d.entries[k];
    assert forall k :: k in c.entries ==> k in d.entries;
  }

  /**
   * The copy constructor drops the OrdinalIgnoreCase comparer: the copy
   * finds a name exactly when the original holds it under that very
   * spelling, and then in the same cell; a name the original finds under
   * another spelling is not found in the copy.
   */
  lemma CopyIsCaseSensitive(d: Dict, n: string)
    requires d.Valid()
    ensures Lookup(CopyDict(d), n).Some? <==>
              KeyOf(d.ignoreCase, n) in d.entries && d.entries[KeyOf(d.ignoreCase, n)].spelling == n
    ensures Lookup(CopyDict(d), n).Some? ==> Lookup(CopyDict(d), n) == Lookup(d, n)
    ensures Lookup(d, n).Some? && d.entries[KeyOf(d.ignoreCase, n)].spelling != n ==> Lookup(CopyDict(d), n).None?
  {
    var c := CopyDict(d);
    if n in c.entries {
      var k0 :| k0 in d.entries && d.entries[k0] == c.entries[n];
      assert KeyOf(false, c.entries[n].spelling) == n;
      assert KeyOf(d.ignoreCase, d.entries[k0].spelling) == k0;
    }
  }

  /**
   * A branched collection is independent of its source: adding macros to the
   * branch leaves the source collection as it was, while the cells are
   * shared through the common store.
   */
  method BranchAndAdd(parent: MacroCollection, heap: MacroHeap, t: Tree, node: NodeId)
    returns (child: MacroCollection, r: Outcome<Error>)
    requires t.Valid() && t.Has(node) && parent.ValidIn(heap)
    modifies heap
    ensures fresh(child) && child != parent
    ensures parent.Value() == old(parent.Value())
    ensures ScopeStep(r, child.Value(), heap.cells) == WithMacros(t, CopyScope(old(parent.Value())), old(heap.cells), node)
  {
    child := new MacroCollection.Copy(parent, heap);
    r := child.AddMacros(t, node, heap);
  }

  // ---------------------------------------------------------------------
  // Expansion
  // ---------------------------------------------------------------------

  /** No placeholder of the given kind anywhere in `s`. */
  ghost predicate NoPlaceholder(s: string, required: bool) {
    forall i, j :: !IsPlaceholder(s, i, j, OpenOf(required), CloseOf(required))
  }

  /** A macro name as the patterns capture it: one or more word characters. */
  ghost predicate IsWordName(name: string) {
    name != [] && forall m :: 0 <= m < |name| ==> IsWordChar(name[m])
  }

  /** A stretch of the scan without matches is copied through unchanged. */
  lemma {:induction false} ReplaceSkips(d: Option<Dict>, h: Heap, s: string, i: nat, m: nat, acc: string, required: bool, fuel: nat)
    requires i <= m <= |s| && MacrosIn(d, |h|)
    requires forall k :: i <= k < m ==> MatchAt(s, k, OpenOf(required), CloseOf(required)).None?
    ensures Replace(d, h, s, i, acc, required, fuel) == Replace(d, h, s, m, acc + s[i..m], required, fuel)
    decreases m - i
  {
    if i < m {
      ReplaceSkips(d, h, s, i + 1, m, acc + [s[i]], required, fuel);
      assert acc + [s[i]] + s[i + 1..m] == acc + s[i..m];
    } else {
      assert acc + s[i..m] == acc;
    }
  }

  lemma NoMatchWhereNoPlaceholder(s: string, k: nat, required: bool)
    requires k < |s| && NoPlaceholder(s, required)
    ensures MatchAt(s, k, OpenOf(required), CloseOf(required)).None?
  {
  }

  /** In `pre + [c] + rest`, with `c` an opening character, no match starts inside a placeholder-free `pre`. */
  lemma NoMatchInPrefix(pre: string, c: char, rest: string, k: nat, required: bool)
    requires c == '{' || c == '['
    requires k < |pre| && NoPlaceholder(pre, required)
    ensures MatchAt(pre + [c] + rest, k, OpenOf(required), CloseOf(required)).None?
  {
    var s := pre + [c] + rest;
    assert s[|pre|] == c;
    forall j | 0 <= j < |pre|
      ensures IsPlaceholder(s, k, j, OpenOf(required), CloseOf(required)) == IsPlaceholder(pre, k, j, OpenOf(required), CloseOf(required))
    {
      assert forall m :: 0 <= m < |pre| ==> s[m] == pre[m];
    }
  }

  /** The pattern matches exactly the placeholder that starts at `i`. */
  lemma MatchAtPlaceholder(s: string, i: nat, j: nat, open: char, close: char)
    requires i < |s| && !IsWordChar(close) && IsPlaceholder(s, i, j, open, close)
    ensures MatchAt(s, i, open, close) == Some(j)
  {
  }

  /** A scan over text without a placeholder of its kind copies it through. */
  lemma ReplacePlain(d: Option<Dict>, h: Heap, s: string, required: bool, fuel: nat)
    requires MacrosIn(d, |h|) && NoPlaceholder(s, required)
    ensures Replace(d, h, s, 0, "", required, fuel) == Step(Ok(s), h)
  {
    forall k | 0 <= k < |s| ensures MatchAt(s, k, OpenOf(required), CloseOf(required)).None? {
      NoMatchWhereNoPlaceholder(s, k, required);
    }
    ReplaceSkips(d, h, s, 0, |s|, "", required, fuel);
    assert "" + s[0..|s|] == s;
  }

  /** No match starts in a placeholder-free suffix `s[off..]`. */
  lemma NoMatchInSuffix(s: string, off: nat, k: nat, required: bool)
    requires off <= k < |s| && NoPlaceholder(s[off..], required)
    ensures MatchAt(s, k, OpenOf(required), CloseOf(required)).None?
  {
    var post := s[off..];
    forall jj | 0 <= jj
      ensures IsPlaceholder(s, k, jj, OpenOf(required), CloseOf(required)) == IsPlaceholder(post, k - off, jj - off, OpenOf(required), CloseOf(required))
    {
      assert forall m :: off <= m < |s| ==> s[m] == post[m - off];
    }
  }

  /** Expanding text with no placeholder of either kind returns it unchanged and touches no value. */
  lemma ExpandPlain(d: Option<Dict>, h: Heap, s: string, fuel: nat)
    requires MacrosIn(d, |h|) && NoPlaceholder(s, true) && NoPlaceholder(s, false)
    ensures Expand(d, h, s, fuel) == Step(Ok(s), h)
  {
    if s != "" {
      ReplacePlain(d, h, s, true, fuel);
      ReplacePlain(d, h, s, false, fuel);
    }
  }

  /** `pre + open + name + close + post` has a placeholder for `name` right after `pre`. */
  lemma Splits(s: string, pre: string, name: string, post: string, open: char, close: char)
    requires IsWordName(name) && s == pre + [open] + name + [close] + post
    ensures var j := |pre| + |name| + 1;
            && IsPlaceholder(s, |pre|, j, open, close)
            && s[|pre| + 1..j] == name && s[..|pre|] == pre && s[j + 1..] == post
  {
    var j := |pre| + |name| + 1;
    assert forall m :: |pre| < m < j ==> s[m] == name[m - |pre| - 1];
    assert s[|pre| + 1..j] == name;
  }

  /**
   * The first required placeholder that names an undefined macro makes the
   * whole expansion throw "Macro ... is undefined" with that name.
   */
  lemma RequiredUndefinedThrows(d: Dict, h: Heap, pre: string, name: string, post: string, fuel: nat)
    requires MacrosIn(Some(d), |h|) && IsWordName(name) && Lookup(d, name).None?
    requires NoPlaceholder(pre, true)
    ensures Expand(Some(d), h, pre + "{" + name + "}" + post, fuel) == Step(Err(UndefinedMacro(name)), h)
  {
    var s := pre + "{" + name + "}" + post;
    var j := |pre| + |name| + 1;
    assert s == pre + ['{'] + name + ['}'] + post;
    Splits(s, pre, name, post, '{', '}');
    CopiesPrefix(Some(d), h, s, |pre|, true, fuel);
    MatchAtPlaceholder(s, |pre|, j, '{', '}');
  }

  /** The scan copies a placeholder-free `s[..i]` that ends just before an opening character. */
  lemma CopiesPrefix(d: Option<Dict>, h: Heap, s: string, i: nat, required: bool, fuel: nat)
    requires MacrosIn(d, |h|) && i < |s| && (s[i] == '{' || s[i] == '[') && NoPlaceholder(s[..i], required)
    ensures Replace(d, h, s, 0, "", required, fuel) == Replace(d, h, s, i, s[..i], required, fuel)
  {
    assert s == s[..i] + [s[i]] + s[i + 1..];
    forall k | 0 <= k < i ensures MatchAt(s, k, OpenOf(required), CloseOf(required)).None? {
      NoMatchInPrefix(s[..i], s[i], s[i + 1..], k, required);
    }
    ReplaceSkips(d, h, s, 0, i, "", required, fuel);
    assert "" + s[0..i] == s[..i];
  }

  /** The scan copies a placeholder-free suffix `s[off..]`. */
  lemma CopiesSuffix(d: Option<Dict>, h: Heap, s: string, off: nat, acc: string, required: bool, fuel: nat)
    requires MacrosIn(d, |h|) && off <= |s| && NoPlaceholder(s[off..], required)
    ensures Replace(d, h, s, off, acc, required, fuel) == Step(Ok(acc + s[off..]), h)
  {
    forall k | off <= k < |s| ensures MatchAt(s, k, OpenOf(required), CloseOf(required)).None? {
      NoMatchInSuffix(s, off, k, required);
    }
    ReplaceSkips(d, h, s, off, |s|, acc, required, fuel);
    assert s[off..|s|] == s[off..];
  }

  /** At an optional placeholder naming an undefined macro, the scan moves past it adding nothing. */
  lemma SkipsUndefinedOptional(d: Dict, h: Heap, s: string, i: nat, j: nat, acc: string, fuel: nat)
    requires MacrosIn(Some(d), |h|) && IsPlaceholder(s, i, j, '[', ']') && Lookup(d, s[i + 1..j]).None?
    ensures Replace(Some(d), h, s, i, acc, false, fuel) == Replace(Some(d), h, s, j + 1, acc, false, fuel)
  {
    MatchAtPlaceholder(s, i, j, '[', ']');
    assert acc + "" == acc;
  }

  /** The scan for optional placeholders drops the one at `s[i..j+1]`, which names an undefined macro. */
  lemma DropsUndefinedOptional(d: Dict, h: Heap, s: string, i: nat, j: nat, fuel: nat)
    requires MacrosIn(Some(d), |h|) && IsPlaceholder(s, i, j, '[', ']') && Lookup(d, s[i + 1..j]).None?
    requires NoPlaceholder(s[..i], false) && NoPlaceholder(s[j + 1..], false)
    ensures Replace(Some(d), h, s, 0, "", false, fuel) == Step(Ok(s[..i] + s[j + 1..]), h)
  {
    CopiesPrefix(Some(d), h, s, i, false, fuel);
    SkipsUndefinedOptional(d, h, s, i, j, s[..i], fuel);
    CopiesSuffix(Some(d), h, s, j + 1, s[..i], false, fuel);
  }

  /** An optional placeholder naming an undefined macro is replaced by the empty string. */
  lemma OptionalUndefinedVanishes(d: Dict, h: Heap, pre: string, name: string, post: string, fuel: nat)
    requires MacrosIn(Some(d), |h|) && IsWordName(name) && Lookup(d, name).None?
    requires NoPlaceholder(pre + "[" + name + "]" + post, true)
    requires NoPlaceholder(pre, false) && NoPlaceholder(post, false)
    ensures Expand(Some(d), h, pre + "[" + name + "]" + post, fuel) == Step(Ok(pre + post), h)
  {
    var s := pre + "[" + name + "]" + post;
    assert s == pre + ['['] + name + [']'] + post;
    Splits(s, pre, name, post, '[', ']');
    ReplacePlain(Some(d), h, s, true, fuel);
    DropsUndefinedOptional(d, h, s, |pre|, |pre| + |name| + 1, fuel);
  }

  /** Some placeholder of the given kind occurs in `s` at or after `i`. */
  ghost predicate PlaceholderFrom(s: string, i: nat, required: bool) {
    exists k, j :: i <= k && IsPlaceholder(s, k, j, OpenOf(required), CloseOf(required))
  }

  /** With a null dictionary, a scan throws at the first placeholder of its kind and otherwise copies the text. */
  lemma {:induction false} ReplaceNull(h: Heap, s: string, i: nat, acc: string, required: bool, fuel: nat)
    requires i <= |s|
    ensures Replace(None, h, s, i, acc, required, fuel)
            == if PlaceholderFrom(s, i, required) then Step(Err(NullReference), h) else Step(Ok(acc + s[i..]), h)
    decreases |s| - i
  {
    if i == |s| {
      assert acc + s[i..] == acc;
    } else {
      match MatchAt(s, i, OpenOf(required), CloseOf(required))
      case Some(j) =>
        assert IsPlaceholder(s, i, j, OpenOf(required), CloseOf(required));
      case None =>
        ReplaceNull(h, s, i + 1, acc + [s[i]], required, fuel);
        assert acc + [s[i]] + s[i + 1..] == acc + s[i..];
        if PlaceholderFrom(s, i, required) {
          var k, j :| i <= k && IsPlaceholder(s, k, j, OpenOf(required), CloseOf(required));
          assert k != i;
        }
    }
  }

  /**
   * A collection that never received a Define throws NullReference on any
   * text holding a placeholder of either kind, and returns any other text
   * unchanged.
   */
  lemma NullCollectionThrows(h: Heap, s: string, fuel: nat)
    ensures Expand(None, h, s, fuel)
            == if PlaceholderFrom(s, 0, true) || PlaceholderFrom(s, 0, false) then Step(Err(NullReference), h) else Step(Ok(s), h)
  {
    if s != "" {
      ReplaceNull(h, s, 0, "", true, fuel);
      assert "" + s[0..] == s;
      if !PlaceholderFrom(s, 0, true) {
        ReplaceNull(h, s, 0, "", false, fuel);
      }
    }
  }

  /** `Replace` under a name of its own, so that a proof about it does not unfold the scan. */
  ghost function ScanFrom(d: Option<Dict>, h: Heap, s: string, i: nat, acc: string, required: bool, fuel: nat): Step<string>
    requires i <= |s| && MacrosIn(d, |h|)
  {
    Replace(d, h, s, i, acc, required, fuel)
  }

  /** What the scan finds at `i`: a placeholder's name (or none) and where it goes on. */
  ghost function Token(s: string, i: nat, required: bool): (tk: (Option<string>, nat))
    requires i < |s|
    ensures i < tk.1 <= |s|
  {
    match MatchAt(s, i, OpenOf(required), CloseOf(required))
    case None => (None, i + 1)
    case Some(j) => (Some(s[i + 1..j]), j + 1)
  }

  /** What the scan does at `i`: the text it appends (or the error it stops with) and where it goes on. */
  ghost function Piece(d: Option<Dict>, h: Heap, s: string, i: nat, required: bool, fuel: nat): (p: (Step<string>, nat))
    requires i < |s| && MacrosIn(d, |h|)
    ensures i < p.1 <= |s| && |p.0.heap| == |h|
  {
    var tk := Token(s, i, required);
    match tk.0
    case None => (Step(Ok([s[i]]), h), tk.1)
    case Some(name) => (Substitute(d, h, name, required, fuel), tk.1)
  }

  lemma ReplaceByPiece(d: Option<Dict>, h: Heap, s: string, i: nat, acc: string, required: bool, fuel: nat)
    requires i < |s| && MacrosIn(d, |h|)
    ensures var p := Piece(d, h, s, i, required, fuel);
            && (p.0.r.Err? ==> ScanFrom(d, h, s, i, acc, required, fuel) == p.0)
            && (p.0.r.Ok? ==> ScanFrom(d, h, s, i, acc, required, fuel) == ScanFrom(d, p.0.heap, s, p.1, acc + p.0.r.value, required, fuel))
  {
  }

  /** The output collected so far is only a prefix of the rest of the scan's output. */
  lemma {:induction false} ReplaceAcc(d: Option<Dict>, h: Heap, s: string, i: nat, acc: string, required: bool, fuel: nat)
    requires i <= |s| && MacrosIn(d, |h|)
    ensures var r := ScanFrom(d, h, s, i, "", required, fuel);
            ScanFrom(d, h, s, i, acc, required, fuel) == if r.r.Err? then r else Step(Ok(acc + r.r.value), r.heap)
    decreases |s| - i
  {
    if i == |s| {
      assert acc + "" == acc;
    } else {
      var p := Piece(d, h, s, i, required, fuel);
      ReplaceByPiece(d, h, s, i, acc, required, fuel);
      ReplaceByPiece(d, h, s, i, "", required, fuel);
      if p.0.r.Ok? {
        var v := p.0.r.value;
        ReplaceAcc(d, p.0.heap, s, p.1, acc + v, required, fuel);
        ReplaceAcc(d, p.0.heap, s, p.1, v, required, fuel);
        assert "" + v == v;
        var r := ScanFrom(d, p.0.heap, s, p.1, "", required, fuel);
        if r.r.Ok? {
          assert acc + v + r.r.value == acc + (v + r.r.value);
        }
      }
    }
  }

  lemma {:induction false} WordRunEndShift(s: string, off: nat, k: nat)
    requires off <= k <= |s|
    ensures WordRunEnd(s, k) == off + WordRunEnd(s[off..], k - off)
    decreases |s| - k
  {
    if k < |s| {
      assert s[off..][k - off] == s[k];
      if IsWordChar(s[k]) {
        WordRunEndShift(s, off, k + 1);
      }
    }
  }

  /** The pattern looks only forward: it matches in a suffix where it matches in the whole text. */
  lemma MatchAtShift(s: string, off: nat, i: nat, open: char, close: char)
    requires off <= i < |s| && !IsWordChar(close)
    ensures MatchAt(s, i, open, close) == match MatchAt(s[off..], i - off, open, close)
                                          case None => None
                                          case Some(j) => Some(j + off)
  {
    assert s[off..][i - off] == s[i];
    if s[i] == open {
      WordRunEndShift(s, off, i + 1);
      var j := WordRunEnd(s, i + 1);
      if j < |s| {
        assert s[off..][j - off] == s[j];
      }
    }
  }

  /** What the scan finds at `i` it finds in the suffix from `off` at the shifted position. */
  lemma TokenShift(s: string, off: nat, i: nat, required: bool)
    requires off <= i < |s|
    ensures var tk := Token(s[off..], i - off, required);
            Token(s, i, required) == (tk.0, tk.1 + off)
  {
    var t := s[off..];
    MatchAtShift(s, off, i, OpenOf(required), CloseOf(required));
    match MatchAt(t, i - off, OpenOf(required), CloseOf(required))
    case None =>
    case Some(k) =>
      assert t[i - off + 1..k] == s[i + 1..k + off];
  }

  /** One step of the scan at `i` is the step of the suffix from `off` at the shifted position. */
  lemma PieceShift(d: Option<Dict>, h: Heap, s: string, off: nat, i: nat, required: bool, fuel: nat)
    requires off <= i < |s| && MacrosIn(d, |h|)
    ensures var p := Piece(d, h, s[off..], i - off, required, fuel);
            Piece(d, h, s, i, required, fuel) == (p.0, p.1 + off)
  {
    TokenShift(s, off, i, required);
    assert s[off..][i - off] == s[i];
  }

  /** Scanning the text from `i` is scanning its suffix from `off` at the shifted position. */
  lemma {:induction false} ReplaceShift(d: Option<Dict>, h: Heap, s: string, off: nat, i: nat, acc: string, required: bool, fuel: nat)
    requires off <= i <= |s| && MacrosIn(d, |h|)
    ensures ScanFrom(d, h, s, i, acc, required, fuel) == ScanFrom(d, h, s[off..], i - off, acc, required, fuel)
    decreases |s| - i
  {
    if i < |s| {
      PieceShift(d, h, s, off, i, required, fuel);
      ReplaceByPiece(d, h, s, i, acc, required, fuel);
      ReplaceByPiece(d, h, s[off..], i - off, acc, required, fuel);
      var p := Piece(d, h, s, i, required, fuel);
      assert p.1 - off == Piece(d, h, s[off..], i - off, required, fuel).1;
      if p.0.r.Ok? {
        ReplaceShift(d, p.0.heap, s, off, p.1, acc + p.0.r.value, required, fuel);
      }
    }
  }

  /** At a placeholder the scan calls `MacroReplace` for its name and goes on after it. */
  lemma ReplaceAtPlaceholder(d: Option<Dict>, h: Heap, s: string, i: nat, j: nat, acc: string, required: bool, fuel: nat)
    requires MacrosIn(d, |h|) && IsPlaceholder(s, i, j, OpenOf(required), CloseOf(required))
    ensures var v := Substitute(d, h, s[i + 1..j], required, fuel);
            ScanFrom(d, h, s, i, acc, required, fuel) == if v.r.Err? then v else ScanFrom(d, v.heap, s, j + 1, acc + v.r.value, required, fuel)
  {
    MatchAtPlaceholder(s, i, j, OpenOf(required), CloseOf(required));
  }

  /** The scan from `off` is the scan of the suffix `s[off..]`, after the output so far. */
  lemma ReplaceRest(d: Option<Dict>, h: Heap, s: string, off: nat, acc: string, required: bool, fuel: nat)
    requires off <= |s| && MacrosIn(d, |h|)
    ensures var r := ScanFrom(d, h, s[off..], 0, "", required, fuel);
            ScanFrom(d, h, s, off, acc, required, fuel) == if r.r.Err? then r else Step(Ok(acc + r.r.value), r.heap)
  {
    ReplaceAcc(d, h, s, off, acc, required, fuel);
    ReplaceShift(d, h, s, off, off, "", required, fuel);
  }

  /** From a placeholder on, the scan is `MacroReplace` for its name, then the scan of what follows it. */
  lemma ReplaceFromPlaceholder(d: Option<Dict>, h: Heap, s: string, i: nat, j: nat, acc: string, required: bool, fuel: nat)
    requires MacrosIn(d, |h|) && IsPlaceholder(s, i, j, OpenOf(required), CloseOf(required))
    ensures var v := Substitute(d, h, s[i + 1..j], required, fuel);
            v.r.Err? ==> ScanFrom(d, h, s, i, acc, required, fuel) == v
    ensures var v := Substitute(d, h, s[i + 1..j], required, fuel);
            var rest := ScanFrom(d, v.heap, s[j + 1..], 0, "", required, fuel);
            v.r.Ok? && rest.r.Err? ==> ScanFrom(d, h, s, i, acc, required, fuel) == rest
    ensures var v := Substitute(d, h, s[i + 1..j], required, fuel);
            var rest := ScanFrom(d, v.heap, s[j + 1..], 0, "", required, fuel);
            v.r.Ok? && rest.r.Ok? ==> ScanFrom(d, h, s, i, acc, required, fuel) == Step(Ok(acc + v.r.value + rest.r.value), rest.heap)
  {
    ReplaceAtPlaceholder(d, h, s, i, j, acc, required, fuel);
    var v := Substitute(d, h, s[i + 1..j], required, fuel);
    if v.r.Ok? {
      ReplaceRest(d, v.heap, s, j + 1, acc + v.r.value, required, fuel);
    }
  }

  /** `ReplacesPlaceholder` at the indices of the placeholder. */
  lemma ReplacesPlaceholderAt(d: Option<Dict>, h: Heap, s: string, i: nat, j: nat, required: bool, fuel: nat)
    requires MacrosIn(d, |h|) && IsPlaceholder(s, i, j, OpenOf(required), CloseOf(required)) && NoPlaceholder(s[..i], required)
    ensures var v := Substitute(d, h, s[i + 1..j], required, fuel);
            var rest := Replace(d, v.heap, s[j + 1..], 0, "", required, fuel);
            Replace(d, h, s, 0, "", required, fuel)
            == if v.r.Err? then v else if rest.r.Err? then rest else Step(Ok(s[..i] + v.r.value + rest.r.value), rest.heap)
  {
    CopiesPrefix(d, h, s, i, required, fuel);
    ReplaceFromPlaceholder(d, h, s, i, j, s[..i], required, fuel);
  }

  /**
   * After text without a placeholder of its kind, a placeholder is
   * replaced by what `MacroReplace` returns for its name, and the scan
   * goes on over the rest in the store that call leaves; an error of
   * `MacroReplace` ends the scan.
   */
  lemma ReplacesPlaceholder(d: Option<Dict>, h: Heap, pre: string, name: string, post: string, required: bool, fuel: nat)
    requires MacrosIn(d, |h|) && IsWordName(name) && NoPlaceholder(pre, required)
    ensures var v := Substitute(d, h, name, required, fuel);
            var rest := Replace(d, v.heap, post, 0, "", required, fuel);
            Replace(d, h, pre + [OpenOf(required)] + name + [CloseOf(required)] + post, 0, "", required, fuel)
            == if v.r.Err? then v else if rest.r.Err? then rest else Step(Ok(pre + v.r.value + rest.r.value), rest.heap)
  {
    var s := pre + [OpenOf(required)] + name + [CloseOf(required)] + post;
    Splits(s, pre, name, post, OpenOf(required), CloseOf(required));
    ReplacesPlaceholderAt(d, h, s, |pre|, |pre| + |name| + 1, required, fuel);
  }

  /**
   * A placeholder naming a defined macro is replaced by that macro's
   * value: the cached text of a finalized value, or else the expansion of
   * its raw text, which is stored finalized before the scan goes on.
   */
  lemma DefinedReplaced(d: Dict, h: Heap, pre: string, name: string, post: string, required: bool, fuel: nat)
    requires MacrosIn(Some(d), |h|) && IsWordName(name) && NoPlaceholder(pre, required) && Lookup(d, name).Some?
    ensures var c := Lookup(d, name).value;
            var s := pre + [OpenOf(required)] + name + [CloseOf(required)] + post;
            var rest := Replace(Some(d), h, post, 0, "", required, fuel);
            h[c].finalized ==>
              Replace(Some(d), h, s, 0, "", required, fuel)
              == if rest.r.Err? then rest else Step(Ok(pre + h[c].value + rest.r.value), rest.heap)
    ensures var c := Lookup(d, name).value;
            var s := pre + [OpenOf(required)] + name + [CloseOf(required)] + post;
            !h[c].finalized && fuel > 0 ==>
              var e := Expand(Some(d), h, h[c].value, fuel - 1);
              e.r.Ok? && !e.heap[c].finalized ==>
                var rest := Replace(Some(d), e.heap[c := MacroValue(e.r.value, true)], post, 0, "", required, fuel);
                Replace(Some(d), h, s, 0, "", required, fuel)
                == if rest.r.Err? then rest else Step(Ok(pre + e.r.value + rest.r.value), rest.heap)
  {
    ReplacesPlaceholder(Some(d), h, pre, name, post, required, fuel);
  }

  /** `GetExpandedValue` runs the required pass over the whole text first, then the optional pass over its output. */
  lemma ExpandPasses(d: Option<Dict>, h: Heap, s: string, fuel: nat)
    requires MacrosIn(d, |h|) && s != ""
    ensures var p1 := Replace(d, h, s, 0, "", true, fuel);
            Expand(d, h, s, fuel) == if p1.r.Err? then p1 else Replace(d, p1.heap, p1.r.value, 0, "", false, fuel)
  {
  }

  /**
   * The pass order seen from a required placeholder whose macro is
   * finalized: its text is put in place first, and the optional pass then
   * runs over the result, so optional placeholders inside the macro's text
   * are replaced too.
   */
  lemma OptionalAfterRequired(d: Dict, h: Heap, pre: string, name: string, post: string, fuel: nat)
    requires MacrosIn(Some(d), |h|) && IsWordName(name) && Lookup(d, name).Some? && h[Lookup(d, name).value].finalized
    requires NoPlaceholder(pre, true) && NoPlaceholder(post, true)
    ensures Expand(Some(d), h, pre + "{" + name + "}" + post, fuel)
            == Replace(Some(d), h, pre + h[Lookup(d, name).value].value + post, 0, "", false, fuel)
  {
    var s := pre + "{" + name + "}" + post;
    assert s == pre + [OpenOf(true)] + name + [CloseOf(true)] + post;
    DefinedReplaced(d, h, pre, name, post, true, fuel);
    ReplacePlain(Some(d), h, post, true, fuel);
  }

  /** Values only ever go from unfinalized to finalized, and finalized values never change. */
  ghost predicate FinalizesOnly(h: Heap, h': Heap) {
    && |h'| == |h|
    && (forall c :: 0 <= c < |h| && h[c].finalized ==> h'[c] == h[c])
    && (forall c :: 0 <= c < |h| && h'[c] != h[c] ==> h'[c].finalized)
  }

  lemma FinalizesOnlyTrans(h1: Heap, h2: Heap, h3: Heap)
    requires FinalizesOnly(h1, h2) && FinalizesOnly(h2, h3)
    ensures FinalizesOnly(h1, h3)
  {
    forall c | 0 <= c < |h1| && h3[c] != h1[c] ensures h3[c].finalized {
      if h3[c] == h2[c] { assert h2[c] != h1[c]; }
    }
  }

  /** Expansion finalizes values and changes nothing else in the store. */
  lemma {:induction false} ExpandFinalizesOnly(d: Option<Dict>, h: Heap, s: string, fuel: nat)
    requires MacrosIn(d, |h|)
    ensures FinalizesOnly(h, Expand(d, h, s, fuel).heap)
    decreases fuel, 2, 0
  {
    if s != "" {
      var p1 := Replace(d, h, s, 0, "", true, fuel);
      ReplaceFinalizesOnly(d, h, s, 0, "", true, fuel);
      if p1.r.Ok? {
        ReplaceFinalizesOnly(d, p1.heap, p1.r.value, 0, "", false, fuel);
        FinalizesOnlyTrans(h, p1.heap, Expand(d, h, s, fuel).heap);
      }
    }
  }

  lemma {:induction false} ReplaceFinalizesOnly(d: Option<Dict>, h: Heap, s: string, i: nat, acc: string, required: bool, fuel: nat)
    requires i <= |s| && MacrosIn(d, |h|)
    ensures FinalizesOnly(h, Replace(d, h, s, i, acc, required, fuel).heap)
    decreases fuel, 1, |s| - i
  {
    if i < |s| {
      match MatchAt(s, i, OpenOf(required), CloseOf(required))
      case None =>
        ReplaceFinalizesOnly(d, h, s, i + 1, acc + [s[i]], required, fuel);
      case Some(j) =>
        var v := Substitute(d, h, s[i + 1..j], required, fuel);
        SubstituteFinalizesOnly(d, h, s[i + 1..j], required, fuel);
        if v.r.Ok? {
          ReplaceFinalizesOnly(d, v.heap, s, j + 1, acc + v.r.value, required, fuel);
          FinalizesOnlyTrans(h, v.heap, Replace(d, h, s, i, acc, required, fuel).heap);
        }
    }
  }

  lemma {:induction false} SubstituteFinalizesOnly(d: Option<Dict>, h: Heap, name: string, required: bool, fuel: nat)
    requires MacrosIn(d, |h|)
    ensures FinalizesOnly(h, Substitute(d, h, name, required, fuel).heap)
    decreases fuel, 0, 0
  {
    if d.Some? && Lookup(d.value, name).Some? {
      var c := Lookup(d.value, name).value;
      if !h[c].finalized && fuel > 0 {
        var e := Expand(d, h, h[c].value, fuel - 1);
        ExpandFinalizesOnly(d, h, h[c].value, fuel - 1);
        if e.r.Ok? && !e.heap[c].finalized {
          var h' := e.heap[c := MacroValue(e.r.value, true)];
          assert Substitute(d, h, name, required, fuel).heap == h';
          forall c' | 0 <= c' < |h| && h'[c'] != h[c'] ensures h'[c'].finalized {
            if c' != c { assert e.heap[c'] != h[c']; }
          }
        }
      }
    }
  }

  /**
   * A reference to a defined macro that succeeds leaves its value finalized
   * holding exactly the replacement text: either the cached value, or the
   * expansion of the raw text, which is then stored.
   */
  lemma SubstituteStores(d: Dict, h: Heap, name: string, required: bool, fuel: nat)
    requires MacrosIn(Some(d), |h|) && Lookup(d, name).Some?
    ensures var c := Lookup(d, name).value;
            var st := Substitute(Some(d), h, name, required, fuel);
            && (h[c].finalized ==> st == Step(Ok(h[c].value), h))
            && (!h[c].finalized && fuel > 0 && st.r.Ok? ==>
                  st.r.value == Expand(Some(d), h, h[c].value, fuel - 1).r.value)
            && (st.r.Ok? ==> st.heap[c] == MacroValue(st.r.value, true))
  {
  }

  /**
   * Once a reference through any collection has finalized a value, every
   * later reference to that value, through any collection sharing the cell
   * and whether required or optional, returns the cached text and changes
   * nothing.
   */
  lemma {:induction false} LaterReferencesAreCached(d1: Dict, d2: Dict, h: Heap, n1: string, n2: string,
                                                  req1: bool, req2: bool, f1: nat, f2: nat)
    requires MacrosIn(Some(d1), |h|) && MacrosIn(Some(d2), |h|)
    requires Lookup(d1, n1).Some? && Lookup(d1, n1) == Lookup(d2, n2)
    requires Substitute(Some(d1), h, n1, req1, f1).r.Ok?
    ensures var first := Substitute(Some(d1), h, n1, req1, f1);
            Substitute(Some(d2), first.heap, n2, req2, f2) == Step(Ok(first.r.value), first.heap)
  {
    SubstituteStores(d1, h, n1, req1, f1);
  }
}
