/**
 * Macro values and macro collections (JRun/src/XmlMacro.cs).
 *
 * Every `XmlMacroValue` object lives in one shared store, `MacroHeap`,
 * and a collection's dictionary maps names to indices into it. Copying a
 * collection copies the dictionary but not the cells, so a value finalized
 * through one collection is seen finalized by every collection holding it.
 *
 * Each imperative operation is specified by a state-passing function over
 * the collection's value (`Scope`) and the store's contents (`Heap`).
 */
module XmlMacro {
  import opened Wrappers
  import opened Text
  import opened XmlTree
  import opened Errors

  // ---------------------------------------------------------------------
  // Macro values
  // ---------------------------------------------------------------------

  /** The state of one `XmlMacroValue`: its text and whether it is finalized. */
  datatype MacroValue = MacroValue(value: string, finalized: bool)

  /**
   * The `Value` setter: a null value is rejected, a finalized value
   * cannot be restored, and a successful assignment finalizes.
   */
  function Assign(cell: MacroValue, v: Option<string>): (r: Res<MacroValue>)
    ensures v.None? ==> r == Err(ArgumentNull("value"))
    ensures v.Some? && cell.finalized ==> r == Err(MacroFinalized)
    ensures v.Some? && !cell.finalized ==> r == Ok(MacroValue(v.value, true))
  {
    if v.None? then Err(ArgumentNull("value"))
    else if cell.finalized then Err(MacroFinalized)
    else Ok(MacroValue(v.value, true))
  }

  type Heap = seq<MacroValue>
  type CellRef = nat

  /** The store holding every macro value object. */
  class MacroHeap {
    var cells: Heap

    constructor ()
      ensures cells == []
    {
      cells := [];
    }

    /** `new XmlMacroValue(initial)`: a fresh, unfinalized value. */
    method Alloc(initial: string) returns (c: CellRef)
      modifies this
      ensures cells == old(cells) + [MacroValue(initial, false)]
      ensures c == |old(cells)|
    {
      c := |cells|;
      cells := cells + [MacroValue(initial, false)];
    }

    /** The `Value` setter applied to the value at `c`. */
    method SetValue(c: CellRef, v: Option<string>) returns (r: Outcome<Error>)
      requires c < |cells|
      modifies this
      ensures Assign(old(cells)[c], v).Ok? ==> r == Pass && cells == old(cells)[c := Assign(old(cells)[c], v).value]
      ensures Assign(old(cells)[c], v).Err? ==> r == Fail(Assign(old(cells)[c], v).error) && cells == old(cells)
    {
      if v.None? {
        return Fail(ArgumentNull("value"));
      }
      if cells[c].finalized {
        return Fail(MacroFinalized);
      }
      cells := cells[c := MacroValue(v.value, true)];
      return Pass;
    }
  }

  // ---------------------------------------------------------------------
  // Dictionaries and scopes
  // ---------------------------------------------------------------------

  /** A dictionary entry: the key as spelled when added, and the value cell. */
  datatype Entry = Entry(spelling: string, cell: CellRef)

  /**
   * `Dictionary<string, XmlMacroValue>`. With `ignoreCase` (the
   * OrdinalIgnoreCase comparer) entries are keyed by the folded name,
   * otherwise by the exact name.
   */
  datatype Dict = Dict(ignoreCase: bool, entries: map<string, Entry>) {
    ghost predicate Valid() {
      forall k :: k in entries ==> KeyOf(ignoreCase, entries[k].spelling) == k
    }

    ghost predicate CellsBelow(n: nat) {
      forall k :: k in entries ==> entries[k].cell < n
    }
  }

  function KeyOf(ignoreCase: bool, name: string): string {
    if ignoreCase then Fold(name) else name
  }

  /** `TryGetValue`. */
  function Lookup(d: Dict, name: string): (r: Option<CellRef>)
    ensures r.Some? <==> KeyOf(d.ignoreCase, name) in d.entries
    ensures r.Some? ==> r.value == d.entries[KeyOf(d.ignoreCase, name)].cell
  {
    var k := KeyOf(d.ignoreCase, name);
    if k in d.entries then Some(d.entries[k].cell) else None
  }

  /** `Remove(name)` followed by `Add(name, cell)`. */
  function Put(d: Dict, name: string, c: CellRef): Dict {
    d.(entries := d.entries[KeyOf(d.ignoreCase, name) := Entry(name, c)])
  }

  /**
   * `new Dictionary<string, XmlMacroValue>(other)`: the same entries with the
   * same cells, but under the default (case-sensitive) comparer.
   */
  function CopyDict(d: Dict): (r: Dict)
    requires d.Valid()
    ensures r.Valid() && !r.ignoreCase
    ensures forall k :: k in d.entries ==> d.entries[k].spelling in r.entries && r.entries[d.entries[k].spelling] == d.entries[k]
    ensures forall k :: k in r.entries ==> exists k0 :: k0 in d.entries && d.entries[k0] == r.entries[k]
  {
    var r := Dict(false, map k | k in d.entries :: d.entries[k].spelling := d.entries[k]);
    assert forall k :: k in r.entries ==> exists k0 :: k0 in d.entries && d.entries[k0].spelling == k && d.entries[k0] == r.entries[k];
    r
  }

  /** The state of an `XmlMacroCollection`: the node set and the macro dictionary, each possibly null. */
  datatype Scope = Scope(nodes: Option<set<NodeId>>, macros: Option<Dict>) {
    ghost predicate In(n: nat) {
      macros.Some? ==> macros.value.Valid() && macros.value.CellsBelow(n)
    }
  }

  ghost predicate MacrosIn(d: Option<Dict>, n: nat) {
    d.Some? ==> d.value.Valid() && d.value.CellsBelow(n)
  }

  /** The copy constructor `XmlMacroCollection(CopyFrom)`. */
  function CopyScope(s: Scope): (r: Scope)
    requires s.macros.Some? ==> s.macros.value.Valid()
    ensures r.nodes == s.nodes && r.macros.Some? == s.macros.Some?
  {
    Scope(s.nodes, if s.macros.Some? then Some(CopyDict(s.macros.value)) else None)
  }

  // ---------------------------------------------------------------------
  // AddMacros
  // ---------------------------------------------------------------------

  datatype ScopeStep = ScopeStep(outcome: Outcome<Error>, scope: Scope, heap: Heap)

  /** `AddMacros(node)`: record the node, then add its `Define` children in order. */
  function WithMacros(t: Tree, s: Scope, h: Heap, node: NodeId): (r: ScopeStep)
    requires t.Valid() && t.Has(node) && s.In(|h|)
    ensures r.scope.In(|r.heap|) && |h| <= |r.heap| && r.heap[..|h|] == h
  {
    var nodes := s.nodes.GetOr({});
    if node in nodes then ScopeStep(Fail(XmlError(node, AddedTwice, None)), s.(nodes := Some(nodes)), h)
    else WithDefines(t, s.(nodes := Some(nodes + {node})), h, ChildrenNamed(t, node, "Define"), 0)
  }

  /** The loop over the Define children `defs[i..]`. */
  function WithDefines(t: Tree, s: Scope, h: Heap, defs: seq<NodeId>, i: nat): (r: ScopeStep)
    requires t.Valid() && i <= |defs| && (forall k :: 0 <= k < |defs| ==> defs[k] < |t.nodes|) && s.In(|h|)
    ensures r.scope.In(|r.heap|) && |h| <= |r.heap| && r.heap[..|h|] == h
    decreases |defs| - i
  {
    if i == |defs| then ScopeStep(Pass, s, h)
    else
      var def := defs[i];
      var name := GetAttributeValue(t.nodes[def], "name");
      if name.None? || name.value == "" then ScopeStep(Fail(XmlError(def, DefineWithoutName, None)), s, h)
      else
        var value := GetAttributeValue(t.nodes[def], "value");
        if value.None? then ScopeStep(Fail(XmlError(def, DefineWithoutValue, None)), s, h)
        else
          var d := s.macros.GetOr(Dict(true, map[]));
          var r := WithDefines(t, s.(macros := Some(Put(d, name.value, |h|))), h + [MacroValue(value.value, false)], defs, i + 1);
          assert (h + [MacroValue(value.value, false)])[..|h|] == h;
          assert r.heap[..|h|] == r.heap[..|h| + 1][..|h|];
          r
  }

  // ---------------------------------------------------------------------
  // Expansion
  // ---------------------------------------------------------------------

  datatype Step<T> = Step(r: Res<T>, heap: Heap)

  function OpenOf(required: bool): char { if required then '{' else '[' }
  function CloseOf(required: bool): char { if required then '}' else ']' }

  /** `s[i..j+1]` is a placeholder: `open`, one or more word characters, `close`. */
  ghost predicate IsPlaceholder(s: string, i: int, j: int, open: char, close: char) {
    0 <= i && i + 1 < j < |s| && s[i] == open && s[j] == close && forall m :: i < m < j ==> IsWordChar(s[m])
  }

  /** The end of the run of word characters starting at `k`. */
  function WordRunEnd(s: string, k: nat): (j: nat)
    requires k <= |s|
    ensures k <= j <= |s|
    ensures forall m :: k <= m < j ==> IsWordChar(s[m])
    ensures j < |s| ==> !IsWordChar(s[j])
    decreases |s| - k
  {
    if k < |s| && IsWordChar(s[k]) then WordRunEnd(s, k + 1) else k
  }

  /** Where the regular expression `\{\w+\}` (or `\[\w+\]`) matches at `i`, the index of the closing character. */
  function MatchAt(s: string, i: nat, open: char, close: char): (r: Option<nat>)
    requires i < |s| && !IsWordChar(close)
    ensures r.Some? ==> IsPlaceholder(s, i, r.value, open, close)
    ensures r.None? ==> forall j :: !IsPlaceholder(s, i, j, open, close)
  {
    if s[i] != open then None
    else
      var j := WordRunEnd(s, i + 1);
      if i + 1 < j < |s| && s[j] == close then Some(j) else None
  }

  /**
   * `GetExpandedValue`: the empty string is returned as is; otherwise
   * required placeholders are replaced across the whole string, then
   * optional ones across the result.
   */
  function Expand(d: Option<Dict>, h: Heap, s: string, fuel: nat): (st: Step<string>)
    requires MacrosIn(d, |h|)
    ensures |st.heap| == |h|
    decreases fuel, 2, 0
  {
    if s == "" then Step(Ok(s), h)
    else
      var p1 := Replace(d, h, s, 0, "", true, fuel);
      if p1.r.Err? then p1
      else Replace(d, p1.heap, p1.r.value, 0, "", false, fuel)
  }

  /**
   * `Regex.Replace` with `MacroReplace` as evaluator: scan `s` from `i`
   * left to right, replace each non-overlapping match, copy everything else;
   * `acc` holds the output so far.
   */
  function Replace(d: Option<Dict>, h: Heap, s: string, i: nat, acc: string, required: bool, fuel: nat): (st: Step<string>)
    requires i <= |s| && MacrosIn(d, |h|)
    ensures |st.heap| == |h|
    decreases fuel, 1, |s| - i
  {
    if i == |s| then Step(Ok(acc), h)
    else match MatchAt(s, i, OpenOf(required), CloseOf(required))
      case None => Replace(d, h, s, i + 1, acc + [s[i]], required, fuel)
      case Some(j) =>
        var v := Substitute(d, h, s[i + 1..j], required, fuel);
        if v.r.Err? then v
        else Replace(d, v.heap, s, j + 1, acc + v.r.value, required, fuel)
  }

  /**
   * `MacroReplace` for the macro `name`: a null dictionary fails; an
   * undefined name fails when required and yields "" otherwise; a defined
   * value is expanded and stored (finalizing it) unless already finalized,
   * and its stored text is the replacement.
   */
  function Substitute(d: Option<Dict>, h: Heap, name: string, required: bool, fuel: nat): (st: Step<string>)
    requires MacrosIn(d, |h|)
    ensures |st.heap| == |h|
    decreases fuel, 0, 0
  {
    if d.None? then Step(Err(NullReference), h)
    else match Lookup(d.value, name)
      case None => if required then Step(Err(UndefinedMacro(name)), h) else Step(Ok(""), h)
      case Some(c) =>
        if h[c].finalized then Step(Ok(h[c].value), h)
        else if fuel == 0 then Step(Err(OutOfFuel), h)
        else
          var e := Expand(d, h, h[c].value, fuel - 1);
          if e.r.Err? then e
          else match Assign(e.heap[c], Some(e.r.value))
            case Err(err) => Step(Err(err), e.heap)
            case Ok(cell) => Step(Ok(cell.value), e.heap[c := cell])
  }

  // ---------------------------------------------------------------------
  // The collection object
  // ---------------------------------------------------------------------

  /** `XmlMacroCollection`: a node set and a macro dictionary, each null until first needed. */
  class MacroCollection {
    var nodes: Option<set<NodeId>>
    var macros: Option<Dict>

    function Value(): Scope
      reads this
    {
      Scope(nodes, macros)
    }

    ghost predicate ValidIn(heap: MacroHeap)
      reads this, heap
    {
      Value().In(|heap.cells|)
    }

    /** `XmlMacroCollection()`: both tables null. */
    constructor ()
      ensures Value() == Scope(None, None)
    {
      nodes := None;
      macros := None;
    }

    /** A collection holding the tables `s`: how a virtual shortcut's collection is handed back to property lookup. */
    constructor Of(s: Scope)
      ensures Value() == s
    {
      nodes := s.nodes;
      macros := s.macros;
    }

    /** `XmlMacroCollection(CopyFrom)`: own tables with the same entries, sharing the value cells. */
    constructor Copy(from: MacroCollection, ghost heap: MacroHeap)
      requires from.ValidIn(heap)
      ensures Value() == CopyScope(from.Value()) && ValidIn(heap)
    {
      nodes := from.nodes;
      macros := if from.macros.Some? then Some(CopyDict(from.macros.value)) else None;
    }

    /** `AddMacros(node)`. */
    method AddMacros(t: Tree, node: NodeId, heap: MacroHeap) returns (r: Outcome<Error>)
      requires t.Valid() && t.Has(node) && ValidIn(heap)
      modifies this, heap
      ensures ScopeStep(r, Value(), heap.cells) == WithMacros(t, old(Value()), old(heap.cells), node)
      ensures ValidIn(heap)
    {
      if nodes.None? {
        nodes := Some({});
      }
      if node in nodes.value {
        return Fail(XmlError(node, AddedTwice, None));
      }
      nodes := Some(nodes.value + {node});
      var defs := SelectXmlNodes(t, node, "Define");
      var i := 0;
      while i < |defs|
        invariant 0 <= i <= |defs| && ValidIn(heap)
        invariant WithMacros(t, old(Value()), old(heap.cells), node) == WithDefines(t, Value(), heap.cells, defs, i)
      {
        var def := defs[i];
        var name := GetAttributeValue(t.nodes[def], "name");
        if name.None? || name.value == "" {
          return Fail(XmlError(def, DefineWithoutName, None));
        }
        var value := GetAttributeValue(t.nodes[def], "value");
        if value.None? {
          return Fail(XmlError(def, DefineWithoutValue, None));
        }
        if macros.None? {
          macros := Some(Dict(true, map[]));
        }
        var c := heap.Alloc(value.value);
        macros := Some(Put(macros.value, name.value, c));
        i := i + 1;
      }
      return Pass;
    }

    /** `GetExpandedValue(s)`. */
    method GetExpandedValue(heap: MacroHeap, s: string, fuel: nat) returns (r: Res<string>)
      requires ValidIn(heap)
      modifies heap
      ensures Step(r, heap.cells) == Expand(macros, old(heap.cells), s, fuel)
      decreases fuel, 2
    {
      if s == "" {
        return Ok(s);
      }
      var braces := ReplaceAll(heap, s, true, fuel);
      if braces.Err? {
        return braces;
      }
      r := ReplaceAll(heap, braces.value, false, fuel);
    }

    /** `Regex.Replace(s, pattern, p => MacroReplace(p, required))`. */
    method ReplaceAll(heap: MacroHeap, s: string, required: bool, fuel: nat) returns (r: Res<string>)
      requires ValidIn(heap)
      modifies heap
      ensures Step(r, heap.cells) == Replace(macros, old(heap.cells), s, 0, "", required, fuel)
      decreases fuel, 1
    {
      var i, acc := 0, "";
      while i < |s|
        invariant 0 <= i <= |s| && ValidIn(heap)
        invariant Replace(macros, old(heap.cells), s, 0, "", required, fuel) == Replace(macros, heap.cells, s, i, acc, required, fuel)
      {
        ghost var h0 := heap.cells;
        var m := MatchAt(s, i, OpenOf(required), CloseOf(required));
        if m.None? {
          assert Replace(macros, h0, s, i, acc, required, fuel) == Replace(macros, h0, s, i + 1, acc + [s[i]], required, fuel);
          acc, i := acc + [s[i]], i + 1;
        } else {
          var v := MacroReplace(heap, s[i + 1..m.value], required, fuel);
          assert Substitute(macros, h0, s[i + 1..m.value], required, fuel) == Step(v, heap.cells);
          if v.Err? {
            return v;
          }
          assert Replace(macros, h0, s, i, acc, required, fuel) == Replace(macros, heap.cells, s, m.value + 1, acc + v.value, required, fuel);
          acc, i := acc + v.value, m.value + 1;
        }
      }
      return Ok(acc);
    }

    /** `MacroReplace(match, required)` for the macro named by the match. */
    method MacroReplace(heap: MacroHeap, name: string, required: bool, fuel: nat) returns (r: Res<string>)
      requires ValidIn(heap)
      modifies heap
      ensures Step(r, heap.cells) == Substitute(macros, old(heap.cells), name, required, fuel)
      decreases fuel, 0
    {
      if macros.None? {
        return Err(NullReference);
      }
      var found := Lookup(macros.value, name);
      if found.None? {
        if required {
          return Err(UndefinedMacro(name));
        }
        return Ok("");
      }
      var c := found.value;
      if !heap.cells[c].finalized {
        if fuel == 0 {
          return Err(OutOfFuel);
        }
        var expanded := GetExpandedValue(heap, heap.cells[c].value, fuel - 1);
        if expanded.Err? {
          return expanded;
        }
        var stored := heap.SetValue(c, Some(expanded.value));
        if stored.Fail? {
          return Err(stored.error);
        }
      }
      return Ok(heap.cells[c].value);
    }
  }
}
