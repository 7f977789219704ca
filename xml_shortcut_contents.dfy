/**
 * What `GetAllShortcuts` (JRun/src/XmlShortcutFile.cs) returns: one
 * `CreateShortcut` result per virtual shortcut, in order, each made in the
 * store the calls before it left, or the first error one of them throws.
 *
 * The walk is first stated for any store-threading function `f`, where the
 * solver sees `f` only through what the walk needs of it; `CreateShortcut`
 * is then one such function.
 */
module XmlShortcutContents {
  import opened Wrappers
  import opened XmlTree
  import opened Errors
  import opened XmlMacro
  import opened XmlShortcutSpec

  // ---------------------------------------------------------------------
  // Threading a store through calls of any function
  // ---------------------------------------------------------------------

  /** `f` accepts each of `vs` in every store of `n` cells and leaves a store of `n` cells. */
  ghost predicate KeepsSize<V, S>(f: (V, Heap) --> Step<S>, vs: seq<V>, n: nat) {
    forall j, hi: Heap {:trigger f.requires(vs[j], hi)} :: 0 <= j < |vs| && |hi| == n ==> f.requires(vs[j], hi) && |f(vs[j], hi).heap| == n
  }

  /** Calls `f` on `vs[k..]` in order, each in the store the previous call left, appending the results to `acc`; stops at the first error. */
  ghost function Threaded<V, S>(f: (V, Heap) --> Step<S>, vs: seq<V>, k: nat, h: Heap, acc: seq<S>): (st: Step<seq<S>>)
    requires k <= |vs| && KeepsSize(f, vs, |h|)
    ensures |st.heap| == |h|
    ensures st.r.Ok? ==> |st.r.value| == |acc| + |vs| - k && acc <= st.r.value
    decreases |vs| - k
  {
    if k == |vs| then Step(Ok(acc), h)
    else
      var m := f(vs[k], h);
      if m.r.Err? then Step(Err(m.r.error), m.heap)
      else Threaded(f, vs, k + 1, m.heap, acc + [m.r.value])
  }

  /** On success, element `|acc| + i - k` is what `f(vs[i], hi)` returns, for a store `hi` of `|h|` cells. */
  lemma {:induction false} ThreadedElement<V, S>(f: (V, Heap) --> Step<S>, vs: seq<V>, k: nat, h: Heap, acc: seq<S>, i: nat)
      returns (hi: Heap)
    requires k <= i < |vs| && KeepsSize(f, vs, |h|)
    ensures |hi| == |h| && (i == k ==> hi == h)
    ensures Threaded(f, vs, k, h, acc).r.Ok? ==> f(vs[i], hi).r == Ok(Threaded(f, vs, k, h, acc).r.value[|acc| + i - k])
    decreases i - k
  {
    var m := f(vs[k], h);
    hi := h;
    if m.r.Ok? {
      var acc' := acc + [m.r.value];
      var st := Threaded(f, vs, k + 1, m.heap, acc');
      if i == k {
        if st.r.Ok? {
          assert st.r.value[|acc|] == acc'[|acc|];
        }
      } else {
        hi := ThreadedElement(f, vs, k + 1, m.heap, acc', i);
        assert |acc'| + i - (k + 1) == |acc| + i - k;
      }
    }
  }

  /** `ThreadedElement` from the first element with nothing accumulated: element `i` is what `f(vs[i], hi)` returns. */
  lemma ThreadedFromStart<V, S>(f: (V, Heap) --> Step<S>, vs: seq<V>, h: Heap, i: nat)
      returns (hi: Heap)
    requires i < |vs| && KeepsSize(f, vs, |h|)
    ensures |hi| == |h| && (i == 0 ==> hi == h)
    ensures Threaded(f, vs, 0, h, []).r.Ok? ==> f(vs[i], hi).r == Ok(Threaded(f, vs, 0, h, []).r.value[i])
  {
    var none: seq<S> := [];
    hi := ThreadedElement(f, vs, 0, h, none, i);
    assert |none| + i - 0 == i;
  }

  /** On an error, it is what `f(vs[i], hi)` returns for some `i` at or after `k` and a store `hi` of `|h|` cells. */
  lemma {:induction false} ThreadedFailure<V, S>(f: (V, Heap) --> Step<S>, vs: seq<V>, k: nat, h: Heap, acc: seq<S>)
      returns (i: nat, hi: Heap)
    requires k <= |vs| && KeepsSize(f, vs, |h|)
    ensures Threaded(f, vs, k, h, acc).r.Err? ==> k <= i < |vs| && |hi| == |h| && f(vs[i], hi).r == Err(Threaded(f, vs, k, h, acc).r.error)
    decreases |vs| - k
  {
    i, hi := k, h;
    if k < |vs| {
      var m := f(vs[k], h);
      if m.r.Ok? {
        i, hi := ThreadedFailure(f, vs, k + 1, m.heap, acc + [m.r.value]);
      }
    }
  }

  // ---------------------------------------------------------------------
  // `CreateShortcut` as such a function
  // ---------------------------------------------------------------------

  /** `CreateShortcut` on a virtual shortcut of the tree `t`, in a store. */
  ghost function Create(t: Tree, fuel: nat): (VirtualShortcut, Heap) --> Step<Shortcut> {
    (v: VirtualShortcut, hi: Heap) requires t.Valid() && ShortcutIn(t, v, |hi|) => Materialized(t, v, hi, fuel)
  }

  lemma CreateKeepsSize(t: Tree, vs: seq<VirtualShortcut>, n: nat, fuel: nat)
    requires t.Valid() && AllIn(t, vs, n)
    ensures KeepsSize(Create(t, fuel), vs, n)
  {
    forall j, hi: Heap | 0 <= j < |vs| && |hi| == n
      ensures Create(t, fuel).requires(vs[j], hi) && |Create(t, fuel)(vs[j], hi).heap| == n
    {
      assert ShortcutIn(t, vs[j], |hi|);
    }
  }

  /** `MaterializedAll` is the threaded walk of `CreateShortcut`. */
  lemma {:induction false} MaterializedAllThreaded(t: Tree, vs: seq<VirtualShortcut>, k: nat, h: Heap, acc: seq<Shortcut>, fuel: nat)
    requires t.Valid() && k <= |vs| && AllIn(t, vs, |h|)
    ensures KeepsSize(Create(t, fuel), vs, |h|)
    ensures MaterializedAll(t, vs, k, h, acc, fuel) == Threaded(Create(t, fuel), vs, k, h, acc)
    decreases |vs| - k
  {
    CreateKeepsSize(t, vs, |h|, fuel);
    if k < |vs| {
      var m := Materialized(t, vs[k], h, fuel);
      assert Create(t, fuel)(vs[k], h) == m;
      if m.r.Ok? {
        MaterializedAllThreaded(t, vs, k + 1, m.heap, acc + [m.r.value], fuel);
      }
    }
  }

  // ---------------------------------------------------------------------
  // What `GetAllShortcuts` returns
  // ---------------------------------------------------------------------

  /** On success, element `|acc| + i - k` of `MaterializedAll` is what `CreateShortcut(vs[i])` returns in a store `hi` of `|h|` cells. */
  lemma MaterializedAllElement(t: Tree, vs: seq<VirtualShortcut>, k: nat, h: Heap, acc: seq<Shortcut>, fuel: nat, i: nat)
      returns (hi: Heap)
    requires t.Valid() && k <= i < |vs| && AllIn(t, vs, |h|)
    ensures |hi| == |h| && ShortcutIn(t, vs[i], |hi|) && (i == k ==> hi == h)
    ensures MaterializedAll(t, vs, k, h, acc, fuel).r.Ok? ==>
              Materialized(t, vs[i], hi, fuel).r == Ok(MaterializedAll(t, vs, k, h, acc, fuel).r.value[|acc| + i - k])
  {
    MaterializedAllThreaded(t, vs, k, h, acc, fuel);
    hi := ThreadedElement(Create(t, fuel), vs, k, h, acc, i);
    assert Create(t, fuel)(vs[i], hi) == Materialized(t, vs[i], hi, fuel);
  }

  /** On an error, `MaterializedAll` throws what `CreateShortcut(vs[i])` throws in a store `hi` of `|h|` cells, for some `i` at or after `k`. */
  lemma MaterializedAllFailure(t: Tree, vs: seq<VirtualShortcut>, k: nat, h: Heap, acc: seq<Shortcut>, fuel: nat)
      returns (i: nat, hi: Heap)
    requires t.Valid() && k <= |vs| && AllIn(t, vs, |h|)
    ensures MaterializedAll(t, vs, k, h, acc, fuel).r.Err? ==>
              && k <= i < |vs| && |hi| == |h| && ShortcutIn(t, vs[i], |hi|)
              && Materialized(t, vs[i], hi, fuel).r == Err(MaterializedAll(t, vs, k, h, acc, fuel).r.error)
  {
    MaterializedAllThreaded(t, vs, k, h, acc, fuel);
    i, hi := ThreadedFailure(Create(t, fuel), vs, k, h, acc);
    if MaterializedAll(t, vs, k, h, acc, fuel).r.Err? {
      assert ShortcutIn(t, vs[i], |hi|);
      assert Create(t, fuel)(vs[i], hi) == Materialized(t, vs[i], hi, fuel);
    }
  }

  /** `MaterializedAll` from the first virtual shortcut: element `i` is what `CreateShortcut(vs[i])` returns. */
  lemma MaterializedFromStart(t: Tree, vs: seq<VirtualShortcut>, h: Heap, fuel: nat, i: nat)
      returns (hi: Heap)
    requires t.Valid() && i < |vs| && AllIn(t, vs, |h|)
    ensures |hi| == |h| && ShortcutIn(t, vs[i], |hi|) && (i == 0 ==> hi == h)
    ensures var st := MaterializedAll(t, vs, 0, h, [], fuel);
            st.r.Ok? ==> |st.r.value| == |vs| && Materialized(t, vs[i], hi, fuel).r == Ok(st.r.value[i])
  {
    MaterializedAllThreaded(t, vs, 0, h, [], fuel);
    hi := ThreadedFromStart(Create(t, fuel), vs, h, i);
    assert Create(t, fuel)(vs[i], hi) == Materialized(t, vs[i], hi, fuel);
  }

  /**
   * `GetAllShortcuts(profileName)` enumerated to the end, on success: the
   * virtual-shortcut list was built, there is one shortcut per virtual
   * shortcut, and the `i`-th is what `CreateShortcut` returns for the
   * `i`-th virtual shortcut, in the store the list left (`i == 0`) or in a
   * store of the same size.
   */
  lemma AllShortcutsElement(t: Tree, g: Scope, h: Heap, profileName: string, fuel: nat, i: nat)
      returns (hi: Heap)
    requires t.Valid() && g.In(|h|)
    ensures var all := VirtualShortcuts(t, g, h, profileName, fuel);
            var st := AllShortcuts(t, g, h, profileName, fuel);
            st.r.Ok? ==>
              && all.r.Ok?
              && |st.r.value| == |all.r.value|
              && (i < |all.r.value| ==>
                    && |hi| == |all.heap| && ShortcutIn(t, all.r.value[i], |hi|) && (i == 0 ==> hi == all.heap)
                    && Materialized(t, all.r.value[i], hi, fuel).r == Ok(st.r.value[i]))
  {
    hi := h;
    var all := VirtualShortcuts(t, g, h, profileName, fuel);
    if all.r.Ok? && i < |all.r.value| {
      hi := MaterializedFromStart(t, all.r.value, all.heap, fuel, i);
    }
  }

  /**
   * `GetAllShortcuts(profileName)` enumerated to the end, on an error: an
   * error building the virtual-shortcut list is returned as it is;
   * otherwise the error is what `CreateShortcut` throws for the `i`-th
   * virtual shortcut, in a store of the size the list left.
   */
  lemma AllShortcutsFailure(t: Tree, g: Scope, h: Heap, profileName: string, fuel: nat)
      returns (i: nat, hi: Heap)
    requires t.Valid() && g.In(|h|)
    ensures var all := VirtualShortcuts(t, g, h, profileName, fuel);
            all.r.Err? ==> AllShortcuts(t, g, h, profileName, fuel) == Step(Err(all.r.error), all.heap)
    ensures var all := VirtualShortcuts(t, g, h, profileName, fuel);
            var st := AllShortcuts(t, g, h, profileName, fuel);
            st.r.Err? && all.r.Ok? ==>
              && i < |all.r.value| && |hi| == |all.heap| && ShortcutIn(t, all.r.value[i], |hi|)
              && Materialized(t, all.r.value[i], hi, fuel).r == Err(st.r.error)
  {
    i, hi := 0, h;
    var all := VirtualShortcuts(t, g, h, profileName, fuel);
    if all.r.Ok? {
      i, hi := MaterializedAllFailure(t, all.r.value, 0, all.heap, [], fuel);
    }
  }
}
