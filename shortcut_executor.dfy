/**
 * `ShortcutParams` and `ShortcutExecutor` (JRun/src/ShortcutExecutor.cs):
 * the parameter object with its fluent setters, the dotted node path put
 * into XML error reports, and the lookup, argument appending and error
 * mapping of `ExecuteShortcut` and `GetAllShortcutNames`. Loading the file
 * is an input (the loaded document, or None when loading failed) and
 * starting the process is a function parameter.
 */
module ShortcutExecutor {
  import opened Wrappers
  import opened XmlTree
  import opened Errors
  import opened XmlShortcutSpec
  import opened XmlShortcutFile

  /** The four fields of a `ShortcutParams`, as a value. */
  datatype Params = Params(file: string, profile: string, shortcut: string, args: string)

  /** The parameter record every executor call takes. */
  class ShortcutParams {
    var file: string
    var profile: string
    var shortcut: string
    var args: string

    function Value(): Params
      reads this
    {
      Params(file, profile, shortcut, args)
    }

    /** `ShortcutParams()`: the default file, everything else empty. */
    constructor ()
      ensures Value() == Params("Shortcuts.xml", "", "", "")
    {
      file := "Shortcuts.xml";
      profile := "";
      shortcut := "";
      args := "";
    }

    method SetShortcut(shortcut': string) returns (r: ShortcutParams)
      modifies this
      ensures r == this && Value() == old(Value()).(shortcut := shortcut')
    {
      shortcut := shortcut';
      return this;
    }

    method SetFile(file': string) returns (r: ShortcutParams)
      modifies this
      ensures r == this && Value() == old(Value()).(file := file')
    {
      file := file';
      return this;
    }

    method SetProfile(profile': string) returns (r: ShortcutParams)
      modifies this
      ensures r == this && Value() == old(Value()).(profile := profile')
    {
      profile := profile';
      return this;
    }

    method SetArgs(args': string) returns (r: ShortcutParams)
      modifies this
      ensures r == this && Value() == old(Value()).(args := args')
    {
      args := args';
      return this;
    }
  }

  // ---------------------------------------------------------------------
  // Node paths
  // ---------------------------------------------------------------------

  /** `n` and its ancestors, from the outermost ancestor down to `n`. */
  function Lineage(t: Tree, n: NodeId): (r: seq<NodeId>)
    requires t.Valid() && t.Has(n)
    ensures r != [] && r[|r| - 1] == n
    decreases n
  {
    match t.nodes[n].parent
    case None => [n]
    case Some(p) => Lineage(t, p) + [n]
  }

  /** An upward walk read downwards: it starts at a node without a parent and each node is the parent of the next. */
  ghost predicate Descends(t: Tree, ns: seq<NodeId>) {
    && ns != []
    && (forall i :: 0 <= i < |ns| ==> t.Has(ns[i]))
    && t.nodes[ns[0]].parent.None?
    && (forall i :: 0 < i < |ns| ==> t.nodes[ns[i]].parent == Some(ns[i - 1]))
  }

  /** The lineage runs from a root down to `n` through parent links. */
  lemma {:induction false} LineageDescends(t: Tree, n: NodeId)
    requires t.Valid() && t.Has(n)
    ensures Descends(t, Lineage(t, n))
    decreases n
  {
    match t.nodes[n].parent
    case None =>
    case Some(p) =>
      LineageDescends(t, p);
      var l := Lineage(t, p);
      assert Lineage(t, n) == l + [n];
      forall i | 0 < i < |l| + 1
        ensures t.nodes[(l + [n])[i]].parent == Some((l + [n])[i - 1])
      {
        if i < |l| {
          assert (l + [n])[i] == l[i] && (l + [n])[i - 1] == l[i - 1];
        }
      }
  }

  function DebugNames(t: Tree, ns: seq<NodeId>): (r: seq<string>)
    requires forall i :: 0 <= i < |ns| ==> ns[i] < |t.nodes|
    ensures |r| == |ns| && forall i :: 0 <= i < |ns| ==> r[i] == GetDebugName(t.nodes[ns[i]])
  {
    seq(|ns|, i requires 0 <= i < |ns| => GetDebugName(t.nodes[ns[i]]))
  }

  /** The parts joined by ".". */
  function DotJoin(parts: seq<string>): string
    requires parts != []
  {
    if |parts| == 1 then parts[0] else parts[0] + "." + DotJoin(parts[1..])
  }

  /** Joining one more part at the end puts it after a ".". */
  lemma {:induction false} DotJoinSnoc(parts: seq<string>, last: string)
    requires parts != []
    ensures DotJoin(parts + [last]) == DotJoin(parts) + "." + last
    decreases |parts|
  {
    if |parts| == 1 {
      assert (parts + [last])[1..] == [last];
    } else {
      DotJoinSnoc(parts[1..], last);
      assert (parts + [last])[1..] == parts[1..] + [last];
    }
  }

  /** The path reported for an XML error at `n`: its parent's path and "." before its own debug name. */
  function NodePath(t: Tree, n: NodeId): string
    requires t.Valid() && t.Has(n)
    decreases n
  {
    match t.nodes[n].parent
    case None => GetDebugName(t.nodes[n])
    case Some(p) => NodePath(t, p) + "." + GetDebugName(t.nodes[n])
  }

  /** The path is the debug names from the outermost ancestor down to the node, joined by ".". */
  lemma {:induction false} NodePathIsLineage(t: Tree, n: NodeId)
    requires t.Valid() && t.Has(n)
    ensures Descends(t, Lineage(t, n))
    ensures NodePath(t, n) == DotJoin(DebugNames(t, Lineage(t, n)))
    decreases n
  {
    LineageDescends(t, n);
    match t.nodes[n].parent
    case None =>
      assert DebugNames(t, [n]) == [GetDebugName(t.nodes[n])];
    case Some(p) =>
      NodePathIsLineage(t, p);
      var l := Lineage(t, p);
      assert DebugNames(t, l + [n]) == DebugNames(t, l) + [GetDebugName(t.nodes[n])];
      DotJoinSnoc(DebugNames(t, l), GetDebugName(t.nodes[n]));
  }

  /** What is still to be put in front of `nodePath`: the path of `node` and a ".", or nothing once the walk has left the document. */
  function PathAbove(t: Tree, node: Option<NodeId>): string
    requires t.Valid() && (node.Some? ==> t.Has(node.value))
  {
    if node.None? then "" else NodePath(t, node.value) + "."
  }

  /** `CreateXmlException(ex)`: the node's debug name, with each ancestor's debug name and "." put in front, innermost first. */
  method CreateXmlException(t: Tree, ex: Error) returns (r: Error)
    requires t.Valid() && ex.XmlError? && t.Has(ex.node)
    ensures r == RunError(NodePath(t, ex.node), ex)
  {
    var nodePath := GetDebugName(t.nodes[ex.node]);
    var node := t.nodes[ex.node].parent;
    while node.Some?
      invariant node.Some? ==> t.Has(node.value)
      invariant NodePath(t, ex.node) == PathAbove(t, node) + nodePath
      decreases if node.Some? then node.value + 1 else 0
    {
      var parent := node.value;
      nodePath := GetDebugName(t.nodes[parent]) + "." + nodePath;
      node := t.nodes[parent].parent;
    }
    return RunError(nodePath, ex);
  }

  /** The `JRunException` reported for an XML error; an error outside the document, which the operations modelled do not raise, gets an empty path. */
  ghost function XmlReportOf(t: Tree, e: Error): (r: Error)
    requires t.Valid() && e.XmlError?
    ensures r.RunError? && r.cause == e
    ensures t.Has(e.node) ==> r.nodePath == NodePath(t, e.node)
  {
    RunError(if t.Has(e.node) then NodePath(t, e.node) else "", e)
  }

  method XmlReport(t: Tree, e: Error) returns (r: Error)
    requires t.Valid() && e.XmlError?
    ensures r == XmlReportOf(t, e)
  {
    if e.node < |t.nodes| {
      r := CreateXmlException(t, e);
    } else {
      r := RunError("", e);
    }
  }

  // ---------------------------------------------------------------------
  // Executing a shortcut
  // ---------------------------------------------------------------------

  /**
   * The exception `ExecuteShortcut` lets escape for `e`: an XML error
   * becomes a `JRunException` with the node's path, a `JRunException` is
   * rethrown, and anything else is wrapped with the three parameters.
   */
  ghost function MapError(t: Tree, p: Params, e: Error): (r: Error)
    requires t.Valid()
    ensures r.RunError? || r.ShortcutFailed?
    ensures e.XmlError? ==> r.RunError? && r.cause == e
    ensures e.RunError? ==> r == e
    ensures !e.XmlError? && !e.RunError? ==> r == ShortcutFailed(p.shortcut, p.profile, p.file, e)
  {
    match e
    case XmlError(_, _, _) => XmlReportOf(t, e)
    case RunError(_, _) => e
    case _ => ShortcutFailed(p.shortcut, p.profile, p.file, e)
  }

  /** The shortcut as launched: its `Params`, null read as empty, followed by a space and the extra arguments. */
  function WithArgs(s: Shortcut, args: string): (r: Shortcut)
    ensures r.executable == s.executable
    ensures r.params.Some? && r.params.value == s.params.GetOr("") + " " + args
  {
    s.(params := Some(s.params.GetOr("") + " " + args))
  }

  /** What `ExecuteShortcut(p)` returns or throws, for the document loaded from `p.file` and the process launcher `launch`. */
  ghost function Execution(p: Params, doc: Option<Tree>, fuel: nat, launch: Shortcut -> Outcome<Error>): (r: Res<bool>)
    requires doc.Some? ==> doc.value.Valid()
  {
    if doc.None? then Err(ShortcutFailed(p.shortcut, p.profile, p.file, LoadFailed(p.file)))
    else
      var t := doc.value;
      var loaded := Opened(t);
      if loaded.outcome.Fail? then Err(MapError(t, p, loaded.outcome.error))
      else
        var found := ShortcutLookup(t, loaded.scope, loaded.heap, p.profile, p.shortcut, fuel);
        if found.r.Err? then Err(MapError(t, p, found.r.error))
        else if found.r.value.None? then Ok(false)
        else match launch(WithArgs(found.r.value.value, p.args))
          case Pass => Ok(true)
          case Fail(e) => Err(MapError(t, p, e))
  }

  /**
   * `ExecuteShortcut(parameters)`. A null `parameters` is rejected before
   * anything else; the rest is `Execution`.
   */
  method ExecuteShortcut(parameters: ShortcutParams?, doc: Option<Tree>, fuel: nat, launch: Shortcut -> Outcome<Error>)
    returns (r: Res<bool>)
    requires doc.Some? ==> doc.value.Valid()
    ensures parameters == null ==> r == Err(ArgumentNull("parameters"))
    ensures parameters != null ==> r == Execution(parameters.Value(), doc, fuel, launch)
  {
    if parameters == null {
      return Err(ArgumentNull("parameters"));
    }
    var p := parameters.Value();
    if doc.None? {
      return Err(ShortcutFailed(p.shortcut, p.profile, p.file, LoadFailed(p.file)));
    }
    var t := doc.value;
    var loaded := Open(t, fuel);
    if loaded.Err? {
      var e := ReportError(t, p, loaded.error);
      return Err(e);
    }
    var xmlFile := loaded.value;
    var shortcut := xmlFile.GetShortcut(p.profile, p.shortcut);
    if shortcut.Err? {
      var e := ReportError(t, p, shortcut.error);
      return Err(e);
    }
    if shortcut.value.None? {
      return Ok(false);
    }
    var launched := launch(WithArgs(shortcut.value.value, p.args));
    if launched.Fail? {
      var e := ReportError(t, p, launched.error);
      return Err(e);
    }
    return Ok(true);
  }

  /** The three `catch` clauses of `ExecuteShortcut`. */
  method ReportError(t: Tree, p: Params, e: Error) returns (r: Error)
    requires t.Valid()
    ensures r == MapError(t, p, e)
  {
    if e.XmlError? {
      r := XmlReport(t, e);
    } else if e.RunError? {
      r := e;
    } else {
      r := ShortcutFailed(p.shortcut, p.profile, p.file, e);
    }
  }

  /** Only an enumeration that finds no shortcut returns false, and then the launcher is never consulted. */
  lemma ExecutionFalse(p: Params, t: Tree, fuel: nat, launch: Shortcut -> Outcome<Error>, other: Shortcut -> Outcome<Error>)
    requires t.Valid()
    ensures Execution(p, Some(t), fuel, launch) == Ok(false) <==>
              Opened(t).outcome.Pass? &&
              ShortcutLookup(t, Opened(t).scope, Opened(t).heap, p.profile, p.shortcut, fuel).r == Ok(None)
    ensures Execution(p, Some(t), fuel, launch) == Ok(false) ==> Execution(p, Some(t), fuel, other) == Ok(false)
  {
  }

  /** True means the shortcut found was launched with the extra arguments appended, and the launch succeeded. */
  lemma ExecutionTrue(p: Params, t: Tree, fuel: nat, launch: Shortcut -> Outcome<Error>)
    requires t.Valid()
    ensures Execution(p, Some(t), fuel, launch) == Ok(true) <==>
              Opened(t).outcome.Pass? &&
              var found := ShortcutLookup(t, Opened(t).scope, Opened(t).heap, p.profile, p.shortcut, fuel);
              found.r.Ok? && found.r.value.Some? && launch(WithArgs(found.r.value.value, p.args)).Pass?
  {
  }

  /** The caller only ever sees a `JRunException` or the wrapping `JException`, never a bare XML error. */
  lemma ExecutionErrors(p: Params, doc: Option<Tree>, fuel: nat, launch: Shortcut -> Outcome<Error>)
    requires doc.Some? ==> doc.value.Valid()
    ensures Execution(p, doc, fuel, launch).Err? ==>
              Execution(p, doc, fuel, launch).error.RunError? || Execution(p, doc, fuel, launch).error.ShortcutFailed?
  {
  }

  // ---------------------------------------------------------------------
  // Shortcut names
  // ---------------------------------------------------------------------

  /**
   * What `GetAllShortcutNames(p)` returns or throws, enumerated to the end.
   * The names come from an iterator, so the `try` only covers opening the
   * file: an error there gets its node path or is wrapped, while an error
   * raised during the enumeration reaches the caller as it was thrown.
   */
  ghost function NameListing(p: Params, doc: Option<Tree>, fuel: nat): (r: Res<seq<string>>)
    requires doc.Some? ==> doc.value.Valid()
  {
    if doc.None? then Err(NamesFailed(p.profile, p.file, LoadFailed(p.file)))
    else
      var t := doc.value;
      var loaded := Opened(t);
      if loaded.outcome.Fail? then
        var e := loaded.outcome.error;
        Err(if e.XmlError? then XmlReportOf(t, e) else NamesFailed(p.profile, p.file, e))
      else ShortcutNames(t, loaded.scope, loaded.heap, p.profile, fuel).r
  }

  /**
   * Opening errors are reported like those of `ExecuteShortcut`, but the
   * names, and any error of the enumeration itself, are those of the
   * profile's virtual shortcuts, unwrapped.
   */
  lemma NameListingParts(p: Params, t: Tree, fuel: nat)
    requires t.Valid()
    ensures var r := NameListing(p, Some(t), fuel);
            && (Opened(t).outcome.Fail? ==> r.Err? && (r.error.RunError? || r.error.NamesFailed?))
            && (Opened(t).outcome.Pass? ==>
                  var all := VirtualShortcuts(t, Opened(t).scope, Opened(t).heap, p.profile, fuel);
                  && (all.r.Err? ==> r == Err(all.r.error))
                  && (all.r.Ok? ==> r.Ok? && |r.value| == |all.r.value|
                                     && forall k :: 0 <= k < |all.r.value| ==> r.value[k] == all.r.value[k].name))
  {
  }

  /** `GetAllShortcutNames(parameters)`, enumerated to the end. */
  method GetAllShortcutNames(parameters: ShortcutParams, doc: Option<Tree>, fuel: nat) returns (r: Res<seq<string>>)
    requires doc.Some? ==> doc.value.Valid()
    ensures r == NameListing(parameters.Value(), doc, fuel)
  {
    var p := parameters.Value();
    if doc.None? {
      return Err(NamesFailed(p.profile, p.file, LoadFailed(p.file)));
    }
    var t := doc.value;
    var loaded := Open(t, fuel);
    if loaded.Err? {
      var e := loaded.error;
      if e.XmlError? {
        var report := XmlReport(t, e);
        return Err(report);
      }
      return Err(NamesFailed(p.profile, p.file, e));
    }
    r := loaded.value.GetAllShortcutNames(p.profile);
  }

  /** `GetAllShortcutNames()`: the same with default parameters, so the profile is "" and the file "Shortcuts.xml". */
  method GetDefaultShortcutNames(doc: Option<Tree>, fuel: nat) returns (r: Res<seq<string>>)
    requires doc.Some? ==> doc.value.Valid()
    ensures r == NameListing(Params("Shortcuts.xml", "", "", ""), doc, fuel)
  {
    var parameters := new ShortcutParams();
    r := GetAllShortcutNames(parameters, doc, fuel);
  }
}
