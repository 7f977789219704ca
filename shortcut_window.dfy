/**
 * The decision logic of the shortcut entry window
 * (JRunUI/src/controls/ShortcutWindow.xaml.cs): which shortcut name
 * auto-completion offers, how a successful run updates the history, which
 * part of the text box the user typed, and when a completion is written
 * back into the text box.
 */
module ShortcutWindow {
  import opened Wrappers
  import opened Text
  import opened XmlTree

  // ---------------------------------------------------------------------
  // Auto-completion of shortcut names
  // ---------------------------------------------------------------------

  /** The enumerated names that start with `input` ignoring case, in enumeration order. */
  function Candidates(names: seq<string>, input: string): (r: seq<string>)
    ensures |r| <= |names|
    ensures forall i :: 0 <= i < |r| ==> StartsWithIgnoreCase(r[i], input)
  {
    if names == [] then []
    else
      var last := names[|names| - 1];
      Candidates(names[..|names| - 1], input) + if StartsWithIgnoreCase(last, input) then [last] else []
  }

  /** The candidates are exactly the names that start with the input, and they keep the enumeration order. */
  lemma {:induction false} CandidatesExactly(names: seq<string>, input: string)
    ensures forall c :: c in Candidates(names, input) <==> c in names && StartsWithIgnoreCase(c, input)
    ensures SubsequenceOf(Candidates(names, input), names)
  {
    if names != [] {
      var init, last := names[..|names| - 1], names[|names| - 1];
      assert names == init + [last];
      CandidatesExactly(init, input);
      if StartsWithIgnoreCase(last, input) {
        assert Candidates(names, input) == Candidates(init, input) + [last];
        SubsequenceSnoc(Candidates(init, input), init, last);
      } else {
        assert Candidates(names, input) == Candidates(init, input);
        SubsequenceGrows(Candidates(init, input), init, last);
      }
    }
  }

  /** Extending both sides by the same element keeps a subsequence. */
  lemma {:induction false} SubsequenceSnoc<T>(a: seq<T>, b: seq<T>, x: T)
    requires SubsequenceOf(a, b)
    ensures SubsequenceOf(a + [x], b + [x])
    decreases |b|
  {
    if a == [] {
      assert a + [x] == [x];
      LastIsSubsequence(b, x);
    } else {
      assert (a + [x])[0] == a[0] && (a + [x])[1..] == a[1..] + [x];
      assert (b + [x])[0] == b[0] && (b + [x])[1..] == b[1..] + [x];
      if a[0] == b[0] {
        SubsequenceSnoc(a[1..], b[1..], x);
      } else {
        SubsequenceSnoc(a, b[1..], x);
      }
    }
  }

  lemma {:induction false} LastIsSubsequence<T>(b: seq<T>, x: T)
    ensures SubsequenceOf([x], b + [x])
    decreases |b|
  {
    if b != [] && b[0] != x {
      assert (b + [x])[1..] == b[1..] + [x];
      LastIsSubsequence(b[1..], x);
    }
  }

  /** Extending the larger side keeps a subsequence. */
  lemma {:induction false} SubsequenceGrows<T>(a: seq<T>, b: seq<T>, x: T)
    requires SubsequenceOf(a, b)
    ensures SubsequenceOf(a, b + [x])
    decreases |b|
  {
    if a != [] {
      assert (b + [x])[0] == b[0] && (b + [x])[1..] == b[1..] + [x];
      if a[0] == b[0] {
        SubsequenceGrows(a[1..], b[1..], x);
      } else {
        SubsequenceGrows(a, b[1..], x);
      }
    }
  }

  lemma {:induction false} SubsequenceRefl<T>(a: seq<T>)
    ensures SubsequenceOf(a, a)
    decreases |a|
  {
    if a != [] {
      SubsequenceRefl(a[1..]);
    }
  }

  /** A history entry the history pass accepts: it starts with the input and is one of the candidates ignoring case. */
  predicate Remembered(entry: string, candidates: seq<string>, input: string) {
    StartsWithIgnoreCase(entry, input) && exists k :: 0 <= k < |candidates| && EqualsIgnoreCase(candidates[k], entry)
  }

  /** The index of the first accepted history entry, if any. */
  function FirstRemembered(history: seq<string>, candidates: seq<string>, input: string): (r: Option<nat>)
    ensures r.Some? ==> r.value < |history| && Remembered(history[r.value], candidates, input)
    ensures r.Some? ==> forall k :: 0 <= k < r.value ==> !Remembered(history[k], candidates, input)
    ensures r.None? ==> forall k :: 0 <= k < |history| ==> !Remembered(history[k], candidates, input)
  {
    if history == [] then None
    else if Remembered(history[0], candidates, input) then Some(0)
    else match FirstRemembered(history[1..], candidates, input)
      case None => None
      case Some(k) => Some(k + 1)
  }

  /**
   * The name rule of `UpdateAutoComplete`: `names` is the enumeration of
   * shortcut names (None when it threw, which the code swallows) and
   * `history` the most-recently-used list (None while it is null). The
   * first accepted history entry wins, in the history's spelling; else the
   * first candidate; with no candidate the rule sets no output.
   */
  function Completion(names: Option<seq<string>>, history: Option<seq<string>>, input: string): (r: Option<string>)
    ensures names.None? ==> r.None?
    ensures r.Some? ==> StartsWithIgnoreCase(r.value, input)
  {
    if names.None? then None
    else
      var candidates := Candidates(names.value, input);
      var remembered := if history.Some? then FirstRemembered(history.value, candidates, input) else None;
      if remembered.Some? then Some(history.value[remembered.value])
      else if candidates != [] then Some(candidates[0])
      else None
  }

  /**
   * A completion always extends the input ignoring case and names one of
   * the enumerated shortcuts ignoring case; there is one exactly when the
   * enumeration succeeded and some name starts with the input.
   */
  lemma CompletionProperties(names: Option<seq<string>>, history: Option<seq<string>>, input: string)
    ensures Completion(names, history, input).Some? <==>
              names.Some? && exists k :: 0 <= k < |names.value| && StartsWithIgnoreCase(names.value[k], input)
    ensures Completion(names, history, input).Some? ==> StartsWithIgnoreCase(Completion(names, history, input).value, input)
    ensures Completion(names, history, input).Some? ==>
              exists k :: 0 <= k < |names.value| && EqualsIgnoreCase(names.value[k], Completion(names, history, input).value)
  {
    if names.Some? {
      var candidates := Candidates(names.value, input);
      CandidatesExactly(names.value, input);
      var output := Completion(names, history, input);
      if output.Some? {
        var remembered := if history.Some? then FirstRemembered(history.value, candidates, input) else None;
        if remembered.Some? {
          var m :| 0 <= m < |candidates| && EqualsIgnoreCase(candidates[m], output.value);
          assert candidates[m] in names.value;
          var k :| 0 <= k < |names.value| && names.value[k] == candidates[m];
          assert StartsWithIgnoreCase(names.value[k], input);
        } else {
          assert candidates[0] in names.value;
          var k :| 0 <= k < |names.value| && names.value[k] == candidates[0];
          assert EqualsIgnoreCase(names.value[k], output.value);
        }
      }
    }
  }

  /** Without a history match the first candidate is chosen; with one, the history's own spelling is. */
  lemma CompletionChoice(names: seq<string>, history: Option<seq<string>>, input: string)
    ensures history.None? || FirstRemembered(history.value, Candidates(names, input), input).None? ==>
              Completion(Some(names), history, input)
              == if Candidates(names, input) == [] then None else Some(Candidates(names, input)[0])
    ensures history.Some? && FirstRemembered(history.value, Candidates(names, input), input).Some? ==>
              Completion(Some(names), history, input)
              == Some(history.value[FirstRemembered(history.value, Candidates(names, input), input).value])
  {
  }

  /** The loops of `UpdateAutoComplete` that build the candidate list and search the history. */
  method UpdateAutoComplete(names: Option<seq<string>>, history: Option<seq<string>>, input: string) returns (output: Option<string>)
    ensures output == Completion(names, history, input)
  {
    if names.None? {
      return None;
    }
    var all := names.value;
    var shortcutNames := [];
    var i := 0;
    while i < |all|
      invariant 0 <= i <= |all|
      invariant shortcutNames == Candidates(all[..i], input)
    {
      assert all[..i + 1][..i] == all[..i];
      if StartsWithIgnoreCase(all[i], input) {
        shortcutNames := shortcutNames + [all[i]];
      }
      i := i + 1;
    }
    assert all[..i] == all;
    if history.Some? {
      var entries := history.value;
      var j := 0;
      while j < |entries|
        invariant 0 <= j <= |entries|
        invariant forall k :: 0 <= k < j ==> !Remembered(entries[k], shortcutNames, input)
      {
        var historyName := entries[j];
        if StartsWithIgnoreCase(historyName, input) {
          var m := 0;
          while m < |shortcutNames|
            invariant 0 <= m <= |shortcutNames|
            invariant forall q :: 0 <= q < m ==> !EqualsIgnoreCase(shortcutNames[q], historyName)
          {
            if EqualsIgnoreCase(shortcutNames[m], historyName) {
              assert Remembered(historyName, shortcutNames, input);
              assert FirstRemembered(entries, shortcutNames, input) == Some(j);
              return Some(historyName);
            }
            m := m + 1;
          }
        }
        j := j + 1;
      }
      assert FirstRemembered(entries, shortcutNames, input).None?;
    }
    if |shortcutNames| > 0 {
      return Some(shortcutNames[0]);
    }
    return None;
  }

  // ---------------------------------------------------------------------
  // History
  // ---------------------------------------------------------------------

  /** `StringCollection.Remove(x)`: drops the first entry equal to `x`, if any. */
  function RemoveFirst(entries: seq<string>, x: string): (r: seq<string>) {
    if entries == [] then []
    else if entries[0] == x then entries[1..]
    else [entries[0]] + RemoveFirst(entries[1..], x)
  }

  /** With no occurrence, removing changes nothing. */
  lemma {:induction false} RemoveFirstAbsent(entries: seq<string>, x: string)
    requires x !in entries
    ensures RemoveFirst(entries, x) == entries
  {
    if entries != [] {
      assert entries[1..] == entries[1..] && x !in entries[1..];
      RemoveFirstAbsent(entries[1..], x);
    }
  }

  /** With a first occurrence at `i`, removing cuts out exactly that entry. */
  lemma {:induction false} RemoveFirstAt(entries: seq<string>, x: string, i: nat)
    requires i < |entries| && entries[i] == x && x !in entries[..i]
    ensures RemoveFirst(entries, x) == entries[..i] + entries[i + 1..]
  {
    if i > 0 {
      assert entries[0] in entries[..i];
      assert entries[1..][..i - 1] == entries[1..i];
      assert x !in entries[1..][..i - 1];
      RemoveFirstAt(entries[1..], x, i - 1);
      assert entries[1..][i..] == entries[i + 1..];
      assert [entries[0]] + entries[1..i] == entries[..i];
    }
  }

  ghost predicate Distinct(entries: seq<string>) {
    forall i, j :: 0 <= i < j < |entries| ==> entries[i] != entries[j]
  }

  /** The history as `HandleShortcutResult` leaves it: the text moved, or put, to the front. */
  function Recorded(entries: Option<seq<string>>, text: string): (r: seq<string>)
    ensures r != [] && r[0] == text
  {
    [text] + RemoveFirst(entries.GetOr([]), text)
  }

  /** Cutting one entry out of a list without repeats leaves a list without repeats and without that entry. */
  lemma CutDistinct(entries: seq<string>, i: nat)
    requires Distinct(entries) && i < |entries|
    ensures Distinct(entries[..i] + entries[i + 1..])
    ensures entries[i] !in entries[..i] + entries[i + 1..]
  {
    var rest := entries[..i] + entries[i + 1..];
    forall k | 0 <= k < |rest|
      ensures rest[k] == entries[if k < i then k else k + 1]
    {
    }
  }

  /** Removing from a list without repeats leaves a list without repeats and without the removed text. */
  lemma RemoveFirstDistinct(entries: seq<string>, text: string)
    requires Distinct(entries)
    ensures Distinct(RemoveFirst(entries, text)) && text !in RemoveFirst(entries, text)
  {
    if text in entries {
      var i :| 0 <= i < |entries| && entries[i] == text;
      assert text !in entries[..i] by {
        forall k | 0 <= k < i
          ensures entries[..i][k] != text
        {
          assert entries[k] != entries[i];
        }
      }
      RemoveFirstAt(entries, text, i);
      CutDistinct(entries, i);
    } else {
      RemoveFirstAbsent(entries, text);
    }
  }

  /** Recording keeps a history free of repeats: the text is at the front once, and the rest keep their order. */
  lemma RecordedKeepsDistinct(entries: seq<string>, text: string)
    requires Distinct(entries)
    ensures Distinct(Recorded(Some(entries), text))
    ensures SubsequenceOf(RemoveFirst(entries, text), entries)
  {
    RemoveFirstSubsequence(entries, text);
    RemoveFirstDistinct(entries, text);
    var rest := RemoveFirst(entries, text);
    var r := Recorded(Some(entries), text);
    assert r == [text] + rest;
    forall a, b | 0 <= a < b < |r|
      ensures r[a] != r[b]
    {
      assert r[b] == rest[b - 1];
      if a > 0 {
        assert r[a] == rest[a - 1];
      }
    }
  }

  lemma {:induction false} RemoveFirstSubsequence(entries: seq<string>, x: string)
    ensures SubsequenceOf(RemoveFirst(entries, x), entries)
  {
    if entries != [] {
      RemoveFirstSubsequence(entries[1..], x);
      if entries[0] == x {
        SubsequenceSkip(entries[1..], entries);
      } else {
        assert RemoveFirst(entries, x)[1..] == RemoveFirst(entries[1..], x);
      }
    }
  }

  /** `b[1..]` is a subsequence of `b`. */
  lemma {:induction false} SubsequenceSkip<T>(a: seq<T>, b: seq<T>)
    requires b != [] && a == b[1..]
    ensures SubsequenceOf(a, b)
    decreases |b|
  {
    if a != [] {
      if a[0] == b[0] {
        SubsequenceSkip(a[1..], b[1..]);
      } else {
        SubsequenceRefl(a);
      }
    }
  }

  /** `Settings.Default.History`: null until the first successful run. */
  class History {
    var entries: Option<seq<string>>

    constructor ()
      ensures entries.None?
    {
      entries := None;
    }

    /** The history part of `HandleShortcutResult(result)`: only a successful run changes it. */
    method HandleShortcutResult(success: bool, text: string)
      modifies this
      ensures success ==> entries == Some(Recorded(old(entries), text))
      ensures !success ==> entries == old(entries)
    {
      if success {
        if entries.None? {
          entries := Some([]);
        }
        entries := Some(RemoveFirst(entries.value, text));
        entries := Some([text] + entries.value);
      }
    }
  }

  // ---------------------------------------------------------------------
  // The text box
  // ---------------------------------------------------------------------

  /**
   * `GetUnHighlightedText(textbox)`: the text before the last occurrence
   * of the selection when the selection is a non-empty suffix, else the
   * whole text.
   */
  function GetUnHighlightedText(text: string, selected: string): (r: string)
    ensures selected != "" && EndsWith(text, selected) ==> r == text[..|text| - |selected|]
    ensures !(selected != "" && EndsWith(text, selected)) ==> r == text
  {
    if selected != "" && EndsWith(text, selected) then
      assert OccursAt(text, selected, |text| - |selected|);
      text[..LastIndexOf(text, selected)]
    else text
  }

  /** A text box's text with its selection. */
  class TextBox {
    var text: string
    var selectionStart: nat
    var selectionLength: nat

    ghost predicate Valid()
      reads this
    {
      selectionStart + selectionLength <= |text|
    }

    function SelectedText(): string
      reads this
      requires Valid()
    {
      text[selectionStart..selectionStart + selectionLength]
    }

    constructor (text': string)
      ensures Valid() && text == text' && selectionStart == 0 && selectionLength == 0
    {
      text, selectionStart, selectionLength := text', 0, 0;
    }
  }

  /** Whether `HandleAutoCompleteResult` writes the completion: there is one, and the typed part is still the input. */
  predicate Applies(text: string, selected: string, input: string, output: Option<string>) {
    output.Some? && output.value != "" && GetUnHighlightedText(text, selected) == input
  }

  /**
   * `HandleAutoCompleteResult(textbox, result)`. `TextBox.Select` rejects a
   * negative length, so a completion shorter than the input is required
   * not to reach it; the name rule only produces extensions of the input.
   */
  method HandleAutoCompleteResult(textbox: TextBox, input: string, output: Option<string>)
    requires textbox.Valid()
    requires Applies(textbox.text, textbox.SelectedText(), input, output) ==> |input| <= |output.value|
    modifies textbox
    ensures textbox.Valid()
    ensures old(Applies(textbox.text, textbox.SelectedText(), input, output)) ==>
              textbox.text == output.value && textbox.selectionStart == |input| &&
              textbox.selectionLength == |output.value| - |input|
    ensures !old(Applies(textbox.text, textbox.SelectedText(), input, output)) ==>
              textbox.text == old(textbox.text) && textbox.selectionStart == old(textbox.selectionStart) &&
              textbox.selectionLength == old(textbox.selectionLength)
  {
    if output.Some? && output.value != "" {
      var currentText := GetUnHighlightedText(textbox.text, textbox.SelectedText());
      if currentText == input {
        textbox.text := output.value;
        textbox.selectionStart, textbox.selectionLength := |input|, |output.value| - |input|;
      }
    }
  }

  /** After a completion is written, the un-highlighted part is the input's length of the completion: exactly what the user typed, up to case. */
  lemma CompletedTextKeepsTypedPart(input: string, output: string)
    requires StartsWithIgnoreCase(output, input)
    ensures GetUnHighlightedText(output, output[|input|..]) == output[..|input|]
    ensures EqualsIgnoreCase(GetUnHighlightedText(output, output[|input|..]), input)
  {
    assert EndsWith(output, output[|input|..]);
  }
}
