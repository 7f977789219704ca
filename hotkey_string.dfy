/**
 * The hotkey helpers of JRunUI (JRunUI/src/HotKeyString.cs): the table of
 * modifier keys, and the conversion of a modifier/key pair to and from the
 * string stored in the settings, "<modifiers> + <key>". The WPF converters
 * are parameters; a converter that throws on a string it cannot read is a
 * `None` result.
 */
module HotKeyString {
  import Wrappers
  import opened Text

  /** The keys the model tells apart: `None`, the eight modifier keys, and every other key by its code. */
  datatype Key = None | LeftAlt | RightAlt | LeftCtrl | RightCtrl | LeftShift | RightShift | LWin | RWin | Other(code: nat)

  /** One flag of the `ModifierKeys` enumeration. */
  datatype Modifier = Alt | Control | Shift | Windows

  /** `ModifierKeys`, a set of flags; `ModifierKeys.None` is the empty set. */
  type ModifierKeys = set<Modifier>

  /** `_key2modifiers`, filled by the static constructor. */
  const KeyToModifier: map<Key, Modifier> :=
    map[LeftAlt := Alt, RightAlt := Alt,
        LeftCtrl := Control, RightCtrl := Control,
        LeftShift := Shift, RightShift := Shift,
        LWin := Windows, RWin := Windows]

  /** `_delimiter`. */
  const Delimiter: string := " + "

  /** The WPF `ModifierKeysConverter` and `KeyConverter`; a `None` from a parse is the converter throwing. */
  datatype Converters = Converters(
    modifiersToString: ModifierKeys -> string,
    keyToString: Key -> string,
    modifiersFromString: string -> Wrappers.Option<ModifierKeys>,
    keyFromString: string -> Wrappers.Option<Key>)

  /** `GetModifierKey(sysKey, regKey)`: the table's entry for `sysKey`, else for `regKey`, else none. */
  function GetModifierKey(sysKey: Key, regKey: Key): (r: ModifierKeys)
    ensures |r| <= 1
  {
    if sysKey in KeyToModifier then {KeyToModifier[sysKey]}
    else if regKey in KeyToModifier then {KeyToModifier[regKey]}
    else {}
  }

  /** The modifier a key stands for, by cases, independently of the table. */
  function ModifierOf(k: Key): Wrappers.Option<Modifier> {
    match k
    case LeftAlt | RightAlt => Wrappers.Some(Alt)
    case LeftCtrl | RightCtrl => Wrappers.Some(Control)
    case LeftShift | RightShift => Wrappers.Some(Shift)
    case LWin | RWin => Wrappers.Some(Windows)
    case _ => Wrappers.None
  }

  /**
   * The system key wins over the regular key, and the result is empty
   * exactly when neither key is a modifier key.
   */
  lemma GetModifierKeyCases(sysKey: Key, regKey: Key)
    ensures ModifierOf(sysKey).Some? ==> GetModifierKey(sysKey, regKey) == {ModifierOf(sysKey).value}
    ensures ModifierOf(sysKey).None? && ModifierOf(regKey).Some? ==> GetModifierKey(sysKey, regKey) == {ModifierOf(regKey).value}
    ensures GetModifierKey(sysKey, regKey) == {} <==> ModifierOf(sysKey).None? && ModifierOf(regKey).None?
  {
    TableAgrees(sysKey);
    TableAgrees(regKey);
  }

  /** The table holds exactly the keys `ModifierOf` names, with the same modifier. */
  lemma TableAgrees(k: Key)
    ensures k in KeyToModifier <==> ModifierOf(k).Some?
    ensures k in KeyToModifier ==> KeyToModifier[k] == ModifierOf(k).value
  {
    match k
    case Other(_) =>
      assert k !in KeyToModifier.Keys;
    case _ =>
  }

  /**
   * `GetHotKeyString(modKey, regKey)`. No part set prints as the empty
   * string; when the printed parts have no space, the string holds the
   * delimiter exactly when both parts are set, and then first right after
   * the modifier part.
   */
  function GetHotKeyString(conv: Converters, modKey: ModifierKeys, regKey: Key): (r: string)
    ensures modKey == {} && regKey == None ==> r == ""
    ensures (modKey != {} ==> ' ' !in conv.modifiersToString(modKey)) && (regKey != None ==> ' ' !in conv.keyToString(regKey)) ==>
              IndexOf(r, Delimiter) == if modKey != {} && regKey != None then |conv.modifiersToString(modKey)| else -1
  {
    var modStr, keyStr := conv.modifiersToString(modKey), conv.keyToString(regKey);
    if modKey != {} && regKey != None then
      (if ' ' !in modStr then FirstDelimiter(modStr, keyStr); modStr + Delimiter + keyStr else modStr + Delimiter + keyStr)
    else if modKey != {} then
      (if ' ' !in modStr then NoDelimiterWithoutSpace(modStr); modStr else modStr)
    else if regKey != None then
      (if ' ' !in keyStr then NoDelimiterWithoutSpace(keyStr); keyStr else keyStr)
    else
      NoDelimiterWithoutSpace(""); ""
  }

  /** The out-parameters and the result of `FromHotKeyString`. */
  datatype Parsed = Parsed(success: bool, modKey: ModifierKeys, regKey: Key)

  /**
   * `FromHotKeyString(str, out modKey, out regKey)`; `None` when a
   * converter throws. A delimiter at index 0 does not split.
   */
  function FromHotKeyString(conv: Converters, str: string): (r: Wrappers.Option<Parsed>)
    ensures r.Some? && !r.value.success ==> r.value.modKey == {} && r.value.regKey == None
  {
    if str == "" then Wrappers.Some(Parsed(false, {}, None))
    else
      var index := IndexOf(str, Delimiter);
      if index > 0 then
        match (conv.modifiersFromString(str[..index]), conv.keyFromString(str[index + |Delimiter|..]))
        case (Some(m), Some(k)) => Wrappers.Some(Parsed(true, m, k))
        case _ => Wrappers.None
      else
        match conv.modifiersFromString(str)
        case None => Wrappers.None
        case Some(m) =>
          if m != {} then Wrappers.Some(Parsed(true, m, None))
          else
            match conv.keyFromString(str)
            case None => Wrappers.None
            case Some(k) => Wrappers.Some(Parsed(k != None, {}, k))
  }

  /**
   * What the converters must do for a hotkey string to read back: each
   * parses what it prints, printed modifiers are non-empty, neither prints
   * a space, and the modifier converter reads a key's name as no modifier.
   */
  ghost predicate ConvertersRoundTrip(conv: Converters, modKey: ModifierKeys, regKey: Key) {
    (modKey != {} ==>
       conv.modifiersFromString(conv.modifiersToString(modKey)) == Wrappers.Some(modKey) &&
       conv.modifiersToString(modKey) != "" && ' ' !in conv.modifiersToString(modKey)) &&
    (regKey != None ==>
       conv.keyFromString(conv.keyToString(regKey)) == Wrappers.Some(regKey) &&
       ' ' !in conv.keyToString(regKey)) &&
    (modKey == {} && regKey != None ==>
       conv.modifiersFromString(conv.keyToString(regKey)) == Wrappers.Some({}) && conv.keyToString(regKey) != "")
  }

  /** A string without spaces holds no delimiter. */
  lemma NoDelimiterWithoutSpace(s: string)
    requires ' ' !in s
    ensures IndexOf(s, Delimiter) == -1
  {
    forall i | 0 <= i <= |s|
      ensures !OccursAt(s, Delimiter, i)
    {
      if i < |s| {
        assert s[i] in s;
      }
    }
  }

  /** When the modifier part has no space, the first delimiter is the one written between the parts. */
  lemma FirstDelimiter(modStr: string, keyStr: string)
    requires ' ' !in modStr
    ensures IndexOf(modStr + Delimiter + keyStr, Delimiter) == |modStr|
  {
    var s := modStr + Delimiter + keyStr;
    assert s[|modStr|..|modStr| + 3] == Delimiter;
    assert OccursAt(s, Delimiter, |modStr|);
    forall i | 0 <= i < |modStr|
      ensures !OccursAt(s, Delimiter, i)
    {
      assert s[i] == modStr[i] && modStr[i] in modStr;
    }
    var index := IndexOf(s, Delimiter);
    assert index != -1;
    assert !(index < |modStr|);
    assert !(|modStr| < index);
  }

  /**
   * A hotkey written by `GetHotKeyString` reads back as the same pair by
   * `FromHotKeyString`, with success exactly when some part was set.
   */
  lemma HotKeyRoundTrip(conv: Converters, modKey: ModifierKeys, regKey: Key)
    requires ConvertersRoundTrip(conv, modKey, regKey)
    ensures FromHotKeyString(conv, GetHotKeyString(conv, modKey, regKey))
            == Wrappers.Some(Parsed(modKey != {} || regKey != None, modKey, regKey))
  {
    var str := GetHotKeyString(conv, modKey, regKey);
    if modKey != {} && regKey != None {
      var modStr, keyStr := conv.modifiersToString(modKey), conv.keyToString(regKey);
      FirstDelimiter(modStr, keyStr);
      assert str[..|modStr|] == modStr;
      assert str[|modStr| + |Delimiter|..] == keyStr;
    } else if modKey != {} {
      NoDelimiterWithoutSpace(str);
    } else if regKey != None {
      NoDelimiterWithoutSpace(str);
    }
  }
}
