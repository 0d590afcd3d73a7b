/** Registration with file managers (gnome-bulk-rename/register.py): on startup
    the tool reads Nautilus' bulk-rename-tool setting and registers itself when
    nobody is registered. The settings store is a map from key to the stored
    byte string; the schema list and the two names are parameters, because
    constants.py does not define them. */
module Register {
  import opened Rows

  newtype byte = x: int | 0 <= x < 256

  /** A Python 2 `str`: every character is one byte. */
  predicate IsByteString(s: string)
  {
    forall i :: 0 <= i < |s| ==> s[i] as int < 256
  }

  /** The characters `str.strip()` removes: space, tab, newline, vertical tab,
      form feed and carriage return. */
  predicate IsSpace(c: char)
  {
    c == ' ' || c == '\t' || c == '\n' || c == '\U{0B}' || c == '\U{0C}' || c == '\r'
  }

  predicate AllSpace(s: string)
  {
    forall k :: 0 <= k < |s| ==> IsSpace(s[k])
  }

  /** Python's `sub in s` on strings: `sub` occurs as a contiguous substring. */
  predicate Contains(s: string, sub: string)
  {
    exists i :: 0 <= i <= |s| - |sub| && OccursAt(s, sub, i)
  }

  predicate OccursAt(s: string, sub: string, i: int)
  {
    0 <= i <= |s| - |sub| && s[i..i + |sub|] == sub
  }

  /** _get_setting_string: the command registered with the file manager. */
  function SettingString(appname: string): (cmd: string)
    ensures |cmd| == |appname| + 3 && cmd[..|appname|] == appname && cmd[|appname|..] == " -s"
  {
    appname + " -s"
  }

  /** The byte string register() stores: the characters, then one NUL byte. */
  function Encode(s: string): (bytes: seq<byte>)
    requires IsByteString(s)
    ensures |bytes| == |s| + 1 && bytes[|s|] == 0
    ensures forall i :: 0 <= i < |s| ==> bytes[i] as int == s[i] as int
  {
    seq(|s|, i requires 0 <= i < |s| => s[i] as int as byte) + [0]
  }

  /** _get_str_from_variant_bytestring: every byte as a character, then the last
      one dropped, whatever it is (`[:-1]` of an empty string is empty). */
  function Decode(bytes: seq<byte>): (s: string)
    ensures |s| == if bytes == [] then 0 else |bytes| - 1
    ensures forall i :: 0 <= i < |s| ==> s[i] as int == bytes[i] as int
  {
    if bytes == [] then [] else seq(|bytes| - 1, i requires 0 <= i < |bytes| - 1 => bytes[i] as char)
  }

  /** Reading back what register() wrote gives the string that was written. */
  lemma DecodeEncode(s: string)
    requires IsByteString(s)
    ensures Decode(Encode(s)) == s
  {
    var d := Decode(Encode(s));
    assert |d| == |s|;
    forall i | 0 <= i < |s|
      ensures d[i] == s[i]
    {
      assert d[i] as int == Encode(s)[i] as int == s[i] as int;
    }
  }

  /** The end of the run of whitespace that starts at index i. */
  function SpaceRunEnd(s: string, i: nat): (j: nat)
    requires i <= |s|
    ensures i <= j <= |s|
    ensures forall k :: i <= k < j ==> IsSpace(s[k])
    ensures j < |s| ==> !IsSpace(s[j])
    decreases |s| - i
  {
    if i < |s| && IsSpace(s[i]) then SpaceRunEnd(s, i + 1) else i
  }

  /** The start of the run of whitespace that ends at index j, going no further
      left than index lo. */
  function SpaceRunStart(s: string, lo: nat, j: nat): (i: nat)
    requires lo <= j <= |s|
    ensures lo <= i <= j
    ensures forall k :: i <= k < j ==> IsSpace(s[k])
    ensures i > lo ==> !IsSpace(s[i - 1])
    decreases j - lo
  {
    if j > lo && IsSpace(s[j - 1]) then SpaceRunStart(s, lo, j - 1) else j
  }

  /** str.strip(): the run of `s` between the leading and the trailing whitespace.
      It is empty exactly when `s` is all whitespace. */
  function Strip(s: string): (r: string)
    ensures exists i :: 0 <= i <= |s| - |r| && StrippedAt(s, r, i)
    ensures r != [] ==> !IsSpace(r[0]) && !IsSpace(r[|r| - 1])
    ensures r == [] <==> AllSpace(s)
  {
    var a := SpaceRunEnd(s, 0);
    var e := SpaceRunStart(s, a, |s|);
    assert StrippedAt(s, s[a..e], a);
    s[a..e]
  }

  /** `r` occurs in `s` at `i`, with only whitespace before and after it. */
  predicate StrippedAt(s: string, r: string, i: int)
  {
    0 <= i <= |s| - |r| &&
    (forall k :: 0 <= k < |r| ==> r[k] == s[i + k]) &&
    (forall k :: 0 <= k < i ==> IsSpace(s[k])) &&
    (forall k :: i + |r| <= k < |s| ==> IsSpace(s[k]))
  }

  /** A string that neither begins nor ends with whitespace is its own strip(). */
  lemma StripKeeps(s: string)
    requires s != [] && !IsSpace(s[0]) && !IsSpace(s[|s| - 1])
    ensures Strip(s) == s
  {
    assert SpaceRunEnd(s, 0) == 0;
    assert SpaceRunStart(s, 0, |s|) == |s|;
    assert s[0..|s|] == s;
  }

  /** What startup_check_file_managers does for one file manager. */
  datatype Decision =
    | Registered                        // the setting was blank: register()
    | OtherCommand(setting: string)     // another command is registered: left alone
    | AlreadyRegistered(setting: string) // this tool is registered: left alone
    | Skipped                           // the schema is missing: RuntimeError, caught
    | MissingKey                        // get_bulk_renamer_setting returned None: None.strip()
                                        // raises AttributeError, which nothing catches

  /** The startup decision from whether the schema exists and what
      get_bulk_renamer_setting returned. */
  function Decide(schemaPresent: bool, setting: Option<string>, appname: string): (d: Decision)
    ensures !schemaPresent <==> d == Skipped
    ensures schemaPresent && setting == None <==> d == MissingKey
    ensures d == Registered <==> schemaPresent && setting.Some? && AllSpace(setting.value)
    ensures d.OtherCommand? ==>
      setting.Some? && d.setting == Strip(setting.value) && d.setting != [] && !Contains(d.setting, appname)
    ensures d.AlreadyRegistered? ==>
      setting.Some? && d.setting == Strip(setting.value) && d.setting != [] && Contains(d.setting, appname)
  {
    if !schemaPresent then Skipped
    else if setting == None then MissingKey
    else
      var s := Strip(setting.value);
      if s == [] then Registered
      else if !Contains(s, appname) then OtherCommand(s)
      else AlreadyRegistered(s)
  }

  /** A Nautilus settings object: the keys of its schema and their stored values. */
  class NautilusSettings {
    /** SETTINGS_NAUTILUS_BULK_RENAME_TOOL, which constants.py does not define. */
    const bulkRenameKey: string
    var values: map<string, seq<byte>>

    constructor (bulkRenameKey: string, values: map<string, seq<byte>>)
      ensures this.bulkRenameKey == bulkRenameKey && this.values == values
    {
      this.bulkRenameKey := bulkRenameKey;
      this.values := values;
    }

    /** get_bulk_renamer_setting: None when the schema has no such key, otherwise
        the stored byte string decoded. */
    method GetBulkRenamerSetting() returns (r: Option<string>)
      ensures bulkRenameKey !in values <==> r == None
      ensures bulkRenameKey in values ==> r == Some(Decode(values[bulkRenameKey]))
    {
      if bulkRenameKey !in values {
        return None;
      }
      return Some(Decode(values[bulkRenameKey]));
    }

    /** register: stores the setting string followed by one NUL, and only when the
        key exists; no other key changes. */
    method Register(appname: string)
      requires IsByteString(appname)
      modifies this
      ensures bulkRenameKey in old(values) ==>
        values == old(values)[bulkRenameKey := Encode(SettingString(appname))]
      ensures bulkRenameKey !in old(values) ==> values == old(values)
    {
      if bulkRenameKey in values {
        values := values[bulkRenameKey := Encode(SettingString(appname))];
      }
    }
  }

  /** The stored setting as get_bulk_renamer_setting reads it. */
  function StoredSetting(values: map<string, seq<byte>>, key: string): (r: Option<string>)
    ensures key !in values <==> r == None
    ensures key in values ==> r == Some(Decode(values[key]))
  {
    if key in values then Some(Decode(values[key])) else None
  }

  /** startup_check_file_managers for Nautilus, the one class in its list. The
      settings change only when the decision is to register, and then the next
      startup finds this tool registered, unless the app name begins with
      whitespace, which strip() would remove from the setting. */
  method StartupCheck(schemas: set<string>, schemaName: string, nautilus: NautilusSettings, appname: string)
    returns (d: Decision)
    requires IsByteString(appname)
    modifies nautilus
    ensures d == Decide(schemaName in schemas, StoredSetting(old(nautilus.values), nautilus.bulkRenameKey), appname)
    ensures d == Registered ==>
      nautilus.values == old(nautilus.values)[nautilus.bulkRenameKey := Encode(SettingString(appname))]
    ensures d != Registered ==> nautilus.values == old(nautilus.values)
    ensures d == Registered && (appname == [] || !IsSpace(appname[0])) ==>
      Decide(schemaName in schemas, StoredSetting(nautilus.values, nautilus.bulkRenameKey), appname).AlreadyRegistered?
  {
    if schemaName !in schemas {
      return Skipped;
    }
    var setting := nautilus.GetBulkRenamerSetting();
    if setting == None {
      return MissingKey;
    }
    var s := Strip(setting.value);
    if s == [] {
      nautilus.Register(appname);
      if appname == [] || !IsSpace(appname[0]) {
        ReadBack(appname);
        RegisteredIsRecognised(appname);
      }
      d := Registered;
    } else if !Contains(s, appname) {
      d := OtherCommand(s);
    } else {
      d := AlreadyRegistered(s);
    }
  }

  /** Registering is idempotent: once the setting string is read back (ReadBack),
      the next decision is AlreadyRegistered, and with a non-empty app name the
      setting it reports is exactly the string written. */
  lemma RegisteredIsRecognised(appname: string)
    requires IsByteString(appname)
    requires appname == [] || !IsSpace(appname[0])
    ensures var d := Decide(true, Some(SettingString(appname)), appname);
      d.AlreadyRegistered? && (appname != [] ==> d.setting == SettingString(appname))
  {
    var cmd := SettingString(appname);
    if appname == [] {
      StripOfFlag();
      assert OccursAt("-s", appname, 0);
    } else {
      StripKeeps(cmd);
      assert OccursAt(cmd, appname, 0);
    }
  }

  /** What get_bulk_renamer_setting reads after register() is the setting string. */
  lemma ReadBack(appname: string)
    requires IsByteString(appname)
    ensures IsByteString(SettingString(appname))
    ensures Decode(Encode(SettingString(appname))) == SettingString(appname)
  {
    var cmd := SettingString(appname);
    forall i | 0 <= i < |cmd|
      ensures cmd[i] as int < 256
    {
      if i >= |appname| {
        assert cmd[i] == " -s"[i - |appname|];
      }
    }
    DecodeEncode(cmd);
  }

  lemma StripOfFlag()
    ensures SettingString([]) == " -s" && Strip(" -s") == "-s"
  {
    var s := " -s";
    assert SpaceRunEnd(s, 1) == 1;
    assert SpaceRunEnd(s, 0) == 1;
    assert SpaceRunStart(s, 1, 3) == 3;
    assert s[1..3] == "-s";
  }

  /** An app name that begins with whitespace is never recognised: strip() removes
      it from the stored setting, so the next startup reports another command. */
  lemma LeadingSpaceNotRecognised()
    ensures Decide(true, Some(SettingString(" x")), " x") == OtherCommand("x -s")
  {
    var s := " x -s";
    assert SettingString(" x") == s;
    assert SpaceRunEnd(s, 1) == 1;
    assert SpaceRunEnd(s, 0) == 1;
    assert SpaceRunStart(s, 1, 5) == 5;
    assert s[1..5] == "x -s";
    NotContained();
  }

  lemma NotContained()
    ensures !Contains("x -s", " x")
  {
    forall i | 0 <= i <= 2
      ensures !OccursAt("x -s", " x", i)
    {
      if i == 1 {
        assert "x -s"[i..i + 2][1] == '-';
      } else {
        assert "x -s"[i..i + 2][0] != ' ';
      }
    }
  }
}
