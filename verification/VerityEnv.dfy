/** The .env file that carries a veritysetup report from the image build to the boot script. */
module VerityEnv {
  import opened Text
  import opened Numerals
  import opened RootHash

  // ---------- writing: one line of the report ----------

  /** `IFS=":" read KEY VAL`: the key ends at the first colon. */
  function ReadKey(line: string): string {
    if ':' in line then line[..IndexOf(line, ':')] else line
  }

  /** The value is the rest; a colon that ends it and is its only one only terminates it. */
  function ReadValue(line: string): string {
    if ':' !in line then "" else
      var rest := line[IndexOf(line, ':') + 1..];
      if ':' in rest && IndexOf(rest, ':') == |rest| - 1 then rest[..|rest| - 1] else rest
  }

  /** `tr '[:lower:]' '[:upper:]' | sed 's/ /_/g'` */
  function NameChar(c: char): char {
    if 'a' <= c <= 'z' then ((c as int) - 32) as char else if c == ' ' then '_' else c
  }

  function KeyOf(line: string): string {
    var key := ReadKey(line);
    seq(|key|, k requires 0 <= k < |key| => NameChar(key[k]))
  }

  /** `tr -d ' \t'` */
  function DeleteBlanks(s: string): string {
    if s == "" then "" else (if s[0] == ' ' || s[0] == '\t' then "" else [s[0]]) + DeleteBlanks(s[1..])
  }

  function ValueOf(line: string): string {
    DeleteBlanks(ReadValue(line))
  }

  function EnvLine(line: string): string {
    KeyOf(line) + "=" + ValueOf(line)
  }

  function EnvLines(report: seq<string>): seq<string> {
    seq(|report|, k requires 0 <= k < |report| => EnvLine(report[k]))
  }

  predicate AllBlank(s: string) {
    forall k :: 0 <= k < |s| ==> s[k] == ' ' || s[k] == '\t'
  }

  lemma {:induction false} DeleteBlanksAppend(a: string, b: string)
    ensures DeleteBlanks(a + b) == DeleteBlanks(a) + DeleteBlanks(b)
  {
    if a == "" {
      assert a + b == b;
    } else {
      assert (a + b)[1..] == a[1..] + b;
      DeleteBlanksAppend(a[1..], b);
    }
  }

  lemma {:induction false} DeleteBlanksAll(s: string)
    requires AllBlank(s)
    ensures DeleteBlanks(s) == ""
  {
    if s == "" {
    } else {
      DeleteBlanksAll(s[1..]);
    }
  }

  lemma {:induction false} DeleteBlanksNone(s: string)
    requires ' ' !in s && '\t' !in s
    ensures DeleteBlanks(s) == s
  {
    if s == "" {
    } else {
      DeleteBlanksNone(s[1..]);
    }
  }

  lemma ReadLine(key: string, rest: string)
    requires ':' !in key && ':' !in rest
    ensures var line := key + [':'] + rest; ReadKey(line) == key && ReadValue(line) == rest
  {
    var line := key + [':'] + rest;
    assert line[..|key|] == key && line[|key|] == ':' && line[|key| + 1..] == rest;
    IndexOfUnique(line, ':', |key|);
  }

  /** A report line `key: value` is split into just these, however the value is lined up. */
  lemma ReportLine(key: string, blanks: string, value: string)
    requires ':' !in key && ':' !in value && ' ' !in value && '\t' !in value && AllBlank(blanks)
    ensures var line := key + [':'] + (blanks + value); ReadKey(line) == key && ValueOf(line) == value
  {
    assert ':' !in blanks;
    ReadLine(key, blanks + value);
    DeleteBlanksAppend(blanks, value);
    DeleteBlanksAll(blanks);
    DeleteBlanksNone(value);
  }

  /** A line without a colon is all key; a value keeps its colons, unless the only one ends it. */
  lemma ReadOtherLines(key: string, rest: string)
    requires ':' !in key
    ensures ReadKey(key) == key && ReadValue(key) == ""
    ensures ReadKey(key + [':'] + rest) == key
    ensures ':' !in rest ==> ReadValue(key + [':'] + (rest + [':'])) == rest
    ensures ':' in rest ==> ReadValue(key + [':'] + (rest + [':'])) == rest + [':']
    ensures rest != "" && rest[|rest| - 1] != ':' ==> ReadValue(key + [':'] + rest) == rest
  {
    FirstColon(key, rest);
    FirstColon(key, rest + [':']);
    if ':' !in rest {
      IndexOfUnique(rest + [':'], ':', |rest|);
    } else {
      var i := IndexOf(rest, ':');
      assert (rest + [':'])[..i] == rest[..i];
      IndexOfUnique(rest + [':'], ':', i);
    }
  }

  lemma FirstColon(key: string, rest: string)
    requires ':' !in key
    ensures var line := key + [':'] + rest; IndexOf(line, ':') == |key| && line[..|key|] == key && line[|key| + 1..] == rest
  {
    var line := key + [':'] + rest;
    assert line[..|key|] == key && line[|key|] == ':' && line[|key| + 1..] == rest;
    IndexOfUnique(line, ':', |key|);
  }

  /** A key is put in upper case, with underscores for blanks, character by character. */
  lemma KeyChars(line: string, k: nat)
    requires k < |ReadKey(line)|
    ensures |KeyOf(line)| == |ReadKey(line)|
    ensures ReadKey(line)[k] == ' ' ==> KeyOf(line)[k] == '_'
    ensures forall i :: 0 <= i < 26 && ReadKey(line)[k] == "abcdefghijklmnopqrstuvwxyz"[i] ==>
      KeyOf(line)[k] == "ABCDEFGHIJKLMNOPQRSTUVWXYZ"[i]
    ensures ReadKey(line)[k] != ' ' && !('a' <= ReadKey(line)[k] <= 'z') ==> KeyOf(line)[k] == ReadKey(line)[k]
  {
    var c := ReadKey(line)[k];
    forall i | 0 <= i < 26 && c == "abcdefghijklmnopqrstuvwxyz"[i]
      ensures NameChar(c) == "ABCDEFGHIJKLMNOPQRSTUVWXYZ"[i]
    {
      Letters(i);
    }
  }

  lemma Letters(i: nat)
    requires i < 26
    ensures "abcdefghijklmnopqrstuvwxyz"[i] == (i + 97) as char && "ABCDEFGHIJKLMNOPQRSTUVWXYZ"[i] == (i + 65) as char
  {
  }

  /** The keys that the boot script knows are those that veritysetup prints. */
  lemma KnownKeys(line: string)
    ensures ReadKey(line) == "Root hash" ==> KeyOf(line) == "ROOT_HASH"
    ensures ReadKey(line) == "Data block size" ==> KeyOf(line) == "DATA_BLOCK_SIZE"
  {
    if ReadKey(line) == "Root hash" {
      assert KeyOf(line) == "ROOT_HASH";
    } else if ReadKey(line) == "Data block size" {
      assert KeyOf(line) == "DATA_BLOCK_SIZE";
    }
  }

  // ---------- sourcing ----------

  predicate NameStart(c: char) {
    'A' <= c <= 'Z' || 'a' <= c <= 'z' || c == '_'
  }

  predicate IsShellName(s: string) {
    s != "" && NameStart(s[0]) && forall k :: 0 <= k < |s| ==> NameStart(s[k]) || '0' <= s[k] <= '9'
  }

  predicate PlainChar(c: char) {
    NameStart(c) || '0' <= c <= '9' || c in "-./:,+@%="
  }

  /** Text that the shell takes as it is anywhere. */
  predicate IsPlain(s: string) {
    forall k :: 0 <= k < |s| ==> PlainChar(s[k])
  }

  predicate PlainValueChar(c: char) {
    PlainChar(c) || c in "[]{}*?!^#"
  }

  /** Text that it takes as it is behind the equals sign of an assignment, where a word is neither
      split nor matched against file names. */
  predicate IsPlainValue(s: string) {
    forall k :: 0 <= k < |s| ==> PlainValueChar(s[k])
  }

  /** A word with an equals sign: an assignment, or else taken for a command that does not exist. */
  predicate IsPlainLine(line: string) {
    '=' in line && var i := IndexOf(line, '='); IsPlain(line[..i]) && IsPlainValue(line[i + 1..])
  }

  predicate Sourceable(lines: seq<string>) {
    forall k :: 0 <= k < |lines| ==> IsPlainLine(lines[k])
  }

  lemma PlainLineChar(line: string, k: nat)
    requires IsPlainLine(line) && k < |line|
    ensures PlainValueChar(line[k])
  {
    var n := IndexOf(line, '=');
    if k < n {
      assert line[..n][k] == line[k];
    } else if k > n {
      assert line[n + 1..][k - n - 1] == line[k];
    }
  }

  /** What the shell treats specially is never in a line of plain text. */
  lemma PlainIsNotSpecial(line: string, k: nat)
    requires IsPlainLine(line) && k < |line|
    ensures line[k] !in " \t\n'\"\\$`;&|<>()~"
  {
    PlainLineChar(line, k);
    var special := " \t\n'\"\\$`;&|<>()~";
    forall i | 0 <= i < |special| ensures !PlainValueChar(special[i]) {
      NotPlain(special[i], i);
    }
  }

  lemma NotPlain(c: char, i: nat)
    requires i < 16 && c == " \t\n'\"\\$`;&|<>()~"[i]
    ensures !PlainValueChar(c)
  {
  }

  type Vars = map<string, string>

  datatype Assignment = Assignment(name: string, value: string)

  /** What a line of plain text assigns. */
  function Assigned(line: string): Option<Assignment> {
    if '=' !in line then None else
      var i := IndexOf(line, '=');
      if IsShellName(line[..i]) then Some(Assignment(line[..i], line[i + 1..])) else None
  }

  predicate Assigns(line: string, name: string) {
    Assigned(line).Some? && Assigned(line).value.name == name
  }

  function Source(vars: Vars, lines: seq<string>): Vars
    requires Sourceable(lines)
    decreases lines
  {
    if lines == [] then vars
    else
      var next := match Assigned(lines[0]) case None => vars case Some(a) => vars[a.name := a.value];
      Source(next, lines[1..])
  }

  function Get(vars: Vars, name: string): string {
    if name in vars then vars[name] else ""
  }

  lemma {:induction false} SourceKeeps(vars: Vars, lines: seq<string>, name: string)
    requires Sourceable(lines) && forall k :: 0 <= k < |lines| ==> !Assigns(lines[k], name)
    ensures Get(Source(vars, lines), name) == Get(vars, name)
    decreases lines
  {
    if lines == [] {
    } else {
      var next := match Assigned(lines[0]) case None => vars case Some(a) => vars[a.name := a.value];
      assert !Assigns(lines[0], name);
      SourceKeeps(next, lines[1..], name);
    }
  }

  /** The last line that assigns a name decides its value. */
  lemma {:induction false} SourceLast(vars: Vars, lines: seq<string>, i: nat)
    requires Sourceable(lines) && i < |lines| && Assigned(lines[i]).Some?
    requires forall k :: i < k < |lines| ==> !Assigns(lines[k], Assigned(lines[i]).value.name)
    ensures var a := Assigned(lines[i]).value; Get(Source(vars, lines), a.name) == a.value
    decreases lines
  {
    var next := match Assigned(lines[0]) case None => vars case Some(a) => vars[a.name := a.value];
    if i == 0 {
      SourceKeeps(next, lines[1..], Assigned(lines[0]).value.name);
    } else {
      assert lines[1..][i - 1] == lines[i];
      SourceLast(next, lines[1..], i - 1);
    }
  }

  /** A printed assignment is sourced as the one it was printed from. */
  lemma PrintedAssignment(name: string, value: string)
    requires IsShellName(name)
    ensures Assigned(name + "=" + value) == Some(Assignment(name, value))
  {
    var line := name + "=" + value;
    assert line[..|name|] == name && line[|name| + 1..] == value;
    forall k | 0 <= k < |name| ensures name[k] != '=' {
      assert NameStart(name[k]) || '0' <= name[k] <= '9';
    }
    IndexOfUnique(line, '=', |name|);
  }

  /** A key without an equals sign is the name that its line assigns, if it is a shell name. */
  lemma PrintedName(key: string, value: string, other: string)
    requires '=' !in key && other != key
    ensures !Assigns(key + "=" + value, other)
  {
    var line := key + "=" + value;
    assert line[..|key|] == key;
    IndexOfUnique(line, '=', |key|);
  }

  lemma ShellNameHasNoEquals(name: string)
    requires IsShellName(name)
    ensures '=' !in name
  {
    forall k | 0 <= k < |name| ensures name[k] != '=' {
      assert NameStart(name[k]) || '0' <= name[k] <= '9';
    }
  }

  // ---------- the whole file ----------

  /** `s/pattern//` on plain text. */
  function CutFirst(pattern: string, l: string): string
    decreases l
  {
    if pattern <= l then l[|pattern|..]
    else if l == "" then l
    else [l[0]] + CutFirst(pattern, l[1..])
  }

  function GrepRootHash(env: seq<string>): seq<string> {
    if env == [] then []
    else (if "ROOT_HASH" <= env[0] then [CutFirst("ROOT_HASH=", env[0])] else []) + GrepRootHash(env[1..])
  }

  /** The root hash read back from the file. */
  function RootHashText(env: seq<string>): string {
    Join("\n", GrepRootHash(env))
  }

  function Printed(settings: seq<Assignment>): seq<string> {
    seq(|settings|, k requires 0 <= k < |settings| => settings[k].name + "=" + settings[k].value)
  }

  function SizeSettings(size: nat, separate: nat): seq<Assignment> {
    [Assignment("DATA_SIZE", Numeral(size, 10)), Assignment("SEPARATE_HASH", Numeral(separate, 10))]
  }

  function UuidSettings(hash: string): seq<Assignment> {
    [Assignment("ROOT_UUID", Uuid(RootHi(hash))), Assignment("RHASH_UUID", Uuid(RootLo(hash)))]
  }

  /** The report and the two settings that every build appends. */
  function BaseEnv(report: seq<string>, size: nat, separate: nat): seq<string> {
    EnvLines(report) + Printed(SizeSettings(size, separate))
  }

  /** The UUIDs follow unless the hash data is appended to the image. */
  function Settings(report: seq<string>, size: nat, separate: nat): seq<Assignment> {
    SizeSettings(size, separate) +
    if separate == 0 then [] else UuidSettings(RootHashText(BaseEnv(report, size, separate)))
  }

  /** Every line of the report is a key and a value in plain text. */
  predicate PlainReport(report: seq<string>) {
    forall k :: 0 <= k < |report| ==>
      IsPlain(KeyOf(report[k])) && '=' !in KeyOf(report[k]) && IsPlainValue(ValueOf(report[k]))
  }

  function EnvOf(report: seq<string>, size: nat, separate: nat): (env: seq<string>)
    ensures PlainReport(report) ==> Sourceable(env)
  {
    SettingsArePlain(report, size, separate);
    LinesArePlain(report);
    EnvLines(report) + Printed(Settings(report, size, separate))
  }

  /** The file line by line: the report, the two settings, and the UUIDs unless the flag is 0. */
  lemma EnvOfLines(report: seq<string>, size: nat, separate: nat)
    ensures BaseEnv(report, size, separate) ==
            EnvLines(report) + ["DATA_SIZE=" + Numeral(size, 10), "SEPARATE_HASH=" + Numeral(separate, 10)]
    ensures separate == 0 ==> EnvOf(report, size, separate) == BaseEnv(report, size, separate)
    ensures var hash := RootHashText(BaseEnv(report, size, separate));
      separate != 0 ==>
        EnvOf(report, size, separate) ==
        BaseEnv(report, size, separate) + ["ROOT_UUID=" + Uuid(RootHi(hash)), "RHASH_UUID=" + Uuid(RootLo(hash))]
  {
    var hash := RootHashText(BaseEnv(report, size, separate));
    PrintedSizes(size, separate);
    PrintedUuids(hash);
    PrintedSum(EnvLines(report), SizeSettings(size, separate), []);
    PrintedSum(EnvLines(report), SizeSettings(size, separate), UuidSettings(hash));
  }

  lemma PrintedSizes(size: nat, separate: nat)
    ensures Printed(SizeSettings(size, separate)) ==
            ["DATA_SIZE=" + Numeral(size, 10), "SEPARATE_HASH=" + Numeral(separate, 10)]
  {
    assert "DATA_SIZE" + "=" == "DATA_SIZE=" && "SEPARATE_HASH" + "=" == "SEPARATE_HASH=";
  }

  lemma PrintedUuids(hash: string)
    ensures Printed(UuidSettings(hash)) == ["ROOT_UUID=" + Uuid(RootHi(hash)), "RHASH_UUID=" + Uuid(RootLo(hash))]
  {
    assert "ROOT_UUID" + "=" == "ROOT_UUID=" && "RHASH_UUID" + "=" == "RHASH_UUID=";
  }

  lemma PrintedSum(lines: seq<string>, a: seq<Assignment>, b: seq<Assignment>)
    ensures lines + Printed(a + b) == lines + Printed(a) + Printed(b)
    ensures Printed([]) == [] && lines + Printed(a) + [] == lines + Printed(a)
  {
    assert Printed(a + b) == Printed(a) + Printed(b);
  }

  const APPENDED: seq<string> := ["DATA_SIZE", "SEPARATE_HASH", "ROOT_UUID", "RHASH_UUID"]

  lemma PrintedIsPlain(name: string, value: string)
    requires IsPlain(name) && '=' !in name && IsPlainValue(value)
    ensures IsPlainLine(name + "=" + value)
  {
    var line := name + "=" + value;
    assert line[..|name|] == name && line[|name|] == '=' && line[|name| + 1..] == value;
    IndexOfUnique(line, '=', |name|);
  }

  lemma LinesArePlain(report: seq<string>)
    ensures PlainReport(report) ==> Sourceable(EnvLines(report))
  {
    if PlainReport(report) {
      forall k | 0 <= k < |report| ensures IsPlainLine(EnvLine(report[k])) {
        PrintedIsPlain(KeyOf(report[k]), ValueOf(report[k]));
      }
    }
  }

  ghost predicate PlainValues(settings: seq<Assignment>) {
    forall k :: 0 <= k < |settings| ==> IsPlainValue(settings[k].value)
  }

  lemma PlainIsPlainValue(s: string)
    requires IsPlain(s)
    ensures IsPlainValue(s)
  {
  }

  lemma SizesArePlain(size: nat, separate: nat)
    ensures PlainValues(SizeSettings(size, separate))
  {
    DecimalIsPlain(size);
    DecimalIsPlain(separate);
    PlainIsPlainValue(Numeral(size, 10));
    PlainIsPlainValue(Numeral(separate, 10));
  }

  lemma UuidsArePlain(hash: string)
    ensures PlainValues(UuidSettings(hash))
  {
    UuidIsPlain(RootHi(hash));
    UuidIsPlain(RootLo(hash));
    PlainIsPlainValue(Uuid(RootHi(hash)));
    PlainIsPlainValue(Uuid(RootLo(hash)));
  }

  lemma SettingsArePlain(report: seq<string>, size: nat, separate: nat)
    ensures Sourceable(Printed(Settings(report, size, separate)))
  {
    var settings := Settings(report, size, separate);
    NamesStayApart(report, size, separate, settings);
    SizesArePlain(size, separate);
    UuidsArePlain(RootHashText(BaseEnv(report, size, separate)));
    assert PlainValues(settings);
    PrintedArePlain(settings);
  }

  lemma PrintedArePlain(settings: seq<Assignment>)
    requires PlainValues(settings) && forall k :: 0 <= k < |settings| ==> IsShellName(settings[k].name)
    ensures Sourceable(Printed(settings))
  {
    forall k | 0 <= k < |settings| ensures IsPlainLine(settings[k].name + "=" + settings[k].value) {
      ShellNameIsPlain(settings[k].name);
      ShellNameHasNoEquals(settings[k].name);
      PrintedIsPlain(settings[k].name, settings[k].value);
    }
  }

  lemma ShellNameIsPlain(name: string)
    requires IsShellName(name)
    ensures IsPlain(name)
  {
    forall k | 0 <= k < |name| ensures NameStart(name[k]) || '0' <= name[k] <= '9' {
    }
  }

  lemma LastAssigned(vars: Vars, lines: seq<string>, i: nat, name: string, value: string)
    requires Sourceable(lines) && IsShellName(name)
    requires i < |lines| && lines[i] == name + "=" + value
    requires forall k :: i < k < |lines| ==> !Assigns(lines[k], name)
    ensures Get(Source(vars, lines), name) == value
  {
    PrintedAssignment(name, value);
    SourceLast(vars, lines, i);
  }

  lemma AppendedNames()
    ensures forall k :: 0 <= k < |APPENDED| ==> IsShellName(APPENDED[k])
    ensures forall j, k :: 0 <= j < k < |APPENDED| ==> APPENDED[j] != APPENDED[k]
  {
  }

  /** The settings have the appended names, in order. */
  ghost predicate AreAppended(settings: seq<Assignment>) {
    |settings| <= 4 && forall k :: 0 <= k < |settings| ==> settings[k].name == APPENDED[k]
  }

  lemma JoinedNames(sizes: seq<Assignment>, uuids: seq<Assignment>)
    requires |sizes| == 2 && sizes[0].name == APPENDED[0] && sizes[1].name == APPENDED[1]
    requires uuids == [] || (|uuids| == 2 && uuids[0].name == APPENDED[2] && uuids[1].name == APPENDED[3])
    ensures AreAppended(sizes + uuids)
  {
  }

  lemma SettingsAreAppended(report: seq<string>, size: nat, separate: nat)
    ensures var settings := Settings(report, size, separate);
      AreAppended(settings) && |settings| == if separate == 0 then 2 else 4
  {
    var hash := RootHashText(BaseEnv(report, size, separate));
    var sizes, uuids := SizeSettings(size, separate), if separate == 0 then [] else UuidSettings(hash);
    assert Settings(report, size, separate) == sizes + uuids;
    SizeNames(sizes, size, separate);
    UuidNames(UuidSettings(hash), hash);
    JoinedNames(sizes, uuids);
  }

  lemma SizeNames(sizes: seq<Assignment>, size: nat, separate: nat)
    requires sizes == SizeSettings(size, separate)
    ensures |sizes| == 2 && sizes[0].name == APPENDED[0] && sizes[1].name == APPENDED[1]
  {
  }

  lemma UuidNames(uuids: seq<Assignment>, hash: string)
    requires uuids == UuidSettings(hash)
    ensures |uuids| == 2 && uuids[0].name == APPENDED[2] && uuids[1].name == APPENDED[3]
  {
  }

  /** A setting printed behind any lines is sourced, when no later one has its name. */
  lemma SettingRoundTrip(vars: Vars, base: seq<string>, settings: seq<Assignment>, i: nat)
    requires Sourceable(base + Printed(settings)) && i < |settings|
    requires forall k :: i <= k < |settings| ==> IsShellName(settings[k].name)
    requires forall k :: i < k < |settings| ==> settings[k].name != settings[i].name
    ensures Get(Source(vars, base + Printed(settings)), settings[i].name) == settings[i].value
  {
    var env, n := base + Printed(settings), |base|;
    var name, printed := settings[i].name, Printed(settings);
    forall k | n + i < k < |env| ensures !Assigns(env[k], name) {
      var other := settings[k - n];
      assert env[k] == printed[k - n] == other.name + "=" + other.value;
      ShellNameHasNoEquals(other.name);
      PrintedName(other.name, other.value, name);
    }
    assert env[n + i] == printed[i] == name + "=" + settings[i].value;
    LastAssigned(vars, env, n + i, name, settings[i].value);
  }

  /** A line in front of settings with other names is sourced as if they were not there. */
  lemma LineRoundTrip(vars: Vars, base: seq<string>, settings: seq<Assignment>, i: nat, name: string, value: string)
    requires Sourceable(base + Printed(settings))
    requires i < |base| && IsShellName(name) && base[i] == name + "=" + value
    requires forall k :: i < k < |base| ==> !Assigns(base[k], name)
    requires forall k :: 0 <= k < |settings| ==> IsShellName(settings[k].name) && settings[k].name != name
    ensures Get(Source(vars, base + Printed(settings)), name) == value
  {
    var printed := Printed(settings);
    var env, n := base + printed, |base|;
    forall k | i < k < |env| ensures !Assigns(env[k], name) {
      if k >= n {
        var other := settings[k - n];
        assert env[k] == printed[k - n] == other.name + "=" + other.value;
        ShellNameHasNoEquals(other.name);
        PrintedName(other.name, other.value, name);
      } else {
        assert env[k] == base[k];
      }
    }
    assert env[i] == base[i];
    LastAssigned(vars, env, i, name, value);
  }

  /** Sourcing the file gives a key of a plain report its value, unless a later line of the
      report has the same key. */
  lemma EnvRoundTrip(vars: Vars, report: seq<string>, size: nat, separate: nat, i: nat, env: seq<string>)
    requires PlainReport(report) && i < |report|
    requires env == EnvOf(report, size, separate) && Sourceable(env)
    requires IsShellName(KeyOf(report[i])) && KeyOf(report[i]) !in APPENDED
    requires forall j :: i < j < |report| ==> KeyOf(report[j]) != KeyOf(report[i])
    ensures Get(Source(vars, env), KeyOf(report[i])) == ValueOf(report[i])
  {
    var settings := Settings(report, size, separate);
    OtherNames(report, size, separate, settings, KeyOf(report[i]));
    forall j | i < j < |report| ensures !Assigns(EnvLine(report[j]), KeyOf(report[i])) {
      PrintedName(KeyOf(report[j]), ValueOf(report[j]), KeyOf(report[i]));
    }
    LineRoundTrip(vars, EnvLines(report), settings, i, KeyOf(report[i]), ValueOf(report[i]));
  }

  lemma OtherNames(report: seq<string>, size: nat, separate: nat, settings: seq<Assignment>, name: string)
    requires settings == Settings(report, size, separate) && name !in APPENDED
    ensures forall k :: 0 <= k < |settings| ==> IsShellName(settings[k].name) && settings[k].name != name
  {
    AppendedNames();
    SettingsAreAppended(report, size, separate);
  }

  /** A plain report whose keys stay apart comes back whole. */
  lemma ReportRoundTrip(vars: Vars, report: seq<string>, size: nat, separate: nat, env: seq<string>)
    requires PlainReport(report) && env == EnvOf(report, size, separate) && Sourceable(env)
    requires forall i :: 0 <= i < |report| ==> IsShellName(KeyOf(report[i])) && KeyOf(report[i]) !in APPENDED
    requires forall i, j :: 0 <= i < j < |report| ==> KeyOf(report[i]) != KeyOf(report[j])
    ensures forall i :: 0 <= i < |report| ==> Get(Source(vars, env), KeyOf(report[i])) == ValueOf(report[i])
  {
    forall i | 0 <= i < |report| ensures Get(Source(vars, env), KeyOf(report[i])) == ValueOf(report[i]) {
      EnvRoundTrip(vars, report, size, separate, i, env);
    }
  }

  lemma DigitsArePlain(s: string)
    requires AreDigits(s, 16)
    ensures IsPlain(s)
  {
    forall k | 0 <= k < |s| ensures NameStart(s[k]) || '0' <= s[k] <= '9' {
      assert DigitValue(s[k]) < 16;
    }
  }

  lemma PlainAppend(a: string, b: string)
    requires IsPlain(a) && IsPlain(b)
    ensures IsPlain(a + b)
  {
  }

  lemma PlainSlice(s: string, i: nat, j: nat)
    requires IsPlain(s) && i <= j <= |s|
    ensures IsPlain(s[i..j])
  {
  }

  lemma PlainHyphen(s: string, n: nat)
    requires IsPlain(s) && n >= 1
    ensures IsPlain(HyphenAt(s, n))
  {
    if |s| >= n {
      PlainSlice(s, 0, n - 1);
      PlainSlice(s, n - 1, |s|);
      assert '-' in "-./:,+@%=";
      assert IsPlain("-");
      PlainAppend(s[..n - 1], "-");
      PlainAppend(s[..n - 1] + "-", s[n - 1..]);
    }
  }

  lemma PlainLower(s: string)
    requires IsPlain(s)
    ensures IsPlain(Lower(s))
  {
    forall k | 0 <= k < |s|
      ensures PlainChar(Lower(s)[k])
    {
      assert PlainChar(s[k]);
    }
  }

  lemma UuidIsPlain(half: string)
    requires AreDigits(half, 16)
    ensures IsPlain(Uuid(half))
  {
    DigitsArePlain(half);
    assert IsPlain("00000000");
    PlainAppend("00000000", half);
    var s := "00000000" + half;
    if |s| >= 32 {
      PlainSlice(s, |s| - 32, |s|);
    }
    PlainHyphen(Last32(s), 9);
    PlainHyphen(HyphenAt(Last32(s), 9), 14);
    PlainHyphen(HyphenAt(HyphenAt(Last32(s), 9), 14), 19);
    PlainHyphen(HyphenAt(HyphenAt(HyphenAt(Last32(s), 9), 14), 19), 24);
    PlainLower(Hyphenate(Last32(s)));
  }

  lemma DecimalIsPlain(n: nat)
    ensures IsPlain(Numeral(n, 10))
  {
    var s := Numeral(n, 10);
    forall k | 0 <= k < |s| ensures DigitValue(s[k]) < 16 {
      assert DigitValue(s[k]) < 10;
    }
    DigitsArePlain(s);
  }

  lemma NamesStayApart(report: seq<string>, size: nat, separate: nat, settings: seq<Assignment>)
    requires settings == Settings(report, size, separate)
    ensures forall k :: 0 <= k < |settings| ==> IsShellName(settings[k].name)
    ensures forall j, k :: 0 <= j < k < |settings| ==> settings[k].name != settings[j].name
  {
    AppendedNames();
    SettingsAreAppended(report, size, separate);
  }

  /** Behind a report that the shell can source the appended settings come back too. */
  lemma SettingsRoundTrip(vars: Vars, report: seq<string>, size: nat, separate: nat, env: seq<string>)
    requires env == EnvOf(report, size, separate) && Sourceable(env)
    ensures Get(Source(vars, env), "DATA_SIZE") == Numeral(size, 10)
    ensures Get(Source(vars, env), "SEPARATE_HASH") == Numeral(separate, 10)
  {
    var settings := Settings(report, size, separate);
    NamesStayApart(report, size, separate, settings);
    SettingRoundTrip(vars, EnvLines(report), settings, 0);
    SettingRoundTrip(vars, EnvLines(report), settings, 1);
  }

  lemma UuidsRoundTrip(vars: Vars, report: seq<string>, size: nat, separate: nat, env: seq<string>)
    requires separate != 0 && env == EnvOf(report, size, separate) && Sourceable(env)
    ensures var hash := RootHashText(BaseEnv(report, size, separate));
      && Get(Source(vars, env), "ROOT_UUID") == Uuid(RootHi(hash))
      && Get(Source(vars, env), "RHASH_UUID") == Uuid(RootLo(hash))
  {
    var settings := Settings(report, size, separate);
    NamesStayApart(report, size, separate, settings);
    SettingRoundTrip(vars, EnvLines(report), settings, 2);
    SettingRoundTrip(vars, EnvLines(report), settings, 3);
  }

  lemma {:induction false} GrepNone(env: seq<string>)
    requires forall k :: 0 <= k < |env| ==> !("ROOT_HASH" <= env[k])
    ensures GrepRootHash(env) == []
  {
    if env == [] {
    } else {
      GrepNone(env[1..]);
    }
  }

  lemma {:induction false} GrepOne(env: seq<string>, i: nat, value: string)
    requires i < |env| && env[i] == "ROOT_HASH=" + value
    requires forall k :: 0 <= k < |env| && k != i ==> !("ROOT_HASH" <= env[k])
    ensures GrepRootHash(env) == [value]
  {
    if i == 0 {
      GrepNone(env[1..]);
      assert "ROOT_HASH" <= env[0] && "ROOT_HASH=" <= env[0];
    } else {
      GrepOne(env[1..], i - 1, value);
    }
  }

  /** Every line that starts with the key counts, in order. */
  lemma {:induction false} GrepAppend(env: seq<string>, more: seq<string>)
    ensures GrepRootHash(env + more) == GrepRootHash(env) + GrepRootHash(more)
  {
    if env == [] {
      assert env + more == more;
    } else {
      assert (env + more)[1..] == env[1..] + more;
      GrepAppend(env[1..], more);
    }
  }

  lemma GrepLine(rest: string)
    ensures GrepRootHash(["ROOT_HASH" + rest]) == [CutFirst("ROOT_HASH=", "ROOT_HASH" + rest)]
  {
    assert "ROOT_HASH" <= "ROOT_HASH" + rest;
    assert GrepRootHash([]) == [];
  }

  ghost predicate OccursAt(pattern: string, l: string, k: nat) {
    k <= |l| && pattern <= l[k..]
  }

  lemma OccursInTail(pattern: string, l: string, rest: string, k: nat)
    requires l != "" && rest == l[1..]
    ensures OccursAt(pattern, rest, k) <==> OccursAt(pattern, l, k + 1)
  {
    if k <= |rest| {
      assert rest[k..] == l[k + 1..];
    }
  }

  lemma CutHere(pattern: string, l: string)
    ensures OccursAt(pattern, l, 0) ==> CutFirst(pattern, l) == l[|pattern|..]
    ensures !OccursAt(pattern, l, 0) && l != "" ==> CutFirst(pattern, l) == [l[0]] + CutFirst(pattern, l[1..])
  {
    assert l[0..] == l;
  }

  /** The first occurrence of the pattern is cut out, wherever it is, and nothing else. */
  lemma {:induction false} CutFirstIs(pattern: string, l: string, n: nat)
    requires OccursAt(pattern, l, n) && forall k: nat :: k < n ==> !OccursAt(pattern, l, k)
    ensures n + |pattern| <= |l| && CutFirst(pattern, l) == l[..n] + l[n + |pattern|..]
    decreases n
  {
    CutHere(pattern, l);
    if n == 0 {
      assert l[..0] + l[|pattern|..] == l[|pattern|..];
    } else {
      var rest := l[1..];
      forall k: nat ensures OccursAt(pattern, rest, k) <==> OccursAt(pattern, l, k + 1) {
        OccursInTail(pattern, l, rest, k);
      }
      CutFirstIs(pattern, rest, n - 1);
      CutShift(l, rest, n, |pattern|);
    }
  }

  lemma CutShift(l: string, rest: string, n: nat, m: nat)
    requires l != "" && rest == l[1..] && 0 < n && n + m <= |l|
    ensures [l[0]] + (rest[..n - 1] + rest[n - 1 + m..]) == l[..n] + l[n + m..]
  {
  }

  lemma {:induction false} CutNone(pattern: string, l: string)
    requires forall k: nat :: !OccursAt(pattern, l, k)
    ensures CutFirst(pattern, l) == l
    decreases l
  {
    CutHere(pattern, l);
    if l == "" {
    } else {
      forall k: nat ensures !OccursAt(pattern, l[1..], k) {
        OccursInTail(pattern, l, l[1..], k);
      }
      CutNone(pattern, l[1..]);
    }
  }
}
