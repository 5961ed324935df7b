/** What the fstab edit does to an entry, in terms of its fields and of the words of the variable. */
module FstabLines {
  import opened Text
  import opened LineEdit
  import opened Fstab

  /** The first four fields of a line and the white space between them. */
  datatype Entry = Entry(device: string, gap1: string, mount: string, gap2: string, kind: string, gap3: string, options: string)

  ghost predicate IsField(f: string) {
    f != "" && NoBlank(f)
  }

  ghost predicate IsGap(b: string) {
    b != "" && forall k :: 0 <= k < |b| ==> Blank(b[k])
  }

  ghost predicate IsEntry(e: Entry) {
    && IsField(e.device) && IsField(e.mount) && IsField(e.kind) && IsField(e.options)
    && IsGap(e.gap1) && IsGap(e.gap2) && IsGap(e.gap3)
  }

  /** What may follow the options: nothing, or more fields. */
  ghost predicate IsRest(rest: string) {
    rest != "" ==> Blank(rest[0])
  }

  function Print(e: Entry): string {
    e.device + e.gap1 + e.mount + e.gap2 + e.kind + e.gap3 + e.options
  }

  /** Where the fields and gaps end. */
  function Ends(e: Entry): Groups {
    var e1 := |e.device|;
    var e2 := e1 + |e.gap1|;
    var e3 := e2 + |e.mount|;
    var e4 := e3 + |e.gap2|;
    var e5 := e4 + |e.kind|;
    var e6 := e5 + |e.gap3|;
    Groups(0, e1, e2, e3, e4, e5, e6, e6 + |e.options|)
  }

  /** White space is what separates the fields. */
  lemma BlankIff(c: char)
    ensures Blank(c) <==> c in " \t\n\U{0B}\U{0C}\r"
  {
    var blanks := " \t\n\U{0B}\U{0C}\r";
    assert blanks[0] == ' ' && blanks[1] == '\t' && blanks[2] == '\n';
    assert blanks[3] == 11 as char && blanks[4] == 12 as char && blanks[5] == '\r';
  }

  lemma PartsOf(e: Entry, rest: string, l: string)
    requires l == Print(e) + rest
    ensures var g := Ends(e);
      && g.e7 + |rest| == |l|
      && l[0..g.e1] == e.device && l[g.e1..g.e2] == e.gap1 && l[g.e2..g.e3] == e.mount && l[g.e3..g.e4] == e.gap2
      && l[g.e4..g.e5] == e.kind && l[g.e5..g.e6] == e.gap3 && l[g.e6..g.e7] == e.options && l[g.e7..] == rest
  {
  }

  lemma FieldEnds(l: string, i: nat, j: nat, f: string)
    requires i <= j <= |l| && l[i..j] == f && IsField(f) && (j < |l| ==> Blank(l[j]))
    ensures RunEnd(l, i, false) == j && !Blank(l[i])
  {
    forall k | i <= k < j ensures !Blank(l[k]) {
      assert l[k] == f[k - i];
    }
    RunEndUnique(l, i, false, j);
  }

  lemma GapEnds(l: string, i: nat, j: nat, b: string)
    requires i <= j < |l| && l[i..j] == b && IsGap(b) && !Blank(l[j])
    ensures RunEnd(l, i, true) == j && Blank(l[i])
    ensures forall k :: i <= k < j ==> Blank(l[k])
  {
    forall k | i <= k < j ensures Blank(l[k]) {
      assert l[k] == b[k - i];
    }
    RunEndUnique(l, i, true, j);
  }

  lemma FirstOf(l: string, i: nat, j: nat, f: string)
    requires i < j <= |l| && l[i..j] == f
    ensures l[i] == f[0]
  {
  }

  lemma GroupsAre(l: string, g: Groups)
    requires g.start <= g.e1 <= g.e2 <= g.e3 <= g.e4 <= g.e5 <= g.e6 <= |l|
    requires RunEnd(l, g.start, false) == g.e1 && RunEnd(l, g.e1, true) == g.e2
    requires RunEnd(l, g.e2, false) == g.e3 && RunEnd(l, g.e3, true) == g.e4
    requires RunEnd(l, g.e4, false) == g.e5 && RunEnd(l, g.e5, true) == g.e6
    requires RunEnd(l, g.e6, false) == g.e7
    ensures RunEnds(l, g.start) == g
  {
  }

  lemma StartsOf(e: Entry, rest: string, l: string)
    requires IsEntry(e) && IsRest(rest) && l == Print(e) + rest
    ensures var g := Ends(e);
      && !Blank(l[0]) && Blank(l[g.e1]) && !Blank(l[g.e2]) && Blank(l[g.e3]) && !Blank(l[g.e4]) && Blank(l[g.e5])
      && !Blank(l[g.e6]) && (g.e7 < |l| ==> Blank(l[g.e7]))
  {
    var g := Ends(e);
    PartsOf(e, rest, l);
    FirstOf(l, 0, g.e1, e.device);
    FirstOf(l, g.e1, g.e2, e.gap1);
    FirstOf(l, g.e2, g.e3, e.mount);
    FirstOf(l, g.e3, g.e4, e.gap2);
    FirstOf(l, g.e4, g.e5, e.kind);
    FirstOf(l, g.e5, g.e6, e.gap3);
    FirstOf(l, g.e6, g.e7, e.options);
    if g.e7 < |l| {
      FirstOf(l, g.e7, |l|, rest);
    }
  }

  /** The groups of the pattern from the start of the line are its fields and gaps. */
  lemma FieldsOf(e: Entry, rest: string, l: string)
    requires IsEntry(e) && IsRest(rest) && l == Print(e) + rest
    ensures RunEnds(l, 0) == Ends(e) && l[Ends(e).e2..Ends(e).e3] == e.mount
    ensures forall k :: Ends(e).e1 <= k < Ends(e).e2 ==> Blank(l[k])
  {
    var g := Ends(e);
    PartsOf(e, rest, l);
    StartsOf(e, rest, l);
    FieldEnds(l, 0, g.e1, e.device);
    GapEnds(l, g.e1, g.e2, e.gap1);
    FieldEnds(l, g.e2, g.e3, e.mount);
    GapEnds(l, g.e3, g.e4, e.gap2);
    FieldEnds(l, g.e4, g.e5, e.kind);
    GapEnds(l, g.e5, g.e6, e.gap3);
    FieldEnds(l, g.e6, g.e7, e.options);
    GroupsAre(l, g);
  }

  /** An entry whose second field is listed matches up to the end of its options. */
  lemma ListedMatch(e: Entry, rest: string, l: string, mounts: seq<string>)
    requires IsEntry(e) && IsRest(rest) && l == Print(e) + rest
    requires mounts != EMPTY && e.mount in mounts
    ensures MatchEnd(l, mounts) == Some(|Print(e)|)
  {
    FieldsOf(e, rest, l);
    assert GroupsMatch(l, mounts, Ends(e));
    assert FieldsMatch(l, mounts, 0);
    EndAtStart(l, mounts, 0, Ends(e).e7);
  }

  /** Four fields whose second one is not listed match nowhere. */
  lemma UnlistedMatch(e: Entry, l: string, mounts: seq<string>)
    requires IsEntry(e) && l == Print(e) && mounts != EMPTY && e.mount !in mounts
    ensures MatchEnd(l, mounts) == None
  {
    forall k: nat | k <= |l| ensures !FieldsMatch(l, mounts, k) {
      LaterStart(e, l, mounts, k);
    }
  }

  lemma LaterStart(e: Entry, l: string, mounts: seq<string>, k: nat)
    requires IsEntry(e) && l == Print(e) && mounts != EMPTY && e.mount !in mounts && k <= |l|
    ensures !FieldsMatch(l, mounts, k)
  {
    assert l == Print(e) + "";
    FieldsOf(e, "", l);
    var g := RunEnds(l, 0);
    if k < g.e1 {
      RunEndIs(l, 0, false);
      SameField(l, mounts, 0, k);
    } else if k < g.e2 {
      assert RunEnd(l, k, false) == k;
    } else {
      var h := RunEnds(l, g.e2);
      assert h.e1 == g.e3 && h.e2 == g.e4 && h.e3 == g.e5 && h.e4 == g.e6 && h.e5 == |l|;
      RunEndsMonotone(l, g.e2, k);
    }
  }

  ghost predicate OptionAt(l: string, k: nat) {
    k + 9 <= |l| && l[k..k + 9] == ",iversion"
  }

  ghost predicate HasOption(l: string) {
    exists k: nat :: OptionAt(l, k)
  }

  lemma NoOptionNoTag(l: string)
    requires !HasOption(l)
    ensures FirstTag(OPTION, l) == |l|
  {
    assert |OPTION| == 9;
    assert FirstTag(OPTION, l) < |l| ==> OptionAt(l, FirstTag(OPTION, l));
  }

  lemma OptionHasComma(l: string)
    ensures HasOption(l) ==> ',' in l
  {
    if k: nat :| OptionAt(l, k) {
      assert l[k] == l[k..k + 9][0] == ',';
    }
  }

  /** The edit of a listed entry: the option comes right behind its options. */
  lemma ListedEntryGains(e: Entry, rest: string, l: string, mounts: seq<string>)
    requires IsEntry(e) && IsRest(rest) && l == Print(e) + rest && !HasOption(l)
    requires mounts != EMPTY && e.mount in mounts
    ensures Pass(l, mounts) == Print(e) + ",iversion" + rest
  {
    ListedMatch(e, rest, l, mounts);
    NoOptionNoTag(l);
    PassContent(l, mounts, |Print(e)|, |Print(e)|);
    assert l[..|Print(e)|] == Print(e) && l[|Print(e)|..] == rest;
  }

  /** An entry that is not listed is kept. */
  lemma UnlistedEntryKept(e: Entry, l: string, mounts: seq<string>)
    requires IsEntry(e) && l == Print(e) && !HasOption(l)
    requires mounts != EMPTY && e.mount !in mounts
    ensures Pass(l, mounts) == l
  {
    UnlistedMatch(e, l, mounts);
    NoOptionNoTag(l);
  }

  // ---------- the variable ----------

  /** Every word of the variable is an alternative, and nothing else, in the order of the list. */
  lemma ListedWords(words: seq<string>)
    requires words != [] && forall w :: w in words ==> w != "" && NoSpace(w)
    ensures MountPoints(Join(" ", words)) == words
  {
    WordsOfJoined(words);
    assert Words("") == [];
  }

  lemma MountPointIff(variable: string, w: string)
    requires Words(variable) != []
    ensures w in MountPoints(variable) <==> HasWord(variable, w)
    ensures MountPoints(variable) != EMPTY
  {
    WordsIff(variable, w);
    WordsAreMountPoints(variable);
    assert Words(variable)[0] in Words(variable);
    assert EMPTY[0] == "";
  }

  /** Without words the list is that of an unset variable, or the empty alternative. */
  lemma NoWords(variable: string)
    ensures MountPoints("") == ["no-such-mount-point"]
    ensures variable != "" && AllSpace(variable) ==> MountPoints(variable) == [""]
  {
    if AllSpace(variable) {
      WordsIgnoreTail("", variable);
      assert "" + variable == variable;
    }
  }

  /** A file with an entry whose mount point is a word of the variable, at any place of the list. */
  lemma EditListed(variable: string, before: seq<string>, e: Entry, rest: string, after: seq<string>)
    requires HasWord(variable, e.mount) && IsEntry(e) && IsRest(rest) && !HasOption(Print(e) + rest)
    requires AreLines(before + [Print(e) + rest] + after)
    ensures var script := PassOf(MountPoints(variable));
      EditText(script, Concat(before + [Print(e) + rest] + after)) ==
      Concat(EditLines(script, before) + [Print(e) + ",iversion" + rest] + EditLines(script, after))
  {
    WordsIff(variable, e.mount);
    MountPointIff(variable, e.mount);
    ListedEntryGains(e, rest, Print(e) + rest, MountPoints(variable));
    EditTextOfLines(PassOf(MountPoints(variable)), before, Print(e) + rest, after);
  }

  /** Fields may be separated by tabs, and the mount point may be any of the listed ones. */
  lemma HomeGains(variable: string, e: Entry, l: string)
    requires variable == "/ /home" && e == Entry("/dev/sda2", "\t", "/home", "\t", "ext4", "\t", "defaults")
    requires l == Print(e) + "\t0\t2\n"
    ensures Pass(l, MountPoints(variable)) == Print(e) + ",iversion" + "\t0\t2\n"
  {
    var words := ["/", "/home"];
    TwoWords(variable, words);
    HomeFields(e);
    NoCommaIn(e, "\t0\t2\n");
    OptionHasComma(l);
    NotEmptyList(words);
    assert e.mount == words[1];
    ListedEntryGains(e, "\t0\t2\n", l, words);
  }

  lemma NoCommaIn(e: Entry, rest: string)
    requires ',' !in e.device && ',' !in e.gap1 && ',' !in e.mount && ',' !in e.gap2 && ',' !in e.kind
    requires ',' !in e.gap3 && ',' !in e.options && ',' !in rest
    ensures ',' !in Print(e) + rest
  {
  }

  lemma TwoWords(variable: string, words: seq<string>)
    requires variable == "/ /home" && words == ["/", "/home"]
    ensures MountPoints(variable) == words
  {
    assert Join(" ", words[1..]) == "/home";
    assert Join(" ", words) == "/ /home";
    ListedWords(words);
  }

  lemma NotEmptyList(words: seq<string>)
    requires |words| >= 2
    ensures words != EMPTY
  {
  }

  lemma HomeFields(e: Entry)
    requires e == Entry("/dev/sda2", "\t", "/home", "\t", "ext4", "\t", "defaults")
    ensures IsEntry(e)
    ensures ',' !in e.device && ',' !in e.mount && ',' !in e.kind && ',' !in e.options
  {
    assert IsField("/dev/sda2") && ',' !in "/dev/sda2";
    assert IsField("/home") && ',' !in "/home";
    assert IsField("ext4") && ',' !in "ext4";
    assert IsField("defaults") && ',' !in "defaults";
    assert IsGap("\t");
  }
}
