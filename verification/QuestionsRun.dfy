/** A whole run over a directory of question files: read a config, edit one file per pair. */
module QuestionsRun {
  import opened Text
  import opened Questions

  /** Path to content. */
  type Files = map<string, string>

  datatype Edit = Edit(path: string, ident: string)

  datatype Outcome = Outcome(files: Files, error: Option<Error>)

  // ---------- the edits of one file, in one pass ----------

  function EditLine(line: string, distro: string): string {
    if CheckContains(line, distro) == Ok(false) then Appended(line, distro) else line
  }

  function TargetsOf(lines: seq<string>, labels: set<string>): set<nat> {
    set ident | ident in labels && Target(lines, ident).Some? :: Target(lines, ident).value
  }

  /** The reference: look at the original lines only, and edit each targeted line once. */
  function OnePass(lines: seq<string>, labels: set<string>, distro: string): seq<string> {
    var targets := TargetsOf(lines, labels);
    seq(|lines|, k requires 0 <= k < |lines| => if k in targets then EditLine(lines[k], distro) else lines[k])
  }

  /** Same lines, except for the value fields of REQUIRE_DISTRO lines. */
  ghost predicate SameShape(a: seq<string>, b: seq<string>) {
    |a| == |b| && forall k :: 0 <= k < |a| ==> a[k] == b[k] || (IsRequire(a[k]) && IsRequire(b[k]))
  }

  lemma ShapeKeepsLine(a: seq<string>, b: seq<string>, ident: string, k: nat)
    requires SameShape(a, b) && k < |a|
    ensures IsRequire(a[k]) <==> IsRequire(b[k])
    ensures Matches(a[k], ident) <==> Matches(b[k], ident)
    ensures BadLabel(a[k]) <==> BadLabel(b[k])
  {
    if a[k] != b[k] {
      RequireIsNoLabel(a[k]);
      RequireIsNoLabel(b[k]);
    }
  }

  lemma ShapeKeepsMatch(a: seq<string>, b: seq<string>, ident: string)
    requires SameShape(a, b)
    ensures NextMatch(a, ident) == NextMatch(b, ident)
    ensures BadBefore(a, ident) <==> BadBefore(b, ident)
  {
    forall k: nat | k < |a|
      ensures Matches(a[k], ident) <==> Matches(b[k], ident)
      ensures BadLabel(a[k]) <==> BadLabel(b[k])
    {
      ShapeKeepsLine(a, b, ident, k);
    }
  }

  lemma ShapeKeepsTarget(a: seq<string>, b: seq<string>, ident: string)
    requires SameShape(a, b)
    ensures Target(a, ident) == Target(b, ident)
  {
    ShapeKeepsMatch(a, b, ident);
    var i := NextMatch(a, ident);
    if i < |a| {
      forall k: nat | k < |a| ensures IsRequire(a[k]) <==> IsRequire(b[k]) {
        ShapeKeepsLine(a, b, ident, k);
      }
      assert NextRequire(a, i + 1) == NextRequire(b, i + 1);
    }
  }

  lemma EditLineMeaning(line: string, distro: string)
    requires IsName(distro)
    ensures EditLine(EditLine(line, distro), distro) == EditLine(line, distro)
    ensures OneColon(EditLine(line, distro)) <==> OneColon(line)
    ensures IsRequire(line) ==> IsRequire(EditLine(line, distro))
  {
    if CheckContains(line, distro) == Ok(false) {
      AppendedMeaning(line, distro);
    }
  }

  lemma OnePassShape(lines: seq<string>, labels: set<string>, distro: string)
    requires IsName(distro)
    ensures SameShape(lines, OnePass(lines, labels, distro))
  {
    var targets := TargetsOf(lines, labels);
    forall k | 0 <= k < |lines| && k in targets
      ensures IsRequire(lines[k]) && IsRequire(EditLine(lines[k], distro))
    {
      EditLineMeaning(lines[k], distro);
    }
  }

  /** An edit never changes which line any label targets. */
  lemma OnePassKeepsTargets(lines: seq<string>, labels: set<string>, distro: string, more: set<string>)
    requires IsName(distro)
    ensures TargetsOf(OnePass(lines, labels, distro), more) == TargetsOf(lines, more)
  {
    OnePassShape(lines, labels, distro);
    forall ident | ident in more
      ensures Target(OnePass(lines, labels, distro), ident) == Target(lines, ident)
    {
      ShapeKeepsTarget(lines, OnePass(lines, labels, distro), ident);
    }
  }

  /** Passes add up: two of them are one pass for both sets of labels. */
  lemma OnePassAgain(lines: seq<string>, labels: set<string>, more: set<string>, distro: string)
    requires IsName(distro)
    ensures OnePass(OnePass(lines, labels, distro), more, distro) == OnePass(lines, labels + more, distro)
  {
    var once := OnePass(lines, labels, distro);
    OnePassKeepsTargets(lines, labels, distro, more);
    assert TargetsOf(lines, labels + more) == TargetsOf(lines, labels) + TargetsOf(lines, more);
    forall k | 0 <= k < |lines|
      ensures OnePass(once, more, distro)[k] == OnePass(lines, labels + more, distro)[k]
    {
      EditLineMeaning(lines[k], distro);
    }
  }

  lemma EditedIsOnePass(lines: seq<string>, ident: string, distro: string)
    requires Edited(lines, ident, distro).Ok?
    ensures Edited(lines, ident, distro).value == OnePass(lines, {ident}, distro)
  {
    var targets := TargetsOf(lines, {ident});
    match Target(lines, ident)
    case None =>
      assert targets == {};
      assert OnePass(lines, {ident}, distro) == lines;
    case Some(j) =>
      assert targets == {j} by {
        assert ident in {ident};
      }
      assert OnePass(lines, {ident}, distro) == lines[j := EditLine(lines[j], distro)];
  }

  lemma OnePassKeepsErrors(lines: seq<string>, labels: set<string>, distro: string, ident: string)
    requires IsName(distro)
    ensures var before, after := Edited(lines, ident, distro), Edited(OnePass(lines, labels, distro), ident, distro);
      && (before.Ok? <==> after.Ok?)
      && (before.Err? ==> before == after)
  {
    var once := OnePass(lines, labels, distro);
    OnePassShape(lines, labels, distro);
    ShapeKeepsMatch(lines, once, ident);
    ShapeKeepsTarget(lines, once, ident);
    var t := Target(lines, ident);
    if t.Some? {
      EditLineMeaning(lines[t.value], distro);
      assert OneColon(once[t.value]) <==> OneColon(lines[t.value]);
    }
  }

  // ---------- edits of one file ----------

  lemma EditTwice(lines: seq<string>, ident: string, distro: string)
    requires IsName(distro) && Edited(lines, ident, distro).Ok?
    ensures var once := Edited(lines, ident, distro).value;
      Edited(once, ident, distro) == Ok(once)
  {
    EditedIsOnePass(lines, ident, distro);
    OnePassKeepsErrors(lines, {ident}, distro, ident);
    var once := OnePass(lines, {ident}, distro);
    EditedIsOnePass(once, ident, distro);
    OnePassAgain(lines, {ident}, {ident}, distro);
    assert {ident} + {ident} == {ident};
  }

  lemma EditsCommute(lines: seq<string>, a: string, b: string, distro: string)
    requires IsName(distro)
    requires Edited(lines, a, distro).Ok? && Edited(lines, b, distro).Ok?
    ensures var x, y := Edited(lines, a, distro).value, Edited(lines, b, distro).value;
      Edited(x, b, distro).Ok? && Edited(x, b, distro) == Edited(y, a, distro)
  {
    var x, y := OnePass(lines, {a}, distro), OnePass(lines, {b}, distro);
    EditedIsOnePass(lines, a, distro);
    EditedIsOnePass(lines, b, distro);
    OnePassKeepsErrors(lines, {a}, distro, b);
    OnePassKeepsErrors(lines, {b}, distro, a);
    EditedIsOnePass(x, b, distro);
    EditedIsOnePass(y, a, distro);
    OnePassAgain(lines, {a}, {b}, distro);
    OnePassAgain(lines, {b}, {a}, distro);
    assert {a} + {b} == {b} + {a};
  }

  // ---------- edits of texts ----------

  /** A file no edit names is not touched; any other is written back whole. */
  function Written(text: string, labels: set<string>, distro: string): string {
    if labels == {} then text else Concat(OnePass(ReadLines(text), labels, distro))
  }

  lemma AppendedIsLine(line: string, distro: string)
    requires IsLine(line) && '\r' !in line && IsName(distro)
    ensures IsLine(Appended(line, distro)) && '\r' !in Appended(line, distro)
    ensures Appended(line, distro)[|Appended(line, distro)| - 1] == '\n'
  {
    RstripSplits(line);
    var stripped := Rstrip(line);
    forall k | 0 <= k < |stripped|
      ensures stripped[k] != '\n' && stripped[k] != '\r'
    {
      assert stripped[k] == line[k];
      if k < |line| - 1 {
        assert line[..|line| - 1][k] == line[k];
      }
    }
    assert Appended(line, distro)[..|Appended(line, distro)| - 1] == stripped + " " + distro;
    assert forall c :: c in distro ==> c != '\n' && c != '\r';
  }

  lemma EditedLineIsLine(line: string, distro: string)
    requires IsLine(line) && '\r' !in line && IsName(distro)
    ensures var l := EditLine(line, distro);
      IsLine(l) && '\r' !in l && (l == line || l[|l| - 1] == '\n')
  {
    if CheckContains(line, distro) == Ok(false) {
      AppendedIsLine(line, distro);
    }
  }

  lemma OnePassAreLines(lines: seq<string>, once: seq<string>, labels: set<string>, distro: string)
    requires IsName(distro) && once == OnePass(lines, labels, distro)
    requires AreLines(lines) && forall k :: 0 <= k < |lines| ==> '\r' !in lines[k]
    ensures AreLines(once) && forall k :: 0 <= k < |once| ==> '\r' !in once[k]
  {
    forall k | 0 <= k < |once|
      ensures IsLine(once[k]) && '\r' !in once[k] && (k < |once| - 1 ==> once[k][|once[k]| - 1] == '\n')
    {
      EditedLineIsLine(lines[k], distro);
      assert once[k] == lines[k] || once[k] == EditLine(lines[k], distro);
    }
  }

  /** The edited lines are read back as they were written. */
  lemma OnePassIsRead(text: string, labels: set<string>, distro: string)
    requires IsName(distro)
    ensures ReadLines(Concat(OnePass(ReadLines(text), labels, distro))) == OnePass(ReadLines(text), labels, distro)
  {
    var lines := ReadLines(text);
    var once := OnePass(lines, labels, distro);
    ReadLinesAreLines(text);
    OnePassAreLines(lines, once, labels, distro);
    ReadWritten(once);
  }

  lemma WrittenAgain(text: string, labels: set<string>, more: set<string>, distro: string)
    requires IsName(distro)
    ensures Written(Written(text, labels, distro), more, distro) == Written(text, labels + more, distro)
  {
    if labels == {} {
      assert labels + more == more;
    } else if more == {} {
      assert labels + more == labels;
    } else {
      OnePassIsRead(text, labels, distro);
      OnePassAgain(ReadLines(text), labels, more, distro);
    }
  }

  // ---------- a run of edits ----------

  /** Why an edit fails, if it does. */
  function Refused(files: Files, edit: Edit, distro: string): Option<Error> {
    if edit.path !in files then Some(FileNotFound)
    else match Edited(ReadLines(files[edit.path]), edit.ident, distro)
      case Err(e) => Some(e)
      case Ok(_) => None
  }

  /** A missing file, and the first malformed line that the edit looks at, are what it refuses. */
  lemma RefusedIff(files: Files, edit: Edit, distro: string)
    ensures Refused(files, edit, distro) == Some(FileNotFound) <==> edit.path !in files
    ensures edit.path in files ==>
      var lines := ReadLines(files[edit.path]);
      && (Refused(files, edit, distro) == Some(BadLabelLine) <==> !LabelsReadable(lines, edit.ident))
      && (Refused(files, edit, distro) == Some(BadRequireLine) <==>
            LabelsReadable(lines, edit.ident) && !TargetReadable(lines, edit.ident))
      && (Refused(files, edit, distro) == None <==>
            LabelsReadable(lines, edit.ident) && TargetReadable(lines, edit.ident))
  {
    if edit.path in files {
      EditedErrors(ReadLines(files[edit.path]), edit.ident, distro);
      EditedSucceedsIff(ReadLines(files[edit.path]), edit.ident, distro);
    }
  }

  function ApplyEdit(files: Files, edit: Edit, distro: string): Files
    requires Refused(files, edit, distro) == None
  {
    files[edit.path := Concat(Edited(ReadLines(files[edit.path]), edit.ident, distro).value)]
  }

  /** One edit after the other, up to the first that fails. */
  function RunEdits(files: Files, edits: seq<Edit>, distro: string): Outcome {
    if edits == [] then Outcome(files, None)
    else match Refused(files, edits[0], distro)
      case Some(e) => Outcome(files, Some(e))
      case None => RunEdits(ApplyEdit(files, edits[0], distro), edits[1..], distro)
  }

  function LabelsFor(edits: seq<Edit>, path: string): set<string> {
    set edit | edit in edits && edit.path == path :: edit.ident
  }

  function WrittenFiles(files: Files, edits: seq<Edit>, distro: string): Files {
    map path | path in files :: Written(files[path], LabelsFor(edits, path), distro)
  }

  /** The first edit that the files as they are at the start refuse. */
  function FirstRefused(files: Files, edits: seq<Edit>, distro: string): (n: nat)
    ensures n <= |edits|
    ensures forall k :: 0 <= k < n ==> Refused(files, edits[k], distro) == None
    ensures n < |edits| ==> Refused(files, edits[n], distro).Some?
  {
    if edits == [] || Refused(files, edits[0], distro).Some? then 0
    else 1 + FirstRefused(files, edits[1..], distro)
  }

  lemma ApplyIsWritten(files: Files, edit: Edit, distro: string)
    requires Refused(files, edit, distro) == None
    ensures ApplyEdit(files, edit, distro) == WrittenFiles(files, [edit], distro)
  {
    EditedIsOnePass(ReadLines(files[edit.path]), edit.ident, distro);
    forall path | path in files
      ensures LabelsFor([edit], path) == if path == edit.path then {edit.ident} else {}
    {
      assert edit in [edit];
    }
  }

  lemma WrittenFilesAgain(files: Files, edits: seq<Edit>, more: seq<Edit>, distro: string)
    requires IsName(distro)
    ensures WrittenFiles(WrittenFiles(files, edits, distro), more, distro) == WrittenFiles(files, edits + more, distro)
  {
    forall path | path in files
      ensures Written(Written(files[path], LabelsFor(edits, path), distro), LabelsFor(more, path), distro)
           == Written(files[path], LabelsFor(edits + more, path), distro)
    {
      WrittenAgain(files[path], LabelsFor(edits, path), LabelsFor(more, path), distro);
      assert LabelsFor(edits + more, path) == LabelsFor(edits, path) + LabelsFor(more, path);
    }
  }

  lemma WrittenSplit(files: Files, edits: seq<Edit>, n: nat, distro: string)
    requires IsName(distro) && 1 <= n <= |edits|
    ensures WrittenFiles(WrittenFiles(files, [edits[0]], distro), edits[1..][..n - 1], distro)
         == WrittenFiles(files, edits[..n], distro)
  {
    WrittenFilesAgain(files, [edits[0]], edits[1..][..n - 1], distro);
    assert edits[..n] == [edits[0]] + edits[1..][..n - 1];
  }

  /** No earlier edit makes a later one fail or succeed. */
  lemma WrittenKeepsRefusals(files: Files, edits: seq<Edit>, edit: Edit, distro: string)
    requires IsName(distro)
    ensures Refused(WrittenFiles(files, edits, distro), edit, distro) == Refused(files, edit, distro)
  {
    if edit.path in files {
      var text, labels := files[edit.path], LabelsFor(edits, edit.path);
      if labels != {} {
        OnePassIsRead(text, labels, distro);
        OnePassKeepsErrors(ReadLines(text), labels, distro, edit.ident);
      }
    }
  }

  lemma {:induction false} FirstRefusedKept(files: Files, edit: Edit, edits: seq<Edit>, distro: string)
    requires IsName(distro)
    ensures FirstRefused(WrittenFiles(files, [edit], distro), edits, distro) == FirstRefused(files, edits, distro)
  {
    if edits == [] {
    } else {
      WrittenKeepsRefusals(files, [edit], edits[0], distro);
      FirstRefusedKept(files, edit, edits[1..], distro);
    }
  }

  /** A run is one pass over the files it started from, for the edits before the first one
      that those files refuse; and it ends with that edit's error. */
  lemma {:induction false} RunIsOnePass(files: Files, edits: seq<Edit>, distro: string)
    requires IsName(distro)
    ensures var n := FirstRefused(files, edits, distro);
      RunEdits(files, edits, distro) ==
      Outcome(WrittenFiles(files, edits[..n], distro),
              if n == |edits| then None else Refused(files, edits[n], distro))
    decreases |edits|
  {
    var n := FirstRefused(files, edits, distro);
    if n == 0 {
      NothingWritten(files, distro);
    } else {
      var next := ApplyEdit(files, edits[0], distro);
      ApplyIsWritten(files, edits[0], distro);
      RunIsOnePass(next, edits[1..], distro);
      FirstRefusedKept(files, edits[0], edits[1..], distro);
      WrittenSplit(files, edits, n, distro);
      if n < |edits| {
        WrittenKeepsRefusals(files, [edits[0]], edits[n], distro);
        assert edits[1..][n - 1] == edits[n];
      }
    }
  }

  lemma NothingWritten(files: Files, distro: string)
    ensures WrittenFiles(files, [], distro) == files
  {
  }

  lemma SameLabels(files: Files, edits: seq<Edit>, others: seq<Edit>, distro: string)
    requires forall edit :: edit in edits <==> edit in others
    ensures WrittenFiles(files, edits, distro) == WrittenFiles(files, others, distro)
  {
    forall path ensures LabelsFor(edits, path) == LabelsFor(others, path) {}
  }

  lemma SuccessIsWritten(files: Files, edits: seq<Edit>, distro: string)
    requires IsName(distro)
    ensures var r := RunEdits(files, edits, distro);
      r.error == None ==> r.files == WrittenFiles(files, edits, distro)
  {
    RunIsOnePass(files, edits, distro);
    assert edits[..|edits|] == edits;
  }

  /** Order and repetition of the edits do not matter, neither for success nor for the files. */
  lemma OrderIsIrrelevant(files: Files, edits: seq<Edit>, others: seq<Edit>, distro: string)
    requires IsName(distro)
    requires forall edit :: edit in edits <==> edit in others
    ensures var a, b := RunEdits(files, edits, distro), RunEdits(files, others, distro);
      && (a.error == None <==> b.error == None)
      && (a.error == None ==> a.files == b.files)
  {
    RunSucceedsIff(files, edits, distro);
    RunSucceedsIff(files, others, distro);
    SuccessIsWritten(files, edits, distro);
    SuccessIsWritten(files, others, distro);
    SameLabels(files, edits, others, distro);
  }

  /** A run that fails has made exactly the edits before the failing one, for any distribution. */
  lemma {:induction false} RunStopsAt(files: Files, edits: seq<Edit>, distro: string) returns (n: nat)
    requires RunEdits(files, edits, distro).error != None
    ensures n < |edits|
    ensures var r := RunEdits(files, edits, distro);
      && RunEdits(files, edits[..n], distro) == Outcome(r.files, None)
      && Refused(r.files, edits[n], distro) == r.error
  {
    if Refused(files, edits[0], distro).Some? {
      n := 0;
    } else {
      var m := RunStopsAt(ApplyEdit(files, edits[0], distro), edits[1..], distro);
      n := m + 1;
      assert edits[..n][1..] == edits[1..][..m];
    }
  }

  /** A run succeeds when every single edit would succeed on the files it starts from. */
  lemma RunSucceedsIff(files: Files, edits: seq<Edit>, distro: string)
    requires IsName(distro)
    ensures RunEdits(files, edits, distro).error == None <==>
            forall edit :: edit in edits ==> Refused(files, edit, distro) == None
  {
    RunIsOnePass(files, edits, distro);
    var n := FirstRefused(files, edits, distro);
    assert n < |edits| ==> edits[n] in edits;
  }

  lemma SecondRunSucceeds(files: Files, once: Files, edits: seq<Edit>, distro: string)
    requires IsName(distro) && RunEdits(files, edits, distro).error == None
    requires once == WrittenFiles(files, edits, distro)
    ensures RunEdits(once, edits, distro).error == None
  {
    RunSucceedsIff(files, edits, distro);
    forall edit | edit in edits ensures Refused(once, edit, distro) == None {
      WrittenKeepsRefusals(files, edits, edit, distro);
    }
    RunSucceedsIff(once, edits, distro);
  }

  /** Running again changes nothing. */
  lemma RunTwice(files: Files, edits: seq<Edit>, distro: string)
    requires IsName(distro) && RunEdits(files, edits, distro).error == None
    ensures RunEdits(RunEdits(files, edits, distro).files, edits, distro) == RunEdits(files, edits, distro)
  {
    var once := WrittenFiles(files, edits, distro);
    SuccessIsWritten(files, edits, distro);
    SecondRunSucceeds(files, once, edits, distro);
    SuccessIsWritten(once, edits, distro);
    WrittenFilesAgain(files, edits, edits, distro);
    SameLabels(files, edits + edits, edits, distro);
  }

  lemma TargetsOfIff(lines: seq<string>, edits: seq<Edit>, path: string, j: nat)
    ensures j in TargetsOf(lines, LabelsFor(edits, path)) <==>
            exists edit :: edit in edits && edit.path == path && Targets(lines, edit.ident, j)
  {
    forall ident ensures Target(lines, ident) == Some(j) <==> Targets(lines, ident, j) {
      TargetIsTargets(lines, ident, j);
    }
    if j in TargetsOf(lines, LabelsFor(edits, path)) {
      var ident :| ident in LabelsFor(edits, path) && Target(lines, ident) == Some(j);
      var edit :| edit in edits && edit.path == path && edit.ident == ident;
      assert Targets(lines, edit.ident, j);
    }
  }

  /** The lines that a successful run leaves in any file. */
  lemma FinalIsOnePass(files: Files, edits: seq<Edit>, distro: string, path: string)
    requires IsName(distro) && RunEdits(files, edits, distro).error == None && path in files
    ensures var after := RunEdits(files, edits, distro).files; var lines := ReadLines(files[path]);
      && after.Keys == files.Keys
      && ((forall edit :: edit in edits ==> edit.path != path) ==> after[path] == files[path])
      && ReadLines(after[path]) == OnePass(lines, LabelsFor(edits, path), distro)
  {
    SuccessIsWritten(files, edits, distro);
    var lines, labels := ReadLines(files[path]), LabelsFor(edits, path);
    OnePassIsRead(files[path], labels, distro);
    assert labels == {} ==> OnePass(lines, labels, distro) == lines;
  }

  /** What a successful run leaves, line by line: a line gains the distribution exactly when it
      lacks it and some edit of its file targets it. */
  lemma FinalLines(files: Files, edits: seq<Edit>, distro: string, path: string, j: nat)
    requires IsName(distro) && RunEdits(files, edits, distro).error == None
    requires path in files && j < |ReadLines(files[path])|
    ensures var after := RunEdits(files, edits, distro).files; var lines := ReadLines(files[path]);
      && path in after && |ReadLines(after[path])| == |lines|
      && ReadLines(after[path])[j] ==
         if CheckContains(lines[j], distro) == Ok(false)
            && exists edit :: edit in edits && edit.path == path && Targets(lines, edit.ident, j)
         then Appended(lines[j], distro) else lines[j]
  {
    FinalIsOnePass(files, edits, distro, path);
    TargetsOfIff(ReadLines(files[path]), edits, path, j);
  }

  // ---------- the config ----------

  datatype Pair = Pair(fname: string, ident: string)

  /** The pairs a config yields, and whether a malformed line then stops it. */
  datatype Config = Config(pairs: seq<Pair>, malformed: bool)

  predicate IsComment(l: string) {
    "#" <= l
  }

  function ParsePair(l: string): Result<Pair> {
    var parts := SplitOn(l, '=');
    if |parts| != 2 then Err(BadConfigLine) else
      var coord := SplitOn(parts[0], '.');
      if |coord| != 2 then Err(BadConfigLine) else Ok(Pair(coord[0], coord[1]))
  }

  ghost predicate IsPairLine(l: string, fname: string, ident: string, value: string) {
    && l == fname + ['.'] + ident + ['='] + value
    && '=' !in fname && '.' !in fname && '=' !in ident && '.' !in ident && '=' !in value
  }

  /** A line gives a pair exactly when it is `fname.ident=value` with no other dot before the
      equals sign and no other equals sign. */
  lemma ParsePairIff(l: string, fname: string, ident: string)
    ensures ParsePair(l) == Ok(Pair(fname, ident)) <==> exists value :: IsPairLine(l, fname, ident, value)
  {
    if ParsePair(l) == Ok(Pair(fname, ident)) {
      SplitOnPair(l, '=');
      SplitOnPair(SplitOn(l, '=')[0], '.');
      assert IsPairLine(l, fname, ident, SplitOn(l, '=')[1]);
    }
    if value :| IsPairLine(l, fname, ident, value) {
      SplitOnJoined(fname + ['.'] + ident, '=', value);
      SplitOnJoined(fname, '.', ident);
    }
  }

  function GetConfig(lines: seq<string>): Config {
    if lines == [] then Config([], false)
    else if IsComment(lines[0]) then GetConfig(lines[1..])
    else match ParsePair(lines[0])
      case Err(_) => Config([], true)
      case Ok(pair) =>
        var rest := GetConfig(lines[1..]);
        rest.(pairs := [pair] + rest.pairs)
  }

  /** What a line makes of the config behind it. */
  ghost function Extended(l: string, rest: Config): Config {
    if IsComment(l) then rest
    else match ParsePair(l)
      case Err(_) => Config([], true)
      case Ok(pair) => Config([pair] + rest.pairs, rest.malformed)
  }

  ghost function Sum(c: Config, d: Config): Config {
    Config(c.pairs + d.pairs, d.malformed)
  }

  lemma ConfigStep(l: string, rest: seq<string>)
    ensures GetConfig([l] + rest) == Extended(l, GetConfig(rest))
  {
    assert ([l] + rest)[1..] == rest;
  }

  lemma ExtendedSum(l: string, c: Config, d: Config)
    requires !Extended(l, c).malformed
    ensures Extended(l, Sum(c, d)) == Sum(Extended(l, c), d) && !c.malformed
  {
    if !IsComment(l) {
      var first := [ParsePair(l).value];
      assert first + (c.pairs + d.pairs) == first + c.pairs + d.pairs;
    }
  }

  /** The pairs of a config come line after line. */
  lemma {:induction false} ConfigAppend(lines: seq<string>, more: seq<string>)
    requires !GetConfig(lines).malformed
    ensures GetConfig(lines + more) == Sum(GetConfig(lines), GetConfig(more))
  {
    if lines == [] {
      assert lines + more == more;
    } else {
      var l, rest := lines[0], lines[1..];
      ConfigStep(l, rest);
      ConfigStep(l, rest + more);
      assert [l] + rest == lines && [l] + (rest + more) == lines + more;
      ExtendedSum(l, GetConfig(rest), GetConfig(more));
      ConfigAppend(rest, more);
    }
  }

  /** One resumption of the generator: skip comments, then yield a pair, stop, or raise. */
  method NextPair(lines: LineIterator) returns (r: Result<Option<Pair>>)
    requires lines.Valid()
    modifies lines`pos
    ensures lines.Valid()
    ensures var c := GetConfig(old(lines.Rest()));
      if c.pairs == [] then r == if c.malformed then Err(BadConfigLine) else Ok(None)
      else r == Ok(Some(c.pairs[0])) && GetConfig(lines.Rest()) == Config(c.pairs[1..], c.malformed)
    ensures r.Ok? && r.value.Some? ==> old(lines.pos) < lines.pos
  {
    ghost var c := GetConfig(lines.Rest());
    while true
      invariant lines.Valid() && GetConfig(lines.Rest()) == c && old(lines.pos) <= lines.pos
      decreases |lines.lines| - lines.pos
    {
      ghost var rest := lines.Rest();
      var l := lines.Next();
      if l.None? { break; }
      assert l.value == rest[0] && lines.Rest() == rest[1..];
      if !IsComment(l.value) {
        var pair := ParsePair(l.value);
        match pair
        case Err(e) => return Err(e);
        case Ok(p) => return Ok(Some(p));
      }
    }
    r := Ok(None);
  }

  /** `os.path.join`. */
  function PathJoin(dir: string, name: string): string {
    if "/" <= name then name
    else if dir == "" || dir[|dir| - 1] == '/' then dir + name
    else dir + "/" + name
  }

  function EditOf(pair: Pair, dir: string): Edit {
    Edit(PathJoin(dir, pair.fname + ".txt"), pair.ident)
  }

  /** The three ways of joining, written out: the file is in the directory, unless its name is a
      path of its own. */
  lemma EditedPath(fname: string, ident: string, dir: string)
    ensures !("/" <= fname) && dir != "" && dir[|dir| - 1] != '/' ==>
      EditOf(Pair(fname, ident), dir) == Edit(dir + "/" + fname + ".txt", ident)
    ensures !("/" <= fname) && (dir == "" || dir[|dir| - 1] == '/') ==>
      EditOf(Pair(fname, ident), dir) == Edit(dir + fname + ".txt", ident)
    ensures "/" <= fname ==> EditOf(Pair(fname, ident), dir) == Edit(fname + ".txt", ident)
  {
    var name := fname + ".txt";
    if fname == "" {
      assert name[0] == '.';
    } else {
      assert name[0] == fname[0];
    }
    assert dir + "/" + name == dir + "/" + fname + ".txt";
    assert dir + name == dir + fname + ".txt";
  }

  function EditsOf(pairs: seq<Pair>, dir: string): seq<Edit> {
    seq(|pairs|, k requires 0 <= k < |pairs| => EditOf(pairs[k], dir))
  }

  /** The edits of the pairs before the first malformed line; that line's error comes last. */
  function RunConfig(files: Files, lines: seq<string>, dir: string, distro: string): Outcome {
    var c := GetConfig(lines);
    var r := RunEdits(files, EditsOf(c.pairs, dir), distro);
    if r.error == None && c.malformed then r.(error := Some(BadConfigLine)) else r
  }

  /** What a run does with the next pair. */
  lemma RunConfigStep(files: Files, lines: seq<string>, rest: seq<string>, dir: string, distro: string)
    requires var c := GetConfig(lines); c.pairs != [] && GetConfig(rest) == Config(c.pairs[1..], c.malformed)
    ensures var edit := EditOf(GetConfig(lines).pairs[0], dir);
      RunConfig(files, lines, dir, distro) ==
      match Refused(files, edit, distro)
      case Some(e) => Outcome(files, Some(e))
      case None => RunConfig(ApplyEdit(files, edit, distro), rest, dir, distro)
  {
    var pairs := GetConfig(lines).pairs;
    assert EditsOf(pairs, dir)[1..] == EditsOf(pairs[1..], dir);
  }

  /** And without one: it ends. */
  lemma RunConfigEnds(files: Files, lines: seq<string>, dir: string, distro: string)
    requires GetConfig(lines).pairs == []
    ensures RunConfig(files, lines, dir, distro) ==
            Outcome(files, if GetConfig(lines).malformed then Some(BadConfigLine) else None)
  {
  }

  lemma {:induction false} ConfigUpTo(before: seq<string>, bad: string, after: seq<string>)
    requires !GetConfig(before).malformed && !Readable(bad)
    ensures GetConfig(before + [bad] + after) == Config(GetConfig(before).pairs, true)
  {
    var all := before + [bad] + after;
    if before == [] {
    } else {
      assert all[1..] == before[1..] + [bad] + after;
      ConfigUpTo(before[1..], bad, after);
    }
  }

  /** A malformed line, a blank one included, ends the run: the pairs before it have been
      edited, and nothing after it counts. */
  lemma MalformedLineStops(files: Files, before: seq<string>, bad: string, after: seq<string>, dir: string, distro: string)
    requires !GetConfig(before).malformed && !Readable(bad)
    requires RunConfig(files, before, dir, distro).error == None
    ensures RunConfig(files, before + [bad] + after, dir, distro) ==
            Outcome(RunConfig(files, before, dir, distro).files, Some(BadConfigLine))
  {
    ConfigUpTo(before, bad, after);
  }

  /** A line that the generator gets past: it yields a pair, or is skipped. */
  predicate Readable(l: string) {
    IsComment(l) || ParsePair(l).Ok?
  }

  /** A config stops on a malformed line exactly when it has one. */
  lemma {:induction false} MalformedIff(lines: seq<string>)
    ensures GetConfig(lines).malformed <==> exists k :: 0 <= k < |lines| && !Readable(lines[k])
  {
    if lines == [] {
    } else {
      MalformedIff(lines[1..]);
      if !Readable(lines[0]) {
        assert GetConfig(lines).malformed;
      } else if GetConfig(lines).malformed {
        var k :| 0 <= k < |lines[1..]| && !Readable(lines[1..][k]);
        assert !Readable(lines[k + 1]);
      } else {
        forall k | 0 <= k < |lines| ensures Readable(lines[k]) {
          assert k > 0 ==> lines[k] == lines[1..][k - 1];
        }
      }
    }
  }

  lemma NoneRefusedIff(files: Files, pairs: seq<Pair>, dir: string, distro: string)
    ensures (forall edit :: edit in EditsOf(pairs, dir) ==> Refused(files, edit, distro) == None)
       <==> (forall pair :: pair in pairs ==> Refused(files, EditOf(pair, dir), distro) == None)
  {
    var edits := EditsOf(pairs, dir);
    if forall pair :: pair in pairs ==> Refused(files, EditOf(pair, dir), distro) == None {
      forall edit | edit in edits ensures Refused(files, edit, distro) == None {
        var k :| 0 <= k < |edits| && edits[k] == edit;
        assert pairs[k] in pairs;
      }
    } else {
      var pair :| pair in pairs && Refused(files, EditOf(pair, dir), distro) != None;
      var k :| 0 <= k < |pairs| && pairs[k] == pair;
      assert edits[k] in edits;
    }
  }

  /** A run over a config succeeds exactly when all its lines are readable and every pair's
      edit alone would succeed on the files as they are at the start. */
  lemma RunConfigSucceedsIff(files: Files, lines: seq<string>, dir: string, distro: string)
    requires IsName(distro)
    ensures RunConfig(files, lines, dir, distro).error == None <==>
            && (forall k :: 0 <= k < |lines| ==> Readable(lines[k]))
            && (forall pair :: pair in GetConfig(lines).pairs ==> Refused(files, EditOf(pair, dir), distro) == None)
  {
    MalformedIff(lines);
    RunSucceedsIff(files, EditsOf(GetConfig(lines).pairs, dir), distro);
    NoneRefusedIff(files, GetConfig(lines).pairs, dir, distro);
  }

  /** The questions that a config names in one file. */
  function IdentsIn(pairs: seq<Pair>, fname: string): set<string> {
    set pair | pair in pairs && pair.fname == fname :: pair.ident
  }

  lemma SamePath(dir: string, f: string, g: string)
    ensures dir + "/" + f + ".txt" == dir + "/" + g + ".txt" <==> f == g
  {
    if dir + "/" + f + ".txt" == dir + "/" + g + ".txt" {
      var s := dir + "/" + f + ".txt";
      assert s[|dir| + 1..|s| - 4] == f;
      assert (dir + "/" + g + ".txt")[|dir| + 1..|s| - 4] == g;
    }
  }

  lemma LabelsOfFile(pairs: seq<Pair>, dir: string, fname: string)
    requires dir != "" && dir[|dir| - 1] != '/'
    requires forall k :: 0 <= k < |pairs| ==> !("/" <= pairs[k].fname)
    ensures LabelsFor(EditsOf(pairs, dir), dir + "/" + fname + ".txt") == IdentsIn(pairs, fname)
  {
    var edits, path := EditsOf(pairs, dir), dir + "/" + fname + ".txt";
    forall k | 0 <= k < |pairs|
      ensures edits[k].ident == pairs[k].ident && (edits[k].path == path <==> pairs[k].fname == fname)
    {
      EditedPath(pairs[k].fname, pairs[k].ident, dir);
      SamePath(dir, pairs[k].fname, fname);
    }
    forall ident | ident in LabelsFor(edits, path) ensures ident in IdentsIn(pairs, fname) {
      var edit :| edit in edits && edit.path == path && edit.ident == ident;
      var k :| 0 <= k < |edits| && edits[k] == edit;
      assert pairs[k] in pairs;
    }
    forall ident | ident in IdentsIn(pairs, fname) ensures ident in LabelsFor(edits, path) {
      var pair :| pair in pairs && pair.fname == fname && pair.ident == ident;
      var k :| 0 <= k < |pairs| && pairs[k] == pair;
      assert edits[k] in edits;
    }
  }

  lemma OtherFile(pairs: seq<Pair>, dir: string, path: string)
    requires dir != "" && dir[|dir| - 1] != '/'
    requires forall k :: 0 <= k < |pairs| ==> !("/" <= pairs[k].fname) && path != dir + "/" + pairs[k].fname + ".txt"
    ensures forall edit :: edit in EditsOf(pairs, dir) ==> edit.path != path
  {
    forall edit | edit in EditsOf(pairs, dir) ensures edit.path != path {
      var k :| 0 <= k < |pairs| && EditsOf(pairs, dir)[k] == edit;
      EditedPath(pairs[k].fname, pairs[k].ident, dir);
    }
  }

  /** What a successful run over a config leaves in a directory: a file `fname.txt` reads as one
      pass for the questions that the config names with `fname`. */
  lemma RunConfigEdits(files: Files, lines: seq<string>, dir: string, distro: string, fname: string)
    requires IsName(distro) && RunConfig(files, lines, dir, distro).error == None
    requires dir != "" && dir[|dir| - 1] != '/'
    requires forall k :: 0 <= k < |GetConfig(lines).pairs| ==> !("/" <= GetConfig(lines).pairs[k].fname)
    ensures var path, after := dir + "/" + fname + ".txt", RunConfig(files, lines, dir, distro).files;
      && (path in files <==> path in after)
      && (IdentsIn(GetConfig(lines).pairs, fname) != {} ==> path in files)
      && (path in files ==>
            ReadLines(after[path]) == OnePass(ReadLines(files[path]), IdentsIn(GetConfig(lines).pairs, fname), distro))
  {
    var pairs, path := GetConfig(lines).pairs, dir + "/" + fname + ".txt";
    var edits := EditsOf(pairs, dir);
    LabelsOfFile(pairs, dir, fname);
    SuccessIsWritten(files, edits, distro);
    if path in files {
      FinalIsOnePass(files, edits, distro, path);
    }
    if IdentsIn(pairs, fname) != {} {
      var ident :| ident in LabelsFor(edits, path);
      var edit :| edit in edits && edit.path == path && edit.ident == ident;
      RunSucceedsIff(files, edits, distro);
      assert Refused(files, edit, distro) == None;
    }
  }

  /** And nothing else: a file that is none of these stays as it is. */
  lemma RunConfigKeeps(files: Files, lines: seq<string>, dir: string, distro: string, path: string)
    requires IsName(distro) && RunConfig(files, lines, dir, distro).error == None
    requires dir != "" && dir[|dir| - 1] != '/' && path in files
    requires forall k :: 0 <= k < |GetConfig(lines).pairs| ==>
      !("/" <= GetConfig(lines).pairs[k].fname) && path != dir + "/" + GetConfig(lines).pairs[k].fname + ".txt"
    ensures path in RunConfig(files, lines, dir, distro).files
    ensures RunConfig(files, lines, dir, distro).files[path] == files[path]
  {
    var edits := EditsOf(GetConfig(lines).pairs, dir);
    OtherFile(GetConfig(lines).pairs, dir, path);
    FinalIsOnePass(files, edits, distro, path);
  }

  /** A line of white space only, the empty line included, is malformed. */
  lemma BlankLineIsMalformed(l: string)
    requires AllSpace(l)
    ensures !Readable(l)
  {
    forall k | 0 <= k < |l| ensures l[k] != '=' && l[k] != '#' {
      assert IsSpace(l[k]);
    }
    assert '=' !in l;
    assert |SplitOn(l, '=')| == 1;
    assert "#"[0] == '#';
  }

  /** Configs that yield the same pairs, in any order and number, leave the same files. */
  lemma ConfigOrderIsIrrelevant(files: Files, lines: seq<string>, others: seq<string>, dir: string, distro: string)
    requires IsName(distro)
    requires !GetConfig(lines).malformed && !GetConfig(others).malformed
    requires forall pair :: pair in GetConfig(lines).pairs <==> pair in GetConfig(others).pairs
    ensures var a, b := RunConfig(files, lines, dir, distro), RunConfig(files, others, dir, distro);
      && (a.error == None <==> b.error == None)
      && (a.error == None ==> a.files == b.files)
  {
    var p, q := GetConfig(lines).pairs, GetConfig(others).pairs;
    SameEdits(p, q, dir);
    SameEdits(q, p, dir);
    OrderIsIrrelevant(files, EditsOf(p, dir), EditsOf(q, dir), distro);
  }

  lemma SameEdits(p: seq<Pair>, q: seq<Pair>, dir: string)
    requires forall pair :: pair in p ==> pair in q
    ensures forall edit :: edit in EditsOf(p, dir) ==> edit in EditsOf(q, dir)
  {
    forall edit | edit in EditsOf(p, dir) ensures edit in EditsOf(q, dir) {
      var k :| 0 <= k < |p| && EditOf(p[k], dir) == edit;
      assert p[k] in p;
      var m :| 0 <= m < |q| && q[m] == p[k];
      assert EditsOf(q, dir)[m] == edit;
    }
  }

  class QuestionsDir {
    var files: Files

    /** Either the whole file is replaced, or nothing is. */
    method XformFile(qfile: string, distro: string, qlabel: string) returns (error: Option<Error>)
      modifies this`files
      ensures error == Refused(old(files), Edit(qfile, qlabel), distro)
      ensures error == None ==> files == ApplyEdit(old(files), Edit(qfile, qlabel), distro)
      ensures error != None ==> files == old(files)
    {
      if qfile !in files {
        return Some(FileNotFound);
      }
      var questionsIn := new LineIterator(ReadLines(files[qfile]));
      var yielded := AddRequires(qlabel, distro, questionsIn);
      if yielded.Err? {
        return Some(yielded.error);
      }
      var questionsOut := WriteLines(yielded.value);
      files := files[qfile := questionsOut];
      error := None;
    }

    /** The loop of `main`: the pairs are edited as the generator yields them. */
    method Run(config: string, dir: string, distro: string) returns (error: Option<Error>)
      modifies this`files
      ensures Outcome(files, error) == RunConfig(old(files), ReadLines(config), dir, distro)
    {
      var configIn := new LineIterator(ReadLines(config));
      ghost var goal := RunConfig(files, ReadLines(config), dir, distro);
      while true
        invariant configIn.Valid() && fresh(configIn)
        invariant RunConfig(files, configIn.Rest(), dir, distro) == goal
        decreases |configIn.lines| - configIn.pos
      {
        ghost var rest := configIn.Rest();
        var pair := NextPair(configIn);
        if pair.Err? {
          RunConfigEnds(files, rest, dir, distro);
          return Some(pair.error);
        }
        if pair.value.None? {
          RunConfigEnds(files, rest, dir, distro);
          break;
        }
        RunConfigStep(files, rest, configIn.Rest(), dir, distro);
        var questionsFile := PathJoin(dir, pair.value.value.fname + ".txt");
        error := XformFile(questionsFile, distro, pair.value.value.ident);
        if error != None {
          return;
        }
      }
      error := None;
    }
  }

  // ---------- config round trip ----------

  datatype Item = Entry(fname: string, ident: string, value: string) | Comment(text: string)

  function Print(item: Item): string {
    match item
    case Entry(fname, ident, value) => fname + "." + ident + "=" + value + "\n"
    case Comment(text) => "#" + text + "\n"
  }

  predicate OneLine(s: string) {
    '\n' !in s && '\r' !in s
  }

  predicate CleanEntry(fname: string, ident: string, value: string) {
    && '=' !in fname && '.' !in fname && !("#" <= fname)
    && '=' !in ident && '.' !in ident
    && '=' !in value
  }

  predicate CleanItem(item: Item) {
    match item
    case Entry(fname, ident, value) =>
      CleanEntry(fname, ident, value) && OneLine(fname) && OneLine(ident) && OneLine(value)
    case Comment(text) => OneLine(text)
  }

  function PairsOf(items: seq<Item>): seq<Pair> {
    if items == [] then []
    else (if items[0].Entry? then [Pair(items[0].fname, items[0].ident)] else []) + PairsOf(items[1..])
  }

  function PrintAll(items: seq<Item>): seq<string> {
    if items == [] then [] else [Print(items[0])] + PrintAll(items[1..])
  }

  /** A printed entry is read as the pair it was printed from exactly when nothing in it can be
      mistaken for a separator or a comment. */
  lemma PrintedPairIff(fname: string, ident: string, value: string)
    ensures var l := Print(Entry(fname, ident, value));
      !IsComment(l) && ParsePair(l) == Ok(Pair(fname, ident)) <==> CleanEntry(fname, ident, value)
  {
    var coord := fname + ['.'] + ident;
    var l := Print(Entry(fname, ident, value));
    assert l == coord + ['='] + (value + ['\n']);
    assert IsComment(l) <==> "#" <= fname by {
      if fname != "" { assert l[0] == fname[0]; } else { assert l[0] == '.'; }
    }
    if CleanEntry(fname, ident, value) {
      SplitOnJoined(coord, '=', value + ['\n']);
      SplitOnJoined(fname, '.', ident);
    } else if ParsePair(l) == Ok(Pair(fname, ident)) {
      SplitOnCounts(l, '=');
      assert multiset(l)['='] == multiset(fname)['='] + multiset(ident)['='] + 1 + multiset(value)['='];
      SplitOnJoined(coord, '=', value + ['\n']);
      SplitOnPair(coord, '.');
    }
  }

  lemma PrintedIsLine(item: Item)
    requires CleanItem(item)
    ensures var l := Print(item); IsLine(l) && '\r' !in l && l[|l| - 1] == '\n'
  {
    var l := Print(item);
    assert l[..|l| - 1] == match item
      case Entry(fname, ident, value) => fname + "." + ident + "=" + value
      case Comment(text) => "#" + text;
  }

  lemma {:induction false} PrintedAreLines(items: seq<Item>)
    requires forall k :: 0 <= k < |items| ==> CleanItem(items[k])
    ensures |PrintAll(items)| == |items| && AreLines(PrintAll(items))
    ensures forall k :: 0 <= k < |items| ==> '\r' !in PrintAll(items)[k]
    ensures forall k :: 0 <= k < |items| ==> PrintAll(items)[k][|PrintAll(items)[k]| - 1] == '\n'
  {
    if items == [] {
    } else {
      PrintedAreLines(items[1..]);
      PrintedIsLine(items[0]);
      assert PrintAll(items) == [Print(items[0])] + PrintAll(items[1..]);
    }
  }

  lemma {:induction false} PrintedPairs(items: seq<Item>)
    requires forall k :: 0 <= k < |items| ==> CleanItem(items[k])
    ensures GetConfig(PrintAll(items)) == Config(PairsOf(items), false)
  {
    if items == [] {
    } else {
      PrintedPairs(items[1..]);
      var all := PrintAll(items);
      assert all[0] == Print(items[0]) && all[1..] == PrintAll(items[1..]);
      match items[0]
      case Entry(fname, ident, value) => PrintedPairIff(fname, ident, value);
      case Comment(text) => assert all[0][0] == '#';
    }
  }

  /** Printing a config and reading it gives the pairs back, in order. */
  lemma ConfigRoundTrip(items: seq<Item>)
    requires forall k :: 0 <= k < |items| ==> CleanItem(items[k])
    ensures GetConfig(ReadLines(Concat(PrintAll(items)))) == Config(PairsOf(items), false)
  {
    PrintedAreLines(items);
    ReadWritten(PrintAll(items));
    PrintedPairs(items);
  }
}
