/** Editing one Bastille question file: adding a distribution to the REQUIRE_DISTRO line of a question. */
module Questions {
  import opened Text

  datatype Error = BadConfigLine | BadLabelLine | BadRequireLine | FileNotFound

  datatype Result<+T> = Ok(value: T) | Err(error: Error)

  // ---------- lines ----------

  predicate IsLabel(l: string) {
    "LABEL:" <= l
  }

  predicate IsRequire(l: string) {
    "REQUIRE_DISTRO" <= l
  }

  predicate OneColon(l: string) {
    |SplitOn(l, ':')| == 2
  }

  predicate BadLabel(l: string) {
    IsLabel(l) && !OneColon(l)
  }

  predicate Matches(l: string, ident: string) {
    IsLabel(l) && OneColon(l) && Strip(SplitOn(l, ':')[1]) == ident
  }

  function DistrosOf(l: string): seq<string>
    requires OneColon(l)
  {
    Words(SplitOn(l, ':')[1])
  }

  function CheckContains(line: string, name: string): Result<bool> {
    if OneColon(line) then Ok(name in DistrosOf(line)) else Err(BadRequireLine)
  }

  function Appended(line: string, distro: string): string {
    Rstrip(line) + " " + distro + "\n"
  }

  /** What happens to the one REQUIRE_DISTRO line that is looked at. */
  function Rewrite(line: string, distro: string): Result<string> {
    match CheckContains(line, distro)
    case Err(e) => Err(e)
    case Ok(contained) => Ok(if contained then line else Appended(line, distro))
  }

  /** A distribution that a value field can hold: `check_contains` finds it again as one word. */
  predicate IsName(distro: string) {
    distro != "" && NoSpace(distro) && ':' !in distro
  }

  // ---------- which line is edited ----------

  /** The first line from i on that satisfies p, or the number of lines. */
  function FirstLine(lines: seq<string>, p: string -> bool, i: nat): (k: nat)
    requires i <= |lines|
    ensures i <= k <= |lines| && (k < |lines| ==> p(lines[k]))
    ensures forall m :: i <= m < k ==> !p(lines[m])
  {
    var q := (k: nat) => k < |lines| && p(lines[k]);
    var k := First(q, i, |lines|);
    assert forall m: nat :: i <= m < k ==> q(m) == p(lines[m]) && !q(m);
    k
  }

  function NextMatch(lines: seq<string>, ident: string): (k: nat)
    ensures k <= |lines| && (k < |lines| ==> Matches(lines[k], ident))
    ensures forall m :: 0 <= m < k ==> !Matches(lines[m], ident)
  {
    var p := l => Matches(l, ident);
    var k := FirstLine(lines, p, 0);
    assert forall m :: 0 <= m < k ==> p(lines[m]) == Matches(lines[m], ident) && !p(lines[m]);
    k
  }

  function NextRequire(lines: seq<string>, i: nat): (k: nat)
    requires i <= |lines|
    ensures i <= k <= |lines| && (k < |lines| ==> IsRequire(lines[k]))
    ensures forall m :: i <= m < k ==> !IsRequire(lines[m])
  {
    var p := l => IsRequire(l);
    var k := FirstLine(lines, p, i);
    assert forall m :: i <= m < k ==> p(lines[m]) == IsRequire(lines[m]) && !p(lines[m]);
    k
  }

  function NextLabel(lines: seq<string>, i: nat): (k: nat)
    requires i <= |lines|
    ensures i <= k <= |lines| && (k < |lines| ==> IsLabel(lines[k]))
    ensures forall m :: i <= m < k ==> !IsLabel(lines[m])
  {
    var p := l => IsLabel(l);
    var k := FirstLine(lines, p, i);
    assert forall m :: i <= m < k ==> p(lines[m]) == IsLabel(lines[m]) && !p(lines[m]);
    k
  }

  function Target(lines: seq<string>, ident: string): (t: Option<nat>)
    ensures t.Some? ==> t.value < |lines| && IsRequire(lines[t.value])
  {
    var i := NextMatch(lines, ident);
    if i == |lines| then None else
      var j := NextRequire(lines, i + 1);
      if j == |lines| then None else Some(j)
  }

  /** The search for the question meets a malformed LABEL line. */
  predicate BadBefore(lines: seq<string>, ident: string) {
    exists k :: 0 <= k < NextMatch(lines, ident) && BadLabel(lines[k])
  }

  function Edited(lines: seq<string>, ident: string, distro: string): Result<seq<string>> {
    if BadBefore(lines, ident) then Err(BadLabelLine)
    else match Target(lines, ident)
      case None => Ok(lines)
      case Some(j) =>
        match Rewrite(lines[j], distro)
        case Err(e) => Err(e)
        case Ok(l) => Ok(lines[j := l])
  }

  /** Line j is the first REQUIRE_DISTRO line after the first line whose label is `ident`. */
  ghost predicate Targets(lines: seq<string>, ident: string, j: nat) {
    j < |lines| && IsRequire(lines[j]) &&
    exists i: nat ::
      && i < j && Matches(lines[i], ident)
      && (forall m :: 0 <= m < i ==> !Matches(lines[m], ident))
      && (forall m :: i < m < j ==> !IsRequire(lines[m]))
  }

  lemma NextMatchIs(lines: seq<string>, ident: string, i: nat)
    requires i < |lines| && Matches(lines[i], ident) && forall m :: 0 <= m < i ==> !Matches(lines[m], ident)
    ensures NextMatch(lines, ident) == i
  {
    assert NextMatch(lines, ident) >= i;
  }

  lemma NextRequireIs(lines: seq<string>, i: nat, j: nat)
    requires i <= j < |lines| && IsRequire(lines[j]) && forall m :: i <= m < j ==> !IsRequire(lines[m])
    ensures NextRequire(lines, i) == j
  {
    assert NextRequire(lines, i) >= j;
  }

  lemma TargetIsTargets(lines: seq<string>, ident: string, j: nat)
    ensures Target(lines, ident) == Some(j) <==> Targets(lines, ident, j)
  {
    var i := NextMatch(lines, ident);
    if Targets(lines, ident, j) {
      var i': nat :| i' < j && Matches(lines[i'], ident)
        && (forall m :: 0 <= m < i' ==> !Matches(lines[m], ident))
        && (forall m :: i' < m < j ==> !IsRequire(lines[m]));
      NextMatchIs(lines, ident, i');
      NextRequireIs(lines, i + 1, j);
    }
  }

  lemma TargetsOne(lines: seq<string>, ident: string, j: nat, k: nat)
    requires Targets(lines, ident, j) && Targets(lines, ident, k)
    ensures j == k
  {
    TargetIsTargets(lines, ident, j);
    TargetIsTargets(lines, ident, k);
  }

  /** No malformed LABEL line comes before the question. */
  ghost predicate LabelsReadable(lines: seq<string>, ident: string) {
    forall k :: 0 <= k < |lines| && BadLabel(lines[k]) ==> exists i :: 0 <= i < k && Matches(lines[i], ident)
  }

  lemma LabelsReadableIff(lines: seq<string>, ident: string)
    ensures LabelsReadable(lines, ident) <==> !BadBefore(lines, ident)
  {
    var i := NextMatch(lines, ident);
    if LabelsReadable(lines, ident) {
      forall k | 0 <= k < i ensures !BadLabel(lines[k]) {}
    } else {
      var k :| 0 <= k < |lines| && BadLabel(lines[k]) && forall i :: 0 <= i < k ==> !Matches(lines[i], ident);
      assert k < i;
    }
  }

  /** The line to edit, if there is one, has a single colon. */
  ghost predicate TargetReadable(lines: seq<string>, ident: string) {
    forall j: nat :: Targets(lines, ident, j) ==> OneColon(lines[j])
  }

  lemma TargetReadableIff(lines: seq<string>, ident: string)
    ensures var t := Target(lines, ident);
      TargetReadable(lines, ident) <==> t == None || OneColon(lines[t.value])
  {
    var t := Target(lines, ident);
    if t.Some? {
      TargetIsTargets(lines, ident, t.value);
    }
    forall j: nat | Targets(lines, ident, j) ensures t == Some(j) {
      TargetIsTargets(lines, ident, j);
    }
  }

  /** The edit succeeds unless a malformed LABEL line comes before the question or its
      REQUIRE_DISTRO line is malformed. */
  lemma EditedSucceedsIff(lines: seq<string>, ident: string, distro: string)
    ensures Edited(lines, ident, distro).Ok? <==> LabelsReadable(lines, ident) && TargetReadable(lines, ident)
  {
    LabelsReadableIff(lines, ident);
    TargetReadableIff(lines, ident);
    EditedByTarget(lines, ident, distro);
  }

  lemma EditedByTarget(lines: seq<string>, ident: string, distro: string)
    ensures var t := Target(lines, ident);
      Edited(lines, ident, distro).Ok? <==> !BadBefore(lines, ident) && (t == None || OneColon(lines[t.value]))
  {
    if !BadBefore(lines, ident) && Target(lines, ident).Some? {
      var l := lines[Target(lines, ident).value];
      assert Rewrite(l, distro).Ok? <==> OneColon(l);
    }
  }

  /** It changes nothing but that one line, and it only when it lacks the distribution. */
  lemma EditedMeaning(lines: seq<string>, ident: string, distro: string, j: nat)
    requires Edited(lines, ident, distro).Ok? && j < |lines|
    ensures var out := Edited(lines, ident, distro).value;
      && |out| == |lines|
      && out[j] == if Targets(lines, ident, j) && CheckContains(lines[j], distro) == Ok(false)
                   then Appended(lines[j], distro) else lines[j]
  {
    TargetIsTargets(lines, ident, j);
  }

  // ---------- the edit on the text of the lines ----------

  lemma LabelHasNoColon(l: string, k: nat)
    requires "LABEL:" <= l && k < |l| && l[k] == ':'
    ensures k >= 5
  {
    forall m | 0 <= m < 5 ensures l[m] != ':' {
      assert l[m] == "LABEL:"[m];
    }
  }

  lemma LabelParts(l: string)
    requires "LABEL:" <= l
    ensures OneColon(l) <==> ':' !in l[6..]
    ensures OneColon(l) ==> SplitOn(l, ':') == ["LABEL", l[6..]]
  {
    assert l == "LABEL" + [':'] + l[6..];
    if ':' in l[6..] {
      SplitOnCounts(l, ':');
      assert multiset(l)[':'] >= 1 + multiset(l[6..])[':'];
    } else {
      SplitOnJoined("LABEL", ':', l[6..]);
    }
  }

  /** A malformed LABEL line has a second colon. */
  lemma BadLabelIff(l: string)
    ensures BadLabel(l) <==> exists rest :: l == "LABEL:" + rest && ':' in rest
  {
    if "LABEL:" <= l {
      assert l == "LABEL:" + l[6..];
      LabelParts(l);
    }
    if rest :| l == "LABEL:" + rest && ':' in rest {
      assert l[..6] == "LABEL:" && l[6..] == rest;
    }
  }

  /** A line of the question is its label behind the keyword and the colon, among white space. */
  lemma MatchesIff(l: string, ident: string)
    ensures Matches(l, ident) <==>
            IsStripped(ident) && ':' !in ident
            && exists a, b :: AllSpace(a) && AllSpace(b) && l == "LABEL:" + (a + ident + b)
  {
    if "LABEL:" <= l {
      assert l == "LABEL:" + l[6..];
      LabelParts(l);
      StripIff(l[6..], ident);
      if Matches(l, ident) {
        var a, b :| AllSpace(a) && AllSpace(b) && l[6..] == a + ident + b;
        assert l == "LABEL:" + (a + ident + b);
      }
    }
    if IsStripped(ident) && ':' !in ident
       && exists a, b :: AllSpace(a) && AllSpace(b) && l == "LABEL:" + (a + ident + b) {
      var a, b :| AllSpace(a) && AllSpace(b) && l == "LABEL:" + (a + ident + b);
      assert l[..6] == "LABEL:" && l[6..] == a + ident + b;
      assert ':' !in a && ':' !in b;
    }
  }

  /** The value field of the REQUIRE_DISTRO line is searched word by word, and gets one more
      word if the distribution is none of them. */
  lemma RewriteIs(line: string, more: string, value: string, distro: string)
    requires line == "REQUIRE_DISTRO" + more + [':'] + value && ':' !in more && ':' !in value
    ensures Rewrite(line, distro) ==
            Ok(if distro in Words(value) then line
               else "REQUIRE_DISTRO" + more + [':'] + (Rstrip(value) + [' '] + distro + ['\n']))
  {
    var name := "REQUIRE_DISTRO" + more;
    assert ':' !in "REQUIRE_DISTRO";
    SplitOnJoined(name, ':', value);
    AppendedIs(line, name, value, distro);
  }

  lemma AppendedIs(line: string, name: string, value: string, distro: string)
    requires SplitOn(line, ':') == [name, value]
    ensures Appended(line, distro) == name + [':'] + (Rstrip(value) + [' '] + distro + ['\n'])
  {
    AppendedShape(line, distro);
  }

  /** A file in parts: the lines before the question, its label, the lines up to the first
      REQUIRE_DISTRO line behind it, that line, and the rest. Only that line is rewritten. */
  lemma EditedParts(before: seq<string>, question: string, between: seq<string>, require: string, after: seq<string>,
                    ident: string, distro: string)
    requires forall k :: 0 <= k < |before| ==> !Matches(before[k], ident) && !BadLabel(before[k])
    requires Matches(question, ident)
    requires forall k :: 0 <= k < |between| ==> !("REQUIRE_DISTRO" <= between[k])
    requires "REQUIRE_DISTRO" <= require
    ensures Edited(before + [question] + between + [require] + after, ident, distro) ==
      match Rewrite(require, distro)
      case Err(e) => Err(e)
      case Ok(l) => Ok(before + [question] + between + [l] + after)
  {
    var lines := before + [question] + between + [require] + after;
    var i, j := |before|, |before| + 1 + |between|;
    forall m | 0 <= m < i ensures !Matches(lines[m], ident) && !BadLabel(lines[m]) {
      assert lines[m] == before[m];
    }
    assert lines[i] == question && lines[j] == require;
    forall m | i + 1 <= m < j ensures !IsRequire(lines[m]) {
      assert lines[m] == between[m - i - 1];
    }
    NextMatchIs(lines, ident, i);
    NextRequireIs(lines, i + 1, j);
    assert Target(lines, ident) == Some(j);
    assert forall l :: lines[j := l] == before + [question] + between + [l] + after;
  }

  /** Without such a line, or without the label, nothing is rewritten. */
  lemma EditedNone(lines: seq<string>, ident: string, distro: string)
    requires forall k :: 0 <= k < |lines| ==> !BadLabel(lines[k])
    requires (forall k :: 0 <= k < |lines| ==> !Matches(lines[k], ident))
          || (forall k :: 0 <= k < |lines| ==> !("REQUIRE_DISTRO" <= lines[k]))
    ensures Edited(lines, ident, distro) == Ok(lines)
  {
    assert !BadBefore(lines, ident);
    assert Target(lines, ident) == None;
  }

  /** And which error the edit ends with. */
  lemma EditedErrors(lines: seq<string>, ident: string, distro: string)
    ensures Edited(lines, ident, distro) == Err(BadLabelLine) <==> !LabelsReadable(lines, ident)
    ensures Edited(lines, ident, distro) == Err(BadRequireLine) <==>
            LabelsReadable(lines, ident) && !TargetReadable(lines, ident)
  {
    LabelsReadableIff(lines, ident);
    TargetReadableIff(lines, ident);
    EditedByTarget(lines, ident, distro);
    var t := Target(lines, ident);
    if t.Some? {
      assert Rewrite(lines[t.value], distro) == Err(BadRequireLine) <==> !OneColon(lines[t.value]);
    }
  }

  // ---------- whose line is edited ----------

  /** The question's block has a REQUIRE_DISTRO line: one comes before the next LABEL line. */
  ghost predicate HasOwnLine(lines: seq<string>, ident: string) {
    var i := NextMatch(lines, ident);
    exists j: nat :: i < j < |lines| && IsRequire(lines[j]) && forall m :: i < m < j ==> !IsLabel(lines[m])
  }

  /** The edited line is the question's own: no LABEL line lies between. */
  ghost predicate EditsOwnLine(lines: seq<string>, ident: string) {
    var t := Target(lines, ident);
    t.Some? && forall m :: NextMatch(lines, ident) < m < t.value ==> !IsLabel(lines[m])
  }

  /** The edit is made in the question itself exactly when the question has such a line. */
  lemma EditsOwnLineIff(lines: seq<string>, ident: string)
    requires NextMatch(lines, ident) < |lines|
    ensures EditsOwnLine(lines, ident) <==> HasOwnLine(lines, ident)
  {
    var i := NextMatch(lines, ident);
    var j := NextRequire(lines, i + 1);
    if HasOwnLine(lines, ident) {
      var k: nat :| i < k < |lines| && IsRequire(lines[k]) && forall m :: i < m < k ==> !IsLabel(lines[m]);
      assert j <= k;
    }
  }

  /** Otherwise the search runs past the next LABEL line, and past any number of further ones,
      into the first block with a REQUIRE_DISTRO line, if there is one. */
  lemma TargetOfLaterQuestion(lines: seq<string>, ident: string)
    requires NextMatch(lines, ident) < |lines| && !HasOwnLine(lines, ident)
    ensures var next := NextLabel(lines, NextMatch(lines, ident) + 1); var j := NextRequire(lines, next);
      && Target(lines, ident) == (if j < |lines| then Some(j) else None)
      && (j < |lines| ==> next < j && IsLabel(lines[next]))
  {
    var i := NextMatch(lines, ident);
    var next := NextLabel(lines, i + 1);
    var j, k := NextRequire(lines, next), NextRequire(lines, i + 1);
    assert k >= next;
    assert k == j;
    if j < |lines| {
      RequireIsNoLabel(lines[j]);
    }
  }

  lemma RequireIsNoLabel(l: string)
    requires IsRequire(l)
    ensures !IsLabel(l)
  {
    assert l[0] == 'R';
  }

  // ---------- the shared iterator ----------

  /** An open text file: every loop over it continues where the last one stopped. */
  class LineIterator {
    const lines: seq<string>
    var pos: nat

    ghost predicate Valid()
      reads this
    {
      pos <= |lines|
    }

    ghost function Rest(): seq<string>
      requires Valid()
      reads this
    {
      lines[pos..]
    }

    constructor (lines: seq<string>)
      ensures Valid() && Rest() == lines
    {
      this.lines := lines;
      pos := 0;
    }

    method Next() returns (l: Option<string>)
      requires Valid()
      modifies this`pos
      ensures Valid()
      ensures old(pos) == |lines| ==> l == None && pos == old(pos)
      ensures old(pos) < |lines| ==> l == Some(lines[old(pos)]) && pos == old(pos) + 1
    {
      if pos == |lines| {
        l := None;
      } else {
        l := Some(lines[pos]);
        pos := pos + 1;
      }
    }
  }

  /** The first loop: yields up to and including the question's LABEL line. */
  method PassLabel(ident: string, lines: LineIterator) returns (r: Result<seq<string>>)
    requires lines.Valid()
    modifies lines`pos
    ensures lines.Valid()
    ensures var all, i := old(lines.Rest()), NextMatch(old(lines.Rest()), ident);
      if BadBefore(all, ident) then r == Err(BadLabelLine)
      else
        var n := if i < |all| then i + 1 else i;
        r == Ok(all[..n]) && lines.Rest() == all[n..]
  {
    ghost var all, base := lines.Rest(), lines.pos;
    ghost var i := NextMatch(all, ident);
    var yielded: seq<string> := [];
    while true
      invariant lines.Valid() && lines.pos == base + |yielded|
      invariant |yielded| <= i && yielded == all[..|yielded|]
      invariant forall k :: 0 <= k < |yielded| ==> !BadLabel(all[k])
      decreases |all| - |yielded|
    {
      var l := lines.Next();
      if l.None? { break; }
      assert l.value == all[|yielded|];
      yielded := yielded + [l.value];
      if IsLabel(l.value) {
        if !OneColon(l.value) {
          assert BadLabel(all[|yielded| - 1]);
          assert BadBefore(all, ident);
          return Err(BadLabelLine);
        }
        if Strip(SplitOn(l.value, ':')[1]) == ident {
          assert Matches(all[|yielded| - 1], ident);
          break;
        }
      }
    }
    ghost var n := if i < |all| then i + 1 else i;
    assert |yielded| == n && !BadBefore(all, ident);
    assert yielded == all[..n];
    r := Ok(yielded);
  }

  /** The second loop: goes on up to and including the next REQUIRE_DISTRO line, and rewrites it. */
  method PassRequire(distro: string, lines: LineIterator) returns (r: Result<seq<string>>)
    requires lines.Valid()
    modifies lines`pos
    ensures lines.Valid()
    ensures var all, j := old(lines.Rest()), NextRequire(old(lines.Rest()), 0);
      if j == |all| then r == Ok(all) && lines.Rest() == []
      else match Rewrite(all[j], distro)
        case Err(e) => r == Err(e)
        case Ok(l) => r == Ok(all[..j] + [l]) && lines.Rest() == all[j + 1..]
  {
    ghost var all, base := lines.Rest(), lines.pos;
    ghost var j := NextRequire(all, 0);
    var yielded: seq<string> := [];
    while true
      invariant lines.Valid() && lines.pos == base + |yielded|
      invariant |yielded| <= j && yielded == all[..|yielded|]
      decreases |all| - |yielded|
    {
      var l := lines.Next();
      if l.None? { break; }
      assert l.value == all[|yielded|];
      if IsRequire(l.value) {
        assert |yielded| == j;
        var contained := CheckContains(l.value, distro);
        if contained.Err? {
          return Err(contained.error);
        }
        if !contained.value {
          return Ok(yielded + [Rstrip(l.value) + " " + distro + "\n"]);
        } else {
          return Ok(yielded + [l.value]);
        }
      } else {
        yielded := yielded + [l.value];
      }
    }
    assert yielded == all;
    r := Ok(yielded);
  }

  /** The third loop: yields what is left. */
  method PassRest(lines: LineIterator) returns (yielded: seq<string>)
    requires lines.Valid()
    modifies lines`pos
    ensures lines.Valid() && lines.Rest() == []
    ensures yielded == old(lines.Rest())
  {
    ghost var all, base := lines.Rest(), lines.pos;
    yielded := [];
    while true
      invariant lines.Valid() && lines.pos == base + |yielded|
      invariant |yielded| <= |all| && yielded == all[..|yielded|]
      decreases |all| - |yielded|
    {
      var l := lines.Next();
      if l.None? { break; }
      yielded := yielded + [l.value];
    }
  }

  lemma NextRequireShift(lines: seq<string>, start: nat)
    requires start <= |lines|
    ensures NextRequire(lines, start) == start + NextRequire(lines[start..], 0)
  {
    var k, k' := NextRequire(lines, start), NextRequire(lines[start..], 0);
    assert k' < |lines| - start ==> lines[start..][k'] == lines[start + k'];
    assert k < |lines| ==> lines[start..][k - start] == lines[k];
  }

  lemma UpdateInside(all: seq<string>, start: nat, j: nat, l: string)
    requires start + j < |all|
    ensures var rest := all[start..];
      all[start + j := l] == all[..start] + (rest[..j] + [l]) + rest[j + 1..]
  {
  }

  lemma RewrittenInside(all: seq<string>, start: nat, j: nat, distro: string)
    requires start + j < |all|
    ensures var rest, rewritten := all[start..], Rewrite(all[start + j], distro);
      rewritten.Ok? ==> all[start + j := rewritten.value] == all[..start] + (rest[..j] + [rewritten.value]) + rest[j + 1..]
  {
    if Rewrite(all[start + j], distro).Ok? {
      UpdateInside(all, start, j, Rewrite(all[start + j], distro).value);
    }
  }

  lemma TargetFrom(all: seq<string>, ident: string, start: nat)
    requires var i := NextMatch(all, ident); start == if i < |all| then i + 1 else i
    ensures var rest := all[start..]; var j := NextRequire(rest, 0);
      Target(all, ident) == if j == |rest| then None else Some(start + j)
  {
    NextRequireShift(all, start);
  }

  /** The edit in terms of what the three loops yield. */
  lemma EditedFrom(all: seq<string>, ident: string, distro: string, start: nat)
    requires var i := NextMatch(all, ident);
      && start == (if i < |all| then i + 1 else i)
      && (forall k :: 0 <= k < i ==> !BadLabel(all[k]))
    ensures var rest := all[start..]; var j := NextRequire(rest, 0);
      Edited(all, ident, distro) ==
      if j == |rest| then Ok(all)
      else match Rewrite(rest[j], distro)
        case Err(e) => Err(e)
        case Ok(l) => Ok(all[..start] + (rest[..j] + [l]) + rest[j + 1..])
  {
    TargetFrom(all, ident, start);
    var rest := all[start..];
    var j := NextRequire(rest, 0);
    assert !BadBefore(all, ident);
    if j < |rest| {
      assert all[start + j] == rest[j];
      RewrittenInside(all, start, j, distro);
    }
  }

  /** Three loops over one iterator. Every line is yielded once, in order, and one may be edited. */
  method AddRequires(ident: string, distro: string, lines: LineIterator) returns (r: Result<seq<string>>)
    requires lines.Valid()
    modifies lines`pos
    ensures lines.Valid()
    ensures r == Edited(old(lines.Rest()), ident, distro)
    ensures r.Ok? ==> lines.Rest() == []
  {
    ghost var all := lines.Rest();
    var head := PassLabel(ident, lines);
    if head.Err? { return head; }
    EditedFrom(all, ident, distro, |head.value|);
    var middle := PassRequire(distro, lines);
    if middle.Err? { return middle; }
    var tail := PassRest(lines);
    r := Ok(head.value + middle.value + tail);
    assert NextRequire(all[|head.value|..], 0) == |all[|head.value|..]| ==> r.value == all;
  }

  // ---------- the value field ----------

  /** Where the new word goes: behind the stripped text after the colon. */
  lemma AppendedShape(line: string, distro: string)
    requires OneColon(line)
    ensures var p := SplitOn(line, ':');
      && line == p[0] + [':'] + p[1] && ':' !in p[0] && ':' !in p[1]
      && Appended(line, distro) == p[0] + [':'] + (Rstrip(p[1]) + [' '] + distro + ['\n'])
  {
    SplitOnPair(line, ':');
    var p := SplitOn(line, ':');
    RstripStops(p[0], ':', p[1]);
  }

  /** The rewritten line keeps its label and single colon, and its value gains one last word. */
  lemma AppendedMeaning(line: string, distro: string)
    requires OneColon(line) && IsName(distro)
    ensures OneColon(Appended(line, distro))
    ensures SplitOn(Appended(line, distro), ':')[0] == SplitOn(line, ':')[0]
    ensures DistrosOf(Appended(line, distro)) == DistrosOf(line) + [distro]
    ensures IsRequire(line) ==> IsRequire(Appended(line, distro))
  {
    AppendedShape(line, distro);
    var a, b := SplitOn(line, ':')[0], SplitOn(line, ':')[1];
    RstripSplits(b);
    SplitOnJoined(a, ':', Rstrip(b) + [' '] + distro + ['\n']);
    WordsAppend(b, ' ', distro, ['\n']);
    AppendedKeepsRequire(line, a, b, Rstrip(b) + [' '] + distro + ['\n']);
  }

  lemma AppendedKeepsRequire(line: string, a: string, b: string, b': string)
    requires line == a + [':'] + b
    ensures IsRequire(line) ==> IsRequire(a + [':'] + b')
  {
    if IsRequire(line) {
      RequireHasNoColon(line, |a|);
      assert (a + [':'] + b')[..14] == a[..14] == line[..14];
    }
  }

  lemma RequireHasNoColon(line: string, k: nat)
    requires IsRequire(line) && k < |line| && line[k] == ':'
    ensures k >= 14
  {
    forall m | 0 <= m < 14 ensures line[m] != ':' {
      assert line[m] == "REQUIRE_DISTRO"[m];
    }
  }

  /** After the edit the line lists exactly one distribution more. */
  lemma RewriteMembership(line: string, distro: string, other: string)
    requires OneColon(line) && IsName(distro)
    ensures Rewrite(line, distro).Ok?
    ensures CheckContains(Rewrite(line, distro).value, other) ==
            Ok(other == distro || CheckContains(line, other) == Ok(true))
  {
    AppendedMeaning(line, distro);
  }

  /** Rewriting a line twice is rewriting it once exactly for a distribution that is one word
      without a colon, or blank: any other one is never found again, or breaks the line. */
  lemma RewriteTwiceIff(line: string, distro: string)
    requires CheckContains(line, distro) == Ok(false)
    ensures var once := Appended(line, distro);
      Rewrite(once, distro) == Ok(once) <==> IsName(distro) || AllSpace(distro)
  {
    if IsName(distro) {
      AppendedMeaning(line, distro);
    } else if ':' in distro {
      AppendedColon(line, distro);
    } else {
      AppendedUnseen(line, distro);
      AppendedAgain(line, distro);
    }
  }

  lemma AppendedColon(line: string, distro: string)
    requires OneColon(line) && ':' in distro
    ensures !OneColon(Appended(line, distro)) && !AllSpace(distro)
  {
    AppendedShape(line, distro);
    var p := SplitOn(line, ':');
    SplitOnCounts(Appended(line, distro), ':');
    assert multiset(Appended(line, distro))[':'] >= 1 + multiset(distro)[':'];
    var k :| 0 <= k < |distro| && distro[k] == ':';
    assert !IsSpace(distro[k]);
  }

  lemma AppendedUnseen(line: string, distro: string)
    requires OneColon(line) && ':' !in distro && !IsName(distro)
    ensures CheckContains(Appended(line, distro), distro) == Ok(false)
  {
    AppendedShape(line, distro);
    var p := SplitOn(line, ':');
    RstripSplits(p[1]);
    var value := Rstrip(p[1]) + [' '] + distro + ['\n'];
    SplitOnJoined(p[0], ':', value);
    WordsAreWords(value);
  }

  lemma AppendedAgain(line: string, distro: string)
    ensures var once := Appended(line, distro);
      Appended(once, distro) == once <==> AllSpace(distro)
  {
    var once := Appended(line, distro);
    var tail := [' '] + (distro + ['\n']);
    assert once == Rstrip(line) + tail;
    RstripTail(Rstrip(line), tail);
    RstripSplits(line);
    if AllSpace(distro) {
      assert AllSpace(tail);
    } else {
      var k :| 0 <= k < |distro| && !IsSpace(distro[k]);
      assert tail[k + 1] == distro[k];
      RstripKeeps(tail, k + 1);
    }
  }
}
