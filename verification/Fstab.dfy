/** The fstab edit of IMA: give chosen mount points the `iversion` option, repeatably. */
module Fstab {
  import opened Text
  import opened LineEdit

  /** What the edit puts behind the mount options. */
  const OPTION: string := ",iversion"

  /** A text whose occurrences stay inside one field and do not overlap. */
  ghost predicate IsTag(tag: string) {
    tag != "" && NoBlank(tag) && '\n' !in tag && forall k :: 1 <= k < |tag| ==> tag[k] != tag[0]
  }

  lemma OptionIsTag()
    ensures IsTag(OPTION)
  {
  }

  /** Perl's `\s`. */
  predicate Blank(c: char) {
    c == ' ' || '\t' <= c <= '\r'
  }

  predicate NoBlank(s: string) {
    forall k :: 0 <= k < |s| ==> !Blank(s[k])
  }

  // ---------- the first substitution: where the pattern matches ----------

  /** The end of the run of blanks (or of non-blanks) that starts at i. */
  function RunEnd(l: string, i: nat, blank: bool): (e: nat)
    requires i <= |l|
    ensures i <= e <= |l|
    decreases |l| - i
  {
    if i < |l| && Blank(l[i]) == blank then RunEnd(l, i + 1, blank) else i
  }

  lemma {:induction false} RunEndIs(l: string, i: nat, blank: bool)
    requires i <= |l|
    ensures var e := RunEnd(l, i, blank);
      && (e < |l| ==> Blank(l[e]) != blank)
      && forall k :: i <= k < e ==> Blank(l[k]) == blank
    decreases |l| - i
  {
    if i == |l| || Blank(l[i]) != blank {
    } else {
      RunEndIs(l, i + 1, blank);
    }
  }

  /** The ends of the seven groups `(\S+)(\s+)(mount point)(\s+)(\S+)(\s+)(\S+)` in a match. */
  datatype Groups = Groups(start: nat, e1: nat, e2: nat, e3: nat, e4: nat, e5: nat, e6: nat, e7: nat)

  ghost predicate Spans(l: string, i: nat, e: nat, blank: bool) {
    i < e <= |l| && forall k :: i <= k < e ==> Blank(l[k]) == blank
  }

  ghost predicate IsMatch(l: string, mounts: seq<string>, g: Groups) {
    && Spans(l, g.start, g.e1, false)
    && Spans(l, g.e1, g.e2, true)
    && g.e2 <= g.e3 <= |l| && l[g.e2..g.e3] in mounts
    && Spans(l, g.e3, g.e4, true)
    && Spans(l, g.e4, g.e5, false)
    && Spans(l, g.e5, g.e6, true)
    && Spans(l, g.e6, g.e7, false)
  }

  predicate AreMountPoints(mounts: seq<string>) {
    forall m :: m in mounts ==> m != "" && NoBlank(m)
  }

  /** The alternative of a pattern that lists no mount point. */
  const EMPTY: seq<string> := [""]

  /** What the pattern can list: non-empty words, or the one empty alternative. */
  predicate AreAlternatives(mounts: seq<string>) {
    AreMountPoints(mounts) || mounts == EMPTY
  }

  ghost predicate NoneMentions(mounts: seq<string>, tag: string) {
    forall m, k: nat :: m in mounts ==> !TagAt(tag, m, k)
  }

  function RunEnds(l: string, i: nat): Groups
    requires i <= |l|
  {
    var e1 := RunEnd(l, i, false);
    var e2 := RunEnd(l, e1, true);
    var e3 := RunEnd(l, e2, false);
    var e4 := RunEnd(l, e3, true);
    var e5 := RunEnd(l, e4, false);
    var e6 := RunEnd(l, e5, true);
    Groups(i, e1, e2, e3, e4, e5, e6, RunEnd(l, e6, false))
  }

  predicate Increasing(g: Groups) {
    g.start < g.e1 < g.e2 < g.e3 < g.e4 < g.e5 < g.e6 < g.e7
  }

  /** Three fields with two blanks or more behind the first, for an empty group between them. */
  predicate WideGap(g: Groups) {
    g.start < g.e1 && g.e1 + 2 <= g.e2 < g.e3 < g.e4 < g.e5
  }

  predicate GroupsMatch(l: string, mounts: seq<string>, g: Groups) {
    if mounts == EMPTY then WideGap(g)
    else Increasing(g) && g.e3 <= |l| && l[g.e2..g.e3] in mounts
  }

  /** The last group ends the fourth field, or the third when the mount point is empty. */
  function LastEnd(mounts: seq<string>, g: Groups): nat {
    if mounts == EMPTY then g.e5 else g.e7
  }

  predicate FieldsMatch(l: string, mounts: seq<string>, i: nat) {
    i <= |l| && GroupsMatch(l, mounts, RunEnds(l, i))
  }

  /** The leftmost start from which the pattern matches, or the line's length. */
  function FirstStart(l: string, mounts: seq<string>): (s: nat)
    ensures s <= |l| && (s < |l| ==> FieldsMatch(l, mounts, s))
    ensures forall k: nat :: k < s ==> !FieldsMatch(l, mounts, k)
  {
    var p := (k: nat) => FieldsMatch(l, mounts, k);
    var s := First(p, 0, |l|);
    assert forall k: nat :: k < s ==> p(k) == FieldsMatch(l, mounts, k) && !p(k);
    s
  }

  lemma WordEnds(l: string, i: nat, e: nat)
    requires i <= |l| && i < e == RunEnd(l, i, false)
    ensures !Blank(l[e - 1]) && (e < |l| ==> Blank(l[e]))
  {
    RunEndIs(l, i, false);
  }

  lemma LastGroupIsWord(l: string, mounts: seq<string>, i: nat)
    requires FieldsMatch(l, mounts, i)
    ensures var e := LastEnd(mounts, RunEnds(l, i));
      0 < e <= |l| && !Blank(l[e - 1]) && (e < |l| ==> Blank(l[e]))
  {
    var g := RunEnds(l, i);
    if mounts == EMPTY {
      WordEnds(l, g.e4, g.e5);
    } else {
      WordEnds(l, g.e6, g.e7);
    }
  }

  /** Where the first match ends, if there is one. */
  function MatchEnd(l: string, mounts: seq<string>): (e: Option<nat>)
    ensures e.Some? ==> 0 < e.value <= |l| && !Blank(l[e.value - 1])
    ensures e.Some? && e.value < |l| ==> Blank(l[e.value])
  {
    var s := FirstStart(l, mounts);
    if s == |l| then None else
      LastGroupIsWord(l, mounts, s);
      Some(LastEnd(mounts, RunEnds(l, s)))
  }

  function Inserted(tag: string, l: string, mounts: seq<string>): string {
    match MatchEnd(l, mounts)
    case None => l
    case Some(e) => l[..e] + tag + l[e..]
  }

  // ---------- the second substitution ----------

  predicate TagAt(tag: string, l: string, i: nat) {
    i + |tag| <= |l| && l[i..i + |tag|] == tag
  }

  function FirstTag(tag: string, l: string): (p: nat)
    ensures p <= |l| && (p < |l| ==> TagAt(tag, l, p))
    ensures forall k: nat :: k < p ==> !TagAt(tag, l, k)
  {
    var t := (k: nat) => TagAt(tag, l, k);
    var p := First(t, 0, |l|);
    assert forall k: nat :: k < p ==> t(k) == TagAt(tag, l, k) && !t(k);
    p
  }

  /** `(,iversion)+` is greedy: the end of the whole run of tags at i. */
  function TagsEnd(tag: string, l: string, i: nat): (r: nat)
    requires tag != "" && i <= |l|
    ensures i <= r <= |l| && !TagAt(tag, l, r)
    ensures r > i <==> TagAt(tag, l, i)
    decreases |l| - i
  {
    if TagAt(tag, l, i) then TagsEnd(tag, l, i + |tag|) else i
  }

  function Collapsed(tag: string, l: string): string
    requires tag != ""
  {
    var p := FirstTag(tag, l);
    if p == |l| then l else l[..p] + tag + l[TagsEnd(tag, l, p)..]
  }

  function PassWith(tag: string, l: string, mounts: seq<string>): string
    requires tag != ""
  {
    Collapsed(tag, Inserted(tag, l, mounts))
  }

  /** Both substitutions on one line. */
  function Pass(l: string, mounts: seq<string>): string {
    PassWith(OPTION, l, mounts)
  }

  // ---------- the run ends are what the pattern matches ----------

  lemma {:induction false} RunEndUnique(l: string, i: nat, blank: bool, e: nat)
    requires i <= e <= |l| && (e < |l| ==> Blank(l[e]) != blank)
    requires forall k :: i <= k < e ==> Blank(l[k]) == blank
    ensures RunEnd(l, i, blank) == e
    decreases e - i
  {
    if i == e {
    } else {
      RunEndUnique(l, i + 1, blank, e);
    }
  }

  lemma RunEndReaches(l: string, i: nat, blank: bool, e: nat)
    requires i <= e <= |l| && forall k :: i <= k < e ==> Blank(l[k]) == blank
    ensures e <= RunEnd(l, i, blank)
  {
    RunEndIs(l, i, blank);
  }

  lemma RunEndSpans(l: string, i: nat, blank: bool)
    requires i <= |l|
    ensures RunEnd(l, i, blank) > i ==> Spans(l, i, RunEnd(l, i, blank), blank)
  {
    RunEndIs(l, i, blank);
  }

  /** Blanks and words alternate, so a match has no choice but in its last, greedy group. */
  lemma MatchIsFields(l: string, mounts: seq<string>, g: Groups)
    requires AreMountPoints(mounts) && IsMatch(l, mounts, g)
    ensures g.start <= |l| && FieldsMatch(l, mounts, g.start)
    ensures var r := RunEnds(l, g.start);
      r.(e7 := g.e7) == g && g.e7 <= r.e7
  {
    RunEndUnique(l, g.start, false, g.e1);
    var m := l[g.e2..g.e3];
    assert !Blank(m[0]) && m[0] == l[g.e2];
    RunEndUnique(l, g.e1, true, g.e2);
    forall k | g.e2 <= k < g.e3 ensures !Blank(l[k]) {
      assert l[k] == m[k - g.e2];
    }
    RunEndUnique(l, g.e2, false, g.e3);
    RunEndUnique(l, g.e3, true, g.e4);
    RunEndUnique(l, g.e4, false, g.e5);
    RunEndUnique(l, g.e5, true, g.e6);
    RunEndReaches(l, g.e6, false, g.e7);
  }

  /** The groups around an empty mount point, which stands before the last blank of its run. */
  function EmptyGroups(r: Groups): Groups
    requires r.e2 > 0
  {
    Groups(r.start, r.e1, r.e2 - 1, r.e2 - 1, r.e2, r.e3, r.e4, r.e5)
  }

  /** An empty mount point may stand between any two blanks of a run, the last two first. */
  lemma EmptyMatchIsFields(l: string, mounts: seq<string>, g: Groups)
    requires mounts == EMPTY && IsMatch(l, mounts, g)
    ensures g.start <= |l| && FieldsMatch(l, mounts, g.start)
    ensures var r := EmptyGroups(RunEnds(l, g.start));
      r.(e2 := g.e2, e3 := g.e3, e7 := g.e7) == g && g.e2 == g.e3 <= r.e2 && g.e7 <= r.e7
  {
    assert l[g.e2..g.e3] == "";
    RunEndUnique(l, g.start, false, g.e1);
    RunEndUnique(l, g.e1, true, g.e4);
    RunEndUnique(l, g.e4, false, g.e5);
    RunEndUnique(l, g.e5, true, g.e6);
    RunEndReaches(l, g.e6, false, g.e7);
  }

  /** The match that Perl finds from a start. */
  function PerlGroups(l: string, mounts: seq<string>, i: nat): Groups
    requires FieldsMatch(l, mounts, i)
  {
    if mounts == EMPTY then EmptyGroups(RunEnds(l, i)) else RunEnds(l, i)
  }

  lemma GroupsSpan(l: string, g: Groups)
    requires g.start <= |l| && g == RunEnds(l, g.start)
    ensures g.start < g.e1 ==> Spans(l, g.start, g.e1, false)
    ensures g.e1 < g.e2 ==> Spans(l, g.e1, g.e2, true)
    ensures g.e2 < g.e3 ==> Spans(l, g.e2, g.e3, false)
    ensures g.e3 < g.e4 ==> Spans(l, g.e3, g.e4, true)
    ensures g.e4 < g.e5 ==> Spans(l, g.e4, g.e5, false)
    ensures g.e5 < g.e6 ==> Spans(l, g.e5, g.e6, true)
    ensures g.e6 < g.e7 ==> Spans(l, g.e6, g.e7, false)
  {
    RunEndSpans(l, g.start, false);
    RunEndSpans(l, g.e1, true);
    RunEndSpans(l, g.e2, false);
    RunEndSpans(l, g.e3, true);
    RunEndSpans(l, g.e4, false);
    RunEndSpans(l, g.e5, true);
    RunEndSpans(l, g.e6, false);
  }

  lemma FieldsAreMatch(l: string, mounts: seq<string>, i: nat)
    requires FieldsMatch(l, mounts, i)
    ensures IsMatch(l, mounts, PerlGroups(l, mounts, i))
    ensures PerlGroups(l, mounts, i).e7 == LastEnd(mounts, RunEnds(l, i))
  {
    GroupsSpan(l, RunEnds(l, i));
    if mounts == EMPTY {
      var g := EmptyGroups(RunEnds(l, i));
      assert l[g.e2..g.e3] == "" == mounts[0];
    }
  }

  /** Of two matches Perl prefers the one that starts first, and then the longer groups; groups
      can differ in length only where the mount point is empty, and at the end. */
  ghost predicate Preferred(mounts: seq<string>, g: Groups, h: Groups) {
    || g.start < h.start
    || (mounts != EMPTY && h == g.(e7 := h.e7) && h.e7 <= g.e7)
    || (mounts == EMPTY && h == g.(e2 := h.e2, e3 := h.e3, e7 := h.e7) && h.e2 == h.e3 <= g.e2 && h.e7 <= g.e7)
  }

  lemma AnyMatchIsFields(l: string, mounts: seq<string>, h: Groups)
    requires AreAlternatives(mounts) && IsMatch(l, mounts, h)
    ensures h.start < |l| && FieldsMatch(l, mounts, h.start)
    ensures Preferred(mounts, PerlGroups(l, mounts, h.start), h)
  {
    if mounts == EMPTY {
      EmptyMatchIsFields(l, mounts, h);
    } else {
      MatchIsFields(l, mounts, h);
    }
  }

  /** The match that Perl makes. */
  ghost predicate IsPerlMatch(l: string, mounts: seq<string>, g: Groups) {
    IsMatch(l, mounts, g) && forall h :: IsMatch(l, mounts, h) ==> Preferred(mounts, g, h)
  }

  lemma PreferredToAny(l: string, mounts: seq<string>, s: nat, g: Groups, h: Groups)
    requires AreAlternatives(mounts) && IsMatch(l, mounts, h)
    requires forall k: nat :: k < s ==> !FieldsMatch(l, mounts, k)
    requires FieldsMatch(l, mounts, s) && g == PerlGroups(l, mounts, s)
    ensures Preferred(mounts, g, h)
  {
    AnyMatchIsFields(l, mounts, h);
    assert h.start == s || g.start < h.start;
  }

  lemma FirstIsPerlMatch(l: string, mounts: seq<string>, s: nat, g: Groups)
    requires AreAlternatives(mounts)
    requires forall k: nat :: k < s ==> !FieldsMatch(l, mounts, k)
    requires FieldsMatch(l, mounts, s) && g == PerlGroups(l, mounts, s) && IsMatch(l, mounts, g)
    ensures IsPerlMatch(l, mounts, g)
  {
    forall h | IsMatch(l, mounts, h) ensures Preferred(mounts, g, h) {
      PreferredToAny(l, mounts, s, g, h);
    }
  }

  /** The insertion is the one Perl makes: it is at the end of the match that it prefers to all
      others; without a match the line is kept. */
  lemma InsertedAtPerlMatch(l: string, mounts: seq<string>)
    requires AreAlternatives(mounts)
    ensures MatchEnd(l, mounts) == None ==> forall g :: !IsMatch(l, mounts, g)
    ensures MatchEnd(l, mounts).Some? ==>
      exists g :: IsPerlMatch(l, mounts, g) && g.e7 == MatchEnd(l, mounts).value
  {
    var s := FirstStart(l, mounts);
    if s < |l| {
      FieldsAreMatch(l, mounts, s);
      FirstIsPerlMatch(l, mounts, s, PerlGroups(l, mounts, s));
    } else {
      forall h | IsMatch(l, mounts, h) ensures false {
        AnyMatchIsFields(l, mounts, h);
      }
    }
  }

  // ---------- tags ----------

  lemma TagChar(tag: string, l: string, i: nat, k: nat)
    requires TagAt(tag, l, i) && i <= k < i + |tag|
    ensures l[k] == tag[k - i]
  {
    assert l[k] == l[i..i + |tag|][k - i];
  }

  /** Two tags do not overlap: only the first character of a tag starts one. */
  lemma TagsApart(tag: string, l: string, i: nat, j: nat)
    requires IsTag(tag) && TagAt(tag, l, i) && TagAt(tag, l, j) && i < j
    ensures i + |tag| <= j
  {
    TagChar(tag, l, j, j);
    if j < i + |tag| {
      TagChar(tag, l, i, j);
    }
  }

  lemma TagHasNoBlank(tag: string, l: string, i: nat, k: nat)
    requires NoBlank(tag) && TagAt(tag, l, i) && i <= k < i + |tag|
    ensures !Blank(l[k])
  {
    TagChar(tag, l, i, k);
  }

  // ---------- changing text inside one field ----------

  /** Where a position outside x moves when x is replaced by y behind a. */
  function Moved(a: string, x: string, y: string, i: nat): nat {
    if i <= |a| then i else if i < |a| + |x| then |a| else i - |x| + |y|
  }

  ghost predicate InField(x: string, y: string) {
    x != "" && NoBlank(x) && y != "" && NoBlank(y)
  }

  ghost predicate Outside(a: string, x: string, b: string, i: nat) {
    i <= |a| || |a| + |x| <= i <= |a + x + b|
  }

  lemma RunEndMoves(a: string, x: string, y: string, b: string, i: nat, blank: bool)
    requires InField(x, y) && Outside(a, x, b, i)
    ensures var e := RunEnd(a + x + b, i, blank);
      && Outside(a, x, b, e)
      && Moved(a, x, y, i) <= |a + y + b|
      && RunEnd(a + y + b, Moved(a, x, y, i), blank) == Moved(a, x, y, e)
  {
    var l, l' := a + x + b, a + y + b;
    var e := RunEnd(l, i, blank);
    RunEndIs(l, i, blank);
    forall k | |a| <= k < |a| + |x| ensures !Blank(l[k]) {
      assert l[k] == x[k - |a|];
    }
    assert !Blank(l[|a|]);
    assert Outside(a, x, b, e);
    var i', e' := Moved(a, x, y, i), Moved(a, x, y, e);
    forall k | i' <= k < e' ensures Blank(l'[k]) == blank {
      if k < |a| {
        assert l'[k] == l[k];
      } else if k < |a| + |y| {
        assert l'[k] == y[k - |a|];
      } else {
        assert l'[k] == l[k - |y| + |x|];
      }
    }
    if e' < |l'| {
      assert l'[e'] == if e < |a| then l[e] else if e == |a| then y[0] else l[e];
    }
    RunEndUnique(l', i', blank, e');
  }

  function MovedGroups(a: string, x: string, y: string, g: Groups): Groups {
    Groups(Moved(a, x, y, g.start), Moved(a, x, y, g.e1), Moved(a, x, y, g.e2), Moved(a, x, y, g.e3),
           Moved(a, x, y, g.e4), Moved(a, x, y, g.e5), Moved(a, x, y, g.e6), Moved(a, x, y, g.e7))
  }

  ghost predicate AllOutside(a: string, x: string, b: string, g: Groups) {
    && Outside(a, x, b, g.start) && Outside(a, x, b, g.e1) && Outside(a, x, b, g.e2) && Outside(a, x, b, g.e3)
    && Outside(a, x, b, g.e4) && Outside(a, x, b, g.e5) && Outside(a, x, b, g.e6) && Outside(a, x, b, g.e7)
  }

  lemma RunEndsMove(a: string, x: string, y: string, b: string, i: nat)
    requires InField(x, y) && Outside(a, x, b, i)
    ensures AllOutside(a, x, b, RunEnds(a + x + b, i)) && Moved(a, x, y, i) <= |a + y + b|
    ensures RunEnds(a + y + b, Moved(a, x, y, i)) == MovedGroups(a, x, y, RunEnds(a + x + b, i))
  {
    var g := RunEnds(a + x + b, i);
    RunEndMoves(a, x, y, b, i, false);
    RunEndMoves(a, x, y, b, g.e1, true);
    RunEndMoves(a, x, y, b, g.e2, false);
    RunEndMoves(a, x, y, b, g.e3, true);
    RunEndMoves(a, x, y, b, g.e4, false);
    RunEndMoves(a, x, y, b, g.e5, true);
    RunEndMoves(a, x, y, b, g.e6, false);
  }

  lemma MovedIncreasing(a: string, x: string, y: string, b: string, g: Groups)
    requires x != "" && y != "" && AllOutside(a, x, b, g)
    ensures Increasing(MovedGroups(a, x, y, g)) <==> Increasing(g)
  {
  }

  /** A run of blanks does not change its length. */
  lemma GapMoves(a: string, x: string, y: string, b: string, g: Groups)
    requires InField(x, y) && AllOutside(a, x, b, g) && g.e1 <= g.e2
    requires forall k :: g.e1 <= k < g.e2 ==> Blank((a + x + b)[k])
    ensures WideGap(MovedGroups(a, x, y, g)) <==> WideGap(g)
  {
    var l := a + x + b;
    assert l[|a|] == x[0];
    assert g.e2 <= |a| || |a| < g.e1;
  }

  lemma GroupsMove(tag: string, a: string, x: string, y: string, b: string, mounts: seq<string>, g: Groups)
    requires InField(x, y) && AllOutside(a, x, b, g) && g.e1 <= g.e2 <= g.e3 <= |a + x + b|
    requires forall k :: g.e1 <= k < g.e2 ==> Blank((a + x + b)[k])
    requires g.e3 <= |a| || (tag <= x && tag <= y && NoneMentions(mounts, tag))
    ensures GroupsMatch(a + x + b, mounts, g) <==> GroupsMatch(a + y + b, mounts, MovedGroups(a, x, y, g))
  {
    if mounts == EMPTY {
      GapMoves(a, x, y, b, g);
    } else {
      MovedIncreasing(a, x, y, b, g);
      MountMoves(tag, a, x, y, b, mounts, g.e2, g.e3);
    }
  }

  /** The match moves with the text, as long as the change is behind the mount point, or both
      texts mention the option, which no mount point does. */
  lemma FieldsMove(tag: string, a: string, x: string, y: string, b: string, mounts: seq<string>, i: nat)
    requires InField(x, y) && Outside(a, x, b, i)
    requires RunEnds(a + x + b, i).e3 <= |a| || (tag <= x && tag <= y && NoneMentions(mounts, tag))
    ensures Moved(a, x, y, i) <= |a + y + b|
    ensures FieldsMatch(a + x + b, mounts, i) <==> FieldsMatch(a + y + b, mounts, Moved(a, x, y, i))
  {
    RunEndsMove(a, x, y, b, i);
    RunEndIs(a + x + b, RunEnds(a + x + b, i).e1, true);
    GroupsMove(tag, a, x, y, b, mounts, RunEnds(a + x + b, i));
  }

  lemma SliceHasTag(tag: string, a: string, x: string, b: string, i: nat, e: nat)
    requires tag <= x && i <= |a| && |a| + |x| <= e <= |a + x + b|
    ensures TagAt(tag, (a + x + b)[i..e], |a| - i)
  {
    var m := (a + x + b)[i..e];
    assert m == a[i..] + x + b[..e - |a| - |x|];
    assert m[|a| - i..|a| - i + |tag|] == x[..|tag|];
  }

  lemma MountMoves(tag: string, a: string, x: string, y: string, b: string, mounts: seq<string>, i: nat, e: nat)
    requires InField(x, y) && Outside(a, x, b, i) && Outside(a, x, b, e) && i <= e
    requires e <= |a| || (tag <= x && tag <= y && NoneMentions(mounts, tag))
    ensures Moved(a, x, y, i) <= Moved(a, x, y, e) <= |a + y + b|
    ensures (a + x + b)[i..e] in mounts <==> (a + y + b)[Moved(a, x, y, i)..Moved(a, x, y, e)] in mounts
  {
    var l, l' := a + x + b, a + y + b;
    var m, m' := l[i..e], l'[Moved(a, x, y, i)..Moved(a, x, y, e)];
    if e <= |a| || |a| + |x| <= i {
      assert m == m';
    } else {
      SliceHasTag(tag, a, x, b, i, e);
      SliceHasTag(tag, a, y, b, i, Moved(a, x, y, e));
    }
  }

  lemma SameField(l: string, mounts: seq<string>, i: nat, j: nat)
    requires i <= j < |l| && forall k :: i <= k <= j ==> !Blank(l[k])
    ensures FieldsMatch(l, mounts, i) <==> FieldsMatch(l, mounts, j)
  {
    RunEndIs(l, j, false);
    RunEndUnique(l, i, false, RunEnd(l, j, false));
  }

  /** Replacing one run of tags by another, wherever it is, moves the first match along. */
  lemma MatchMoves(tag: string, a: string, x: string, y: string, b: string, mounts: seq<string>)
    requires InField(x, y) && tag <= x && tag <= y && NoneMentions(mounts, tag)
    ensures var e, e' := MatchEnd(a + x + b, mounts), MatchEnd(a + y + b, mounts);
      && (e.None? <==> e'.None?)
      && (e.Some? ==> Outside(a, x, b, e.value) && e'.value == Moved(a, x, y, e.value))
  {
    FirstStartMoves(tag, a, x, y, b, mounts);
    var s := FirstStart(a + x + b, mounts);
    if s < |a + x + b| {
      RunEndsMove(a, x, y, b, s);
    }
  }

  lemma StartMovesAtMost(tag: string, a: string, x: string, y: string, b: string, mounts: seq<string>)
    requires InField(x, y) && tag <= x && tag <= y && NoneMentions(mounts, tag)
    ensures var s, s' := FirstStart(a + x + b, mounts), FirstStart(a + y + b, mounts);
      s < |a + x + b| ==> Outside(a, x, b, s) && s' <= Moved(a, x, y, s) && s' < |a + y + b|
  {
    var s := FirstStart(a + x + b, mounts);
    if s < |a + x + b| {
      StartOutside(a, x, b, mounts, s);
      MatchMovesBack(tag, a, x, y, b, mounts, s);
      FirstStartIsFirst(a + y + b, mounts, Moved(a, x, y, s));
    }
  }

  lemma FirstStartMoves(tag: string, a: string, x: string, y: string, b: string, mounts: seq<string>)
    requires InField(x, y) && tag <= x && tag <= y && NoneMentions(mounts, tag)
    ensures var l, l' := a + x + b, a + y + b; var s, s' := FirstStart(l, mounts), FirstStart(l', mounts);
      && (s == |l| <==> s' == |l'|)
      && (s < |l| ==> Outside(a, x, b, s) && s' == Moved(a, x, y, s))
  {
    StartMovesAtMost(tag, a, x, y, b, mounts);
    StartMovesAtMost(tag, a, y, x, b, mounts);
  }

  lemma FirstStartIsFirst(l: string, mounts: seq<string>, k: nat)
    requires FieldsMatch(l, mounts, k)
    ensures FirstStart(l, mounts) <= k < |l|
  {
  }

  lemma MatchMovesBack(tag: string, a: string, x: string, y: string, b: string, mounts: seq<string>, k: nat)
    requires InField(x, y) && tag <= x && tag <= y && NoneMentions(mounts, tag)
    ensures FieldsMatch(a + x + b, mounts, k) ==> FieldsMatch(a + y + b, mounts, Moved(a, x, y, k))
  {
    var l := a + x + b;
    if |a| < k < |a| + |x| {
      forall n | |a| <= n <= k ensures !Blank(l[n]) {
        assert l[n] == x[n - |a|];
      }
      SameField(l, mounts, |a|, k);
      FieldsMove(tag, a, x, y, b, mounts, |a|);
    } else if k <= |l| {
      FieldsMove(tag, a, x, y, b, mounts, k);
    }
  }

  lemma StartOutside(a: string, x: string, b: string, mounts: seq<string>, s: nat)
    requires x != "" && NoBlank(x)
    requires FieldsMatch(a + x + b, mounts, s) && forall k: nat :: k < s ==> !FieldsMatch(a + x + b, mounts, k)
    ensures Outside(a, x, b, s)
  {
    var l := a + x + b;
    if |a| < s < |a| + |x| {
      forall n | |a| <= n <= s ensures !Blank(l[n]) {
        assert l[n] == x[n - |a|];
      }
      SameField(l, mounts, |a|, s);
    }
  }

  lemma RunEndMonotone(l: string, i: nat, j: nat, blank: bool)
    requires i <= j <= |l|
    ensures RunEnd(l, i, blank) <= RunEnd(l, j, blank)
  {
    RunEndIs(l, i, blank);
    RunEndIs(l, j, blank);
  }

  lemma RunEndsMonotone(l: string, i: nat, j: nat)
    requires i <= j <= |l|
    ensures RunEnds(l, i).e3 <= RunEnds(l, j).e3 && RunEnds(l, i).e5 <= RunEnds(l, j).e5
  {
    var g, h := RunEnds(l, i), RunEnds(l, j);
    RunEndMonotone(l, i, j, false);
    RunEndMonotone(l, g.e1, h.e1, true);
    RunEndMonotone(l, g.e2, h.e2, false);
    RunEndMonotone(l, g.e3, h.e3, true);
    RunEndMonotone(l, g.e4, h.e4, false);
  }

  lemma FirstStartKept(a: string, x: string, y: string, b: string, mounts: seq<string>)
    requires InField(x, y)
    requires var s := FirstStart(a + x + b, mounts); s <= |a| && RunEnds(a + x + b, s).e3 <= |a|
    ensures FirstStart(a + y + b, mounts) == FirstStart(a + x + b, mounts)
  {
    var l, l' := a + x + b, a + y + b;
    var s, s' := FirstStart(l, mounts), FirstStart(l', mounts);
    FieldsMove(x, a, x, y, b, mounts, s);
    FirstStartIsFirst(l', mounts, s);
    RunEndsMonotone(l, s', s);
    FieldsMove(x, a, x, y, b, mounts, s');
    FirstStartIsFirst(l, mounts, s');
  }

  lemma InsertShape(l: string, e: nat, tag: string)
    requires 0 < e <= |l|
    ensures l[..e - 1] + [l[e - 1]] + l[e..] == l
    ensures l[..e - 1] + ([l[e - 1]] + tag) + l[e..] == l[..e] + tag + l[e..]
  {
  }

  lemma WordGrows(c: char, tail: string)
    requires !Blank(c) && NoBlank(tail)
    ensures InField([c], [c] + tail)
  {
  }

  lemma MountBeforeEnd(l: string, mounts: seq<string>, s: nat)
    requires FieldsMatch(l, mounts, s)
    ensures s < RunEnds(l, s).e3 < LastEnd(mounts, RunEnds(l, s))
  {
  }

  lemma StartGrows(a: string, x: string, y: string, b: string, mounts: seq<string>, s: nat)
    requires InField(x, y) && |x| == 1 && FieldsMatch(a + x + b, mounts, s)
    requires s == FirstStart(a + x + b, mounts) && LastEnd(mounts, RunEnds(a + x + b, s)) == |a| + 1
    ensures s == FirstStart(a + y + b, mounts) <= |a| && LastEnd(mounts, RunEnds(a + y + b, s)) == |a| + |y|
  {
    MountBeforeEnd(a + x + b, mounts, s);
    FirstStartKept(a, x, y, b, mounts);
    RunEndsMove(a, x, y, b, s);
    assert LastEnd(mounts, MovedGroups(a, x, y, RunEnds(a + x + b, s))) == Moved(a, x, y, |a| + 1);
  }

  lemma EndAtStart(l: string, mounts: seq<string>, s: nat, e: nat)
    requires s == FirstStart(l, mounts) < |l| && e == LastEnd(mounts, RunEnds(l, s))
    ensures MatchEnd(l, mounts) == Some(e)
  {
  }

  lemma StartOfEnd(l: string, mounts: seq<string>, s: nat, e: nat)
    requires MatchEnd(l, mounts) == Some(e) && s == FirstStart(l, mounts)
    ensures FieldsMatch(l, mounts, s) && LastEnd(mounts, RunEnds(l, s)) == e
  {
  }

  /** A match grows with its last character. */
  lemma MatchGrows(a: string, x: string, y: string, b: string, mounts: seq<string>)
    requires InField(x, y) && |x| == 1
    requires MatchEnd(a + x + b, mounts) == Some(|a| + 1)
    ensures MatchEnd(a + y + b, mounts) == Some(|a| + |y|)
  {
    var s := FirstStart(a + x + b, mounts);
    StartOfEnd(a + x + b, mounts, s, |a| + 1);
    StartGrows(a, x, y, b, mounts, s);
    EndAtStart(a + y + b, mounts, s, |a| + |y|);
  }

  /** An insertion behind a word lengthens its last character. */
  lemma LastChar(tag: string, l: string, l': string, e: nat) returns (a: string, x: string, y: string, b: string)
    requires 0 < e <= |l| && !Blank(l[e - 1]) && NoBlank(tag) && l' == l[..e] + tag + l[e..]
    ensures InField(x, y) && |a| == e - 1 && |x| == 1 && |y| == 1 + |tag|
    ensures l == a + x + b && l' == a + y + b
  {
    a, x, y, b := l[..e - 1], [l[e - 1]], [l[e - 1]] + tag, l[e..];
    WordGrows(l[e - 1], tag);
    InsertShape(l, e, tag);
  }

  lemma InsertedAt(tag: string, l: string, l': string, e: nat, mounts: seq<string>)
    requires MatchEnd(l, mounts) == Some(e) && l' == Inserted(tag, l, mounts)
    ensures 0 < e <= |l| && !Blank(l[e - 1]) && l' == l[..e] + tag + l[e..]
  {
  }

  lemma GrowsTo(l: string, l': string, e: nat, n: nat, a: string, x: string, y: string, b: string, mounts: seq<string>)
    requires InField(x, y) && |x| == 1 && l == a + x + b && l' == a + y + b && |a| == e - 1 && |y| == 1 + n
    ensures MatchEnd(l, mounts) == Some(e) ==> MatchEnd(l', mounts) == Some(e + n)
  {
    if MatchEnd(l, mounts) == Some(e) {
      MatchGrows(a, x, y, b, mounts);
    }
  }

  lemma OneLonger(tag: string, l: string, l': string, e: nat, mounts: seq<string>)
    requires 0 < e <= |l| && !Blank(l[e - 1]) && NoBlank(tag) && l' == l[..e] + tag + l[e..]
    ensures MatchEnd(l, mounts) == Some(e) ==> MatchEnd(l', mounts) == Some(e + |tag|)
  {
    var a, x, y, b := LastChar(tag, l, l', e);
    GrowsTo(l, l', e, |tag|, a, x, y, b, mounts);
  }

  /** The edited line matches where the line did: nothing in front of the options has changed. */
  lemma InsertedMatch(tag: string, l: string, l': string, e: nat, mounts: seq<string>)
    requires NoBlank(tag)
    requires MatchEnd(l, mounts) == Some(e) && l' == Inserted(tag, l, mounts)
    ensures MatchEnd(l', mounts) == Some(e + |tag|)
  {
    InsertedAt(tag, l, l', e, mounts);
    OneLonger(tag, l, l', e, mounts);
  }

  // ---------- runs of tags ----------

  lemma FirstTagUnique(tag: string, l: string, p: nat)
    requires TagAt(tag, l, p) && forall k: nat :: k < p ==> !TagAt(tag, l, k)
    ensures FirstTag(tag, l) == p
  {
  }

  lemma {:induction false} TagsEndIsWord(tag: string, l: string, i: nat)
    requires IsTag(tag) && i <= |l|
    ensures NoBlank(l[i..TagsEnd(tag, l, i)])
    ensures TagAt(tag, l, i) ==> i + |tag| <= TagsEnd(tag, l, i)
    decreases |l| - i
  {
    if !TagAt(tag, l, i) {
    } else {
      TagsEndIsWord(tag, l, i + |tag|);
      var r := TagsEnd(tag, l, i);
      assert l[i..r] == l[i..i + |tag|] + l[i + |tag|..r];
    }
  }

  /** Collapsing cuts the first run of tags, x, down to one tag. */
  lemma CollapsedShape(tag: string, l: string, p: nat, r: nat)
    requires IsTag(tag) && p == FirstTag(tag, l) < |l| && r == TagsEnd(tag, l, p)
    ensures p + |tag| <= r <= |l| && tag <= l[p..r] && NoBlank(l[p..r])
    ensures l == l[..p] + l[p..r] + l[r..]
    ensures Collapsed(tag, l) == l[..p] + tag + l[r..]
  {
    TagsEndIsWord(tag, l, p);
    PrefixOfSlice(tag, l, p, r);
    ThreeParts(l, p, r);
  }

  lemma ThreeParts(l: string, p: nat, r: nat)
    requires p <= r <= |l|
    ensures l == l[..p] + l[p..r] + l[r..]
  {
  }

  lemma PrefixOfSlice(tag: string, l: string, p: nat, r: nat)
    requires TagAt(tag, l, p) && p + |tag| <= r <= |l|
    ensures tag <= l[p..r]
  {
    assert l[p..r][..|tag|] == l[p..p + |tag|];
  }

  lemma TagAtShift(tag: string, a: string, b: string, a': string, i: nat)
    ensures TagAt(tag, a' + b, |a'| + i) <==> TagAt(tag, a + b, |a| + i)
  {
    if i + |tag| <= |b| {
      assert (a + b)[|a| + i..|a| + i + |tag|] == b[i..i + |tag|];
      assert (a' + b)[|a'| + i..|a'| + i + |tag|] == b[i..i + |tag|];
    }
  }

  /** Same characters up to the end of a tag at k, same answer at k. */
  lemma TagAtPrefix(tag: string, l: string, l': string, n: nat, k: nat)
    requires n <= |l| && n <= |l'| && l[..n] == l'[..n] && k + |tag| <= n
    ensures TagAt(tag, l, k) <==> TagAt(tag, l', k)
  {
    assert l[k..k + |tag|] == l[..n][k..k + |tag|];
    assert l'[k..k + |tag|] == l'[..n][k..k + |tag|];
  }

  /** After collapsing, the first run of tags is a single one. */
  lemma CollapsedTags(tag: string, l: string, p: nat, r: nat, m: string)
    requires IsTag(tag) && p == FirstTag(tag, l) < |l| && r == TagsEnd(tag, l, p) && m == Collapsed(tag, l)
    ensures FirstTag(tag, m) == p && p + |tag| <= |m| && TagsEnd(tag, m, p) == p + |tag|
  {
    CollapsedShape(tag, l, p, r);
    CollapsedFirst(tag, l, p, m, l[r..]);
    assert l[..r] + l[r..] == l;
    TagAtShift(tag, l[..r], l[r..], l[..p] + tag, 0);
  }

  lemma CollapsedFirst(tag: string, l: string, p: nat, m: string, b: string)
    requires tag != "" && p == FirstTag(tag, l) < |l| && m == l[..p] + tag + b
    ensures FirstTag(tag, m) == p && TagAt(tag, m, p)
  {
    var q := p + |tag|;
    assert m[..q] == l[..p] + tag == l[..q];
    forall k: nat | k <= p ensures TagAt(tag, m, k) <==> TagAt(tag, l, k) {
      TagAtPrefix(tag, l, m, q, k);
    }
    FirstTagUnique(tag, m, p);
  }

  lemma CollapsedOnce(tag: string, m: string)
    requires tag != "" && (FirstTag(tag, m) < |m| ==> TagsEnd(tag, m, FirstTag(tag, m)) == FirstTag(tag, m) + |tag|)
    ensures Collapsed(tag, m) == m
  {
    var p := FirstTag(tag, m);
    if p < |m| {
      AroundTag(tag, m, p);
    }
  }

  lemma {:induction false} TagsEndOfRun(tag: string, l: string, a: string, n: nat, b: string)
    requires IsTag(tag) && !(tag <= b) && l == a + Repeat(tag, n) + b
    ensures TagsEnd(tag, l, |a|) == |a| + |Repeat(tag, n)|
    decreases n
  {
    if n == 0 {
      assert l[|a|..] == b;
      assert |tag| <= |b| ==> l[|a|..|a| + |tag|] == b[..|tag|];
    } else {
      assert l == (a + tag) + Repeat(tag, n - 1) + b;
      assert l[|a|..|a| + |tag|] == tag;
      TagsEndOfRun(tag, l, a + tag, n - 1, b);
    }
  }

  /** Collapsing turns the first run of tags, whatever their number, into one tag, and keeps what
      is before and behind it. */
  lemma CollapsedRun(tag: string, l: string, a: string, n: nat, b: string)
    requires IsTag(tag) && n >= 1 && !(tag <= b) && l == a + Repeat(tag, n) + b
    requires forall k: nat :: k < |a| ==> !TagAt(tag, l, k)
    ensures Collapsed(tag, l) == a + tag + b
  {
    TagsEndOfRun(tag, l, a, n, b);
    assert Repeat(tag, n) == tag + Repeat(tag, n - 1);
    assert l[|a|..|a| + |tag|] == tag;
    FirstTagUnique(tag, l, |a|);
    assert l[..|a|] == a && l[|a| + |Repeat(tag, n)|..] == b;
  }

  lemma AroundTag(tag: string, m: string, p: nat)
    requires TagAt(tag, m, p)
    ensures m[..p] + tag + m[p + |tag|..] == m
  {
  }

  /** How collapsing moves the match. */
  lemma CollapsedMatch(tag: string, l: string, p: nat, r: nat, m: string, mounts: seq<string>)
    requires IsTag(tag) && NoneMentions(mounts, tag)
    requires p == FirstTag(tag, l) < |l| && r == TagsEnd(tag, l, p) && m == Collapsed(tag, l)
    ensures var e, e' := MatchEnd(l, mounts), MatchEnd(m, mounts);
      && (e.None? <==> e'.None?)
      && (e.Some? ==> e.value <= p || r <= e.value)
      && (e.Some? ==> e'.value == if e.value <= p then e.value else e.value - (r - p) + |tag|)
  {
    CollapsedShape(tag, l, p, r);
    MatchMoves(tag, l[..p], l[p..r], tag, l[r..], mounts);
  }

  // ---------- a tag more at the end of a field ----------

  ghost predicate FieldEnd(l: string, e: nat) {
    0 < e <= |l| && (e < |l| ==> Blank(l[e]))
  }

  /** Inserting a tag at the end of a field adds that tag only. */
  lemma InsertedTagAt(tag: string, l: string, l': string, e: nat, k: nat)
    requires IsTag(tag) && FieldEnd(l, e) && l' == l[..e] + tag + l[e..] && k <= e + |tag|
    ensures TagAt(tag, l', k) <==> k == e || (k < e && TagAt(tag, l, k))
    ensures k <= e && TagAt(tag, l, k) ==> k + |tag| <= e
  {
    assert l'[e..e + |tag|] == tag;
    assert TagAt(tag, l', e);
    assert e < |l| ==> l'[e + |tag|] == l[e];
    if k + |tag| <= e {
      assert l'[..e] == l[..e];
      TagAtPrefix(tag, l, l', e, k);
    } else {
      if k <= e && TagAt(tag, l, k) {
        TagHasNoBlank(tag, l, k, if k < e then e else k);
      }
      if k != e && TagAt(tag, l', k) {
        if k < e {
          TagsApart(tag, l', k, e);
        } else {
          TagsApart(tag, l', e, k);
          TagHasNoBlank(tag, l', k, k);
        }
      }
    }
  }

  /** The tags of l up to e, one more at e, and none right behind it. */
  ghost predicate OneMoreTag(tag: string, l: string, l': string, e: nat) {
    e <= |l| && e + |tag| <= |l'| &&
    forall k: nat {:trigger TagAt(tag, l, k)} {:trigger TagAt(tag, l', k)} :: k <= e + |tag| ==>
      && (TagAt(tag, l', k) <==> k == e || (k < e && TagAt(tag, l, k)))
      && (k <= e && TagAt(tag, l, k) ==> k + |tag| <= e)
  }

  lemma {:induction false} MoreTagsEnd(tag: string, l: string, l': string, e: nat, i: nat)
    requires tag != "" && OneMoreTag(tag, l, l', e) && i <= e
    ensures TagsEnd(tag, l, i) <= e
    ensures TagsEnd(tag, l', i) == if TagsEnd(tag, l, i) == e then e + |tag| else TagsEnd(tag, l, i)
    decreases e - i
  {
    if i == e {
      TagsEndStops(tag, l, e);
      TagsEndStops(tag, l', e + |tag|);
    } else if TagAt(tag, l, i) {
      MoreTagsEnd(tag, l, l', e, i + |tag|);
    } else {
      TagsEndStops(tag, l, i);
    }
  }

  lemma InsertedTagsEnd(tag: string, l: string, l': string, e: nat, i: nat)
    requires IsTag(tag) && FieldEnd(l, e) && l' == l[..e] + tag + l[e..] && i <= e
    ensures TagsEnd(tag, l, i) <= e
    ensures TagsEnd(tag, l', i) == if TagsEnd(tag, l, i) == e then e + |tag| else TagsEnd(tag, l, i)
  {
    forall k: nat | k <= e + |tag|
      ensures TagAt(tag, l', k) <==> k == e || (k < e && TagAt(tag, l, k))
      ensures k <= e && TagAt(tag, l, k) ==> k + |tag| <= e
    {
      InsertedTagAt(tag, l, l', e, k);
    }
    MoreTagsEnd(tag, l, l', e, i);
  }

  lemma TagsEndStops(tag: string, l: string, i: nat)
    requires tag != "" && i <= |l| && !TagAt(tag, l, i)
    ensures TagsEnd(tag, l, i) == i
  {
  }

  lemma InsertedFirst(tag: string, l: string, l': string, e: nat)
    requires IsTag(tag) && FieldEnd(l, e) && l' == l[..e] + tag + l[e..]
    ensures FirstTag(tag, l') == if FirstTag(tag, l) < e then FirstTag(tag, l) else e
  {
    var p := FirstTag(tag, l);
    var q := if p < e then p else e;
    forall k: nat | k <= q ensures TagAt(tag, l', k) <==> k == q {
      InsertedTagAt(tag, l, l', e, k);
    }
    FirstTagUnique(tag, l', q);
  }

  /** Nothing that looks like the tag comes before the run of tags that ends at e: the first
      one, if any, is behind e or starts a run up to e. */
  predicate OnlyAtEnd(tag: string, l: string, e: nat)
    requires tag != ""
  {
    FirstTag(tag, l) >= e || TagsEnd(tag, l, FirstTag(tag, l)) == e
  }

  /** The first run of tags after an insertion at e. */
  lemma InsertedRun(tag: string, l: string, l': string, e: nat, p: nat, r: nat)
    requires IsTag(tag) && FieldEnd(l, e) && l' == l[..e] + tag + l[e..]
    requires p == FirstTag(tag, l') && r == TagsEnd(tag, l', p)
    ensures p == (if FirstTag(tag, l) < e then FirstTag(tag, l) else e) < |l'|
    ensures r <= e || r == e + |tag|
    ensures r == e + |tag| <==> OnlyAtEnd(tag, l, e)
    ensures p < e && r <= e ==> r == TagsEnd(tag, l, p)
  {
    InsertedFirst(tag, l, l', e);
    InsertedTagsEnd(tag, l, l', e, p);
    InsertedTagAt(tag, l, l', e, e);
  }

  /** A second insertion at the single tag that ends the field is collapsed away. */
  lemma SecondTagGoes(tag: string, m: string, m': string, e: nat)
    requires IsTag(tag) && FieldEnd(m, e) && m' == m[..e] + tag + m[e..]
    requires var p := FirstTag(tag, m); p + |tag| == e && TagsEnd(tag, m, p) == e
    ensures Collapsed(tag, m') == m
  {
    var p := FirstTag(tag, m);
    InsertedRun(tag, m, m', e, FirstTag(tag, m'), TagsEnd(tag, m', FirstTag(tag, m')));
    CollapsedShape(tag, m', p, e + |tag|);
    CutBack(tag, m, m', e, p);
  }

  lemma CutBack(tag: string, m: string, m': string, e: nat, p: nat)
    requires e <= |m| && m' == m[..e] + tag + m[e..] && p + |tag| == e && TagAt(tag, m, p)
    ensures m'[..p] + tag + m'[e + |tag|..] == m
  {
    assert m'[..p] == m[..p];
    assert m'[e + |tag|..] == m[e..];
    assert m == m[..p] + m[p..e] + m[e..];
  }

  /** A second insertion behind an earlier single tag stays. */
  lemma SecondTagStays(tag: string, m: string, m': string, e: nat)
    requires IsTag(tag) && FieldEnd(m, e) && m' == m[..e] + tag + m[e..]
    requires var p := FirstTag(tag, m); p < e && p + |tag| != e && TagsEnd(tag, m, p) == p + |tag|
    ensures Collapsed(tag, m') == m'
  {
    InsertedRun(tag, m, m', e, FirstTag(tag, m'), TagsEnd(tag, m', FirstTag(tag, m')));
    CollapsedOnce(tag, m');
  }

  // ---------- both substitutions ----------

  /** What a caller can check on a line before the edit: the option, and what looks like it, is
      nowhere before the run that ends the mount options. */
  predicate Repeatable(tag: string, l: string, mounts: seq<string>)
    requires tag != ""
  {
    match MatchEnd(l, mounts)
    case None => true
    case Some(e) => OnlyAtEnd(tag, l, e)
  }

  /** Where the match ends after a pass; the first run of tags, p to r, has become one tag. */
  lemma PassMatch(tag: string, l: string, l': string, m: string, e: nat, p: nat, r: nat, mounts: seq<string>)
    requires IsTag(tag) && NoneMentions(mounts, tag) && MatchEnd(l, mounts) == Some(e)
    requires l' == Inserted(tag, l, mounts) && m == Collapsed(tag, l')
    requires p == FirstTag(tag, l') < |l'| && r == TagsEnd(tag, l', p) && p <= e
    ensures r <= e + |tag| && MatchEnd(m, mounts) == Some(e + |tag| - (r - p) + |tag|)
  {
    InsertedMatch(tag, l, l', e, mounts);
    CollapsedMatch(tag, l', p, r, m, mounts);
  }

  lemma PassOfMatch(tag: string, l: string, l': string, m: string, e: nat, mounts: seq<string>)
    requires IsTag(tag) && NoneMentions(mounts, tag) && MatchEnd(l, mounts) == Some(e)
    requires l' == Inserted(tag, l, mounts) && m == Collapsed(tag, l')
    ensures MatchEnd(m, mounts).Some? && (OnlyAtEnd(tag, m, MatchEnd(m, mounts).value) <==> OnlyAtEnd(tag, l, e))
    ensures var p := FirstTag(tag, m); p < MatchEnd(m, mounts).value && TagsEnd(tag, m, p) == p + |tag|
  {
    var p := FirstTag(tag, l');
    var r := TagsEnd(tag, l', p);
    InsertedRun(tag, l, l', e, p, r);
    PassMatch(tag, l, l', m, e, p, r, mounts);
    CollapsedTags(tag, l', p, r, m);
  }

  lemma PassKeepsRepeatable(tag: string, l: string, l': string, m: string, mounts: seq<string>)
    requires IsTag(tag) && NoneMentions(mounts, tag)
    requires l' == Inserted(tag, l, mounts) && m == Collapsed(tag, l')
    ensures MatchEnd(m, mounts).None? <==> MatchEnd(l, mounts).None?
    ensures Repeatable(tag, m, mounts) <==> Repeatable(tag, l, mounts)
    ensures MatchEnd(m, mounts).Some? ==>
      var p := FirstTag(tag, m); p < MatchEnd(m, mounts).value && TagsEnd(tag, m, p) == p + |tag|
  {
    match MatchEnd(l, mounts)
    case Some(e) =>
      PassOfMatch(tag, l, l', m, e, mounts);
    case None =>
      var p := FirstTag(tag, l);
      if p < |l| {
        CollapsedMatch(tag, l, p, TagsEnd(tag, l, p), m, mounts);
      }
  }

  /** In a line that a pass has made, an option comes before the end of the match. */
  lemma EarlyTag(tag: string, l: string, l': string, m: string, e: nat, mounts: seq<string>)
    requires IsTag(tag) && l' == Inserted(tag, l, mounts) && m == Collapsed(tag, l')
    requires MatchEnd(m, mounts) == Some(e)
    ensures FirstTag(tag, m) < e && TagsEnd(tag, m, FirstTag(tag, m)) == FirstTag(tag, m) + |tag|
  {
    var p := FirstTag(tag, l');
    if MatchEnd(l, mounts).Some? {
      InsertedFirst(tag, l, l', MatchEnd(l, mounts).value);
    }
    assert p < |l'|;
    CollapsedTags(tag, l', p, TagsEnd(tag, l', p), m);
    if p >= e {
      MatchBeforeTag(tag, l', p, m, e, mounts);
      if MatchEnd(l, mounts).Some? {
        InsertedMatch(tag, l, l', MatchEnd(l, mounts).value, mounts);
      }
    }
  }

  /** A match that ends in front of the changed text stays. */
  lemma MatchKept(a: string, x: string, y: string, b: string, e: nat, mounts: seq<string>)
    requires InField(x, y) && MatchEnd(a + x + b, mounts) == Some(e) && e <= |a|
    ensures MatchEnd(a + y + b, mounts) == Some(e)
  {
    var s := FirstStart(a + x + b, mounts);
    assert FieldsMatch(a + x + b, mounts, s);
    FirstStartKept(a, x, y, b, mounts);
    RunEndsMove(a, x, y, b, s);
  }

  /** A match in front of the first run of tags is not touched by collapsing the run. */
  lemma MatchBeforeTag(tag: string, l: string, p: nat, m: string, e: nat, mounts: seq<string>)
    requires IsTag(tag) && p == FirstTag(tag, l) < |l| && m == Collapsed(tag, l)
    requires MatchEnd(m, mounts) == Some(e) && e <= p
    ensures MatchEnd(l, mounts) == Some(e) && e < p
  {
    var r := TagsEnd(tag, l, p);
    CollapsedShape(tag, l, p, r);
    CollapsedFirst(tag, l, p, m, l[r..]);
    if e == p {
      TagHasNoBlank(tag, m, p, p);
    }
    MatchKept(l[..p], tag, l[p..r], l[r..], e, mounts);
  }

  /** What a caller can check with one pass: the edited line matches nowhere, or its first
      option ends the mount options. */
  predicate Settles(tag: string, l: string, mounts: seq<string>)
    requires tag != ""
  {
    var m := PassWith(tag, l, mounts);
    match MatchEnd(m, mounts)
    case None => true
    case Some(e) => FirstTag(tag, m) + |tag| == e
  }

  /** A line with a match at e whose first option is a single one somewhere before. */
  ghost predicate Stuck(tag: string, m: string, e: nat, mounts: seq<string>)
    requires tag != ""
  {
    && MatchEnd(m, mounts) == Some(e)
    && FirstTag(tag, m) < e && FirstTag(tag, m) + |tag| != e
    && TagsEnd(tag, m, FirstTag(tag, m)) == FirstTag(tag, m) + |tag|
  }

  lemma PassOverSettled(tag: string, l: string, l': string, m: string, mounts: seq<string>)
    requires IsTag(tag) && l' == Inserted(tag, l, mounts) && m == Collapsed(tag, l')
    requires MatchEnd(m, mounts).Some? ==> FirstTag(tag, m) + |tag| == MatchEnd(m, mounts).value
    ensures Collapsed(tag, Inserted(tag, m, mounts)) == m
  {
    match MatchEnd(m, mounts)
    case Some(e) =>
      EarlyTag(tag, l, l', m, e, mounts);
      SecondTagGoes(tag, m, Inserted(tag, m, mounts), e);
    case None =>
      var p := FirstTag(tag, l');
      if p < |l'| {
        CollapsedTags(tag, l', p, TagsEnd(tag, l', p), m);
      }
      CollapsedOnce(tag, m);
  }

  /** A pass over a stuck line only inserts, and the line stays stuck. */
  lemma PassOverStuck(tag: string, m: string, m': string, e: nat, mounts: seq<string>)
    requires IsTag(tag) && Stuck(tag, m, e, mounts) && m' == m[..e] + tag + m[e..]
    ensures PassWith(tag, m, mounts) == m' && Stuck(tag, m', e + |tag|, mounts)
  {
    SecondTagStays(tag, m, m', e);
    InsertedMatch(tag, m, m', e, mounts);
    InsertedRun(tag, m, m', e, FirstTag(tag, m'), TagsEnd(tag, m', FirstTag(tag, m')));
  }

  lemma UnsettledIsStuck(tag: string, l: string, m: string, mounts: seq<string>)
    requires IsTag(tag) && m == PassWith(tag, l, mounts) && !Settles(tag, l, mounts)
    ensures MatchEnd(m, mounts).Some? && Stuck(tag, m, MatchEnd(m, mounts).value, mounts)
  {
    EarlyTag(tag, l, Inserted(tag, l, mounts), m, MatchEnd(m, mounts).value, mounts);
  }

  lemma PassTwiceWith(tag: string, l: string, m: string, mounts: seq<string>)
    requires IsTag(tag) && m == PassWith(tag, l, mounts)
    ensures PassWith(tag, m, mounts) == m <==> Settles(tag, l, mounts)
  {
    if Settles(tag, l, mounts) {
      PassOverSettled(tag, l, Inserted(tag, l, mounts), m, mounts);
    } else {
      UnsettledIsStuck(tag, l, m, mounts);
      var e := MatchEnd(m, mounts).value;
      PassOverStuck(tag, m, m[..e] + tag + m[e..], e, mounts);
    }
  }

  /** Two passes over a line equal one exactly when the line settles, whatever the mount points. */
  lemma PassTwiceIff(l: string, mounts: seq<string>)
    ensures Pass(Pass(l, mounts), mounts) == Pass(l, mounts) <==> Settles(OPTION, l, mounts)
  {
    OptionIsTag();
    PassTwiceWith(OPTION, l, Pass(l, mounts), mounts);
  }

  /** When no mount point mentions the option, the line itself shows whether it settles. */
  lemma SettlesIff(tag: string, l: string, mounts: seq<string>)
    requires IsTag(tag) && NoneMentions(mounts, tag)
    ensures Settles(tag, l, mounts) <==> Repeatable(tag, l, mounts)
  {
    PassKeepsRepeatable(tag, l, Inserted(tag, l, mounts), PassWith(tag, l, mounts), mounts);
  }

  /** So the line alone shows whether two passes over it equal one. */
  lemma RepeatableIff(l: string, mounts: seq<string>)
    requires NoneMentions(mounts, OPTION)
    ensures Pass(Pass(l, mounts), mounts) == Pass(l, mounts) <==> Repeatable(OPTION, l, mounts)
  {
    OptionIsTag();
    SettlesIff(OPTION, l, mounts);
    PassTwiceIff(l, mounts);
  }

  function PassOf(mounts: seq<string>): string -> string {
    l => Pass(l, mounts)
  }

  lemma PassOfTwiceIff(l: string, mounts: seq<string>)
    ensures PassOf(mounts)(PassOf(mounts)(l)) == PassOf(mounts)(l) <==> Settles(OPTION, l, mounts)
  {
    PassTwiceIff(l, mounts);
  }

  /** Any number of passes over a line that settles is one pass. */
  lemma PassesAreOne(l: string, mounts: seq<string>, n: nat)
    requires n >= 1 && Settles(OPTION, l, mounts)
    ensures Iterate(PassOf(mounts), l, n) == PassOf(mounts)(l)
  {
    PassOfTwiceIff(l, mounts);
    IterateOnce(PassOf(mounts), l, n);
  }

  ghost function StuckOn(tag: string, mounts: seq<string>): (string, nat) -> bool
    requires tag != ""
  {
    (l: string, e: nat) => Stuck(tag, l, e, mounts)
  }

  lemma PassInserts(f: string -> string, tag: string, l: string, e: nat, mounts: seq<string>)
    requires IsTag(tag) && f(l) == PassWith(tag, l, mounts)
    ensures InsertsAt(f, StuckOn(tag, mounts), tag, l, e)
  {
    if Stuck(tag, l, e, mounts) {
      PassOverStuck(tag, l, l[..e] + tag + l[e..], e, mounts);
    }
  }

  /** A line that does not settle still matches after a pass, and stays stuck there. */
  lemma StuckAfterPass(l: string, mounts: seq<string>)
    requires !Settles(OPTION, l, mounts)
    ensures var m := PassOf(mounts)(l);
      MatchEnd(m, mounts).Some? && StuckOn(OPTION, mounts)(m, MatchEnd(m, mounts).value)
  {
    OptionIsTag();
    UnsettledIsStuck(OPTION, l, PassOf(mounts)(l), mounts);
  }

  /** Every further pass over any other line puts one more option behind its mount options. */
  lemma PassesGrow(l: string, mounts: seq<string>, n: nat)
    requires n >= 1 && !Settles(OPTION, l, mounts)
    ensures var m := PassOf(mounts)(l); var end := MatchEnd(m, mounts);
      && end.Some?
      && Iterate(PassOf(mounts), l, n) == m[..end.value] + Repeat(OPTION, n - 1) + m[end.value..]
  {
    OptionIsTag();
    StuckAfterPass(l, mounts);
    forall x, k: nat ensures InsertsAt(PassOf(mounts), StuckOn(OPTION, mounts), OPTION, x, k) {
      PassInserts(PassOf(mounts), OPTION, x, k, mounts);
    }
    IterateInsertsAfter(PassOf(mounts), StuckOn(OPTION, mounts), OPTION, l, MatchEnd(PassOf(mounts)(l), mounts).value, n);
  }

  /** A repeatable line that matches keeps every character but the options at the end of its
      mount options, which become one; no option comes before that one. */
  lemma PassContent(l: string, mounts: seq<string>, e: nat, q: nat)
    requires MatchEnd(l, mounts) == Some(e) && OnlyAtEnd(OPTION, l, e)
    requires q == if FirstTag(OPTION, l) < e then FirstTag(OPTION, l) else e
    ensures Pass(l, mounts) == l[..q] + OPTION + l[e..]
    ensures TagsEnd(OPTION, l, q) == e
    ensures forall k: nat :: k < q ==> !TagAt(OPTION, Pass(l, mounts), k)
  {
    OptionIsTag();
    var l' := Inserted(OPTION, l, mounts);
    var r := TagsEnd(OPTION, l', q);
    InsertedRun(OPTION, l, l', e, FirstTag(OPTION, l'), TagsEnd(OPTION, l', FirstTag(OPTION, l')));
    CollapsedShape(OPTION, l', q, r);
    CollapsedTags(OPTION, l', q, r, Pass(l, mounts));
    InsertedTagAt(OPTION, l, l', e, e);
    AroundInsertion(l, l', OPTION, e, q);
  }

  lemma AroundInsertion(l: string, l': string, tag: string, e: nat, q: nat)
    requires q <= e <= |l| && l' == l[..e] + tag + l[e..]
    ensures l'[..q] == l[..q] && l'[e + |tag|..] == l[e..]
  {
  }

  // ---------- the file ----------

  /** The alternatives of the pattern; an unset variable gives one that no fstab has, and one of
      blanks only the empty alternative. */
  function MountPoints(variable: string): seq<string> {
    if variable == "" then ["no-such-mount-point"]
    else if Words(variable) == [] then EMPTY
    else Words(variable)
  }

  lemma WordsAreMountPoints(variable: string)
    ensures AreMountPoints(Words(variable))
  {
    WordsAreWords(variable);
    forall m, k | m in Words(variable) && 0 <= k < |m| ensures !Blank(m[k]) {
      assert !IsSpace(m[k]);
    }
  }

  /** The alternatives are non-empty words unless the variable is made of blanks only. */
  lemma AlternativesAreWordsIff(variable: string)
    ensures AreAlternatives(MountPoints(variable))
    ensures AreMountPoints(MountPoints(variable)) <==> variable == "" || Words(variable) != []
  {
    WordsAreMountPoints(variable);
    assert "" in EMPTY;
  }

  /** Both are lines, and either both end in a newline or neither does. */
  ghost predicate SameLine(l: string, m: string) {
    IsLine(l) && IsLine(m) && (m[|m| - 1] == '\n' <==> l[|l| - 1] == '\n')
  }

  lemma LineKept(a: string, x: string, y: string, b: string)
    requires x != "" && '\n' !in x && y != "" && '\n' !in y && IsLine(a + x + b)
    ensures SameLine(a + x + b, a + y + b)
  {
    var l, l' := a + x + b, a + y + b;
    if b == "" {
      assert l[..|l| - 1] == a + x[..|x| - 1];
      assert l'[..|l'| - 1] == a + y[..|y| - 1];
      assert l[|l| - 1] in x && l'[|l'| - 1] in y;
    } else {
      assert l[..|l| - 1] == a + x + b[..|b| - 1];
      assert l'[..|l'| - 1] == a + y + b[..|b| - 1];
    }
  }

  lemma NoBlankNoNewline(s: string)
    requires NoBlank(s)
    ensures '\n' !in s
  {
  }

  lemma InsertedIsLine(tag: string, l: string, e: nat)
    requires IsTag(tag) && IsLine(l) && 0 < e <= |l| && !Blank(l[e - 1])
    ensures SameLine(l, l[..e] + tag + l[e..])
  {
    InsertShape(l, e, tag);
    WordGrows(l[e - 1], tag);
    NoBlankNoNewline([l[e - 1]]);
    NoBlankNoNewline([l[e - 1]] + tag);
    LineKept(l[..e - 1], [l[e - 1]], [l[e - 1]] + tag, l[e..]);
  }

  lemma CollapsedIsLine(tag: string, l: string)
    requires IsTag(tag) && IsLine(l)
    ensures SameLine(l, Collapsed(tag, l))
  {
    var p := FirstTag(tag, l);
    if p < |l| {
      var r := TagsEnd(tag, l, p);
      CollapsedShape(tag, l, p, r);
      NoBlankNoNewline(l[p..r]);
      LineKept(l[..p], l[p..r], tag, l[r..]);
    }
  }

  lemma InsertionKeepsLine(l: string, l': string, mounts: seq<string>)
    requires IsLine(l) && l' == Inserted(OPTION, l, mounts)
    ensures SameLine(l, l')
  {
    match MatchEnd(l, mounts)
    case None =>
    case Some(e) =>
      OptionIsTag();
      InsertedIsLine(OPTION, l, e);
  }

  lemma PassIsLine(l: string, mounts: seq<string>)
    requires IsLine(l)
    ensures SameLine(l, Pass(l, mounts))
  {
    var l' := Inserted(OPTION, l, mounts);
    InsertionKeepsLine(l, l', mounts);
    assert SameLine(l', Collapsed(OPTION, l')) by {
      OptionIsTag();
      CollapsedIsLine(OPTION, l');
    }
  }

  lemma PassKeepsLine(l: string, mounts: seq<string>)
    ensures KeepsLine(PassOf(mounts), l)
  {
    if IsLine(l) {
      PassIsLine(l, mounts);
    }
  }

  /** Editing the file again changes nothing exactly when every line of it settles. */
  lemma EditTwiceIff(text: string, mounts: seq<string>)
    ensures var once := EditText(PassOf(mounts), text);
      EditText(PassOf(mounts), once) == once
      <==> forall k :: 0 <= k < |SplitLines(text)| ==> Settles(OPTION, SplitLines(text)[k], mounts)
  {
    var f := PassOf(mounts);
    forall l ensures KeepsLine(f, l) {
      PassKeepsLine(l, mounts);
    }
    EditTextTwiceIff(f, text);
    forall k | 0 <= k < |SplitLines(text)|
      ensures f(f(SplitLines(text)[k])) == f(SplitLines(text)[k]) <==> Settles(OPTION, SplitLines(text)[k], mounts)
    {
      PassOfTwiceIff(SplitLines(text)[k], mounts);
    }
  }

  function EditWith(script: string -> string): string -> string {
    text => EditText(script, text)
  }

  /** And then no later run over the file changes it either. */
  lemma EditsAreOne(text: string, mounts: seq<string>, n: nat)
    requires n >= 1
    requires forall k :: 0 <= k < |SplitLines(text)| ==> Settles(OPTION, SplitLines(text)[k], mounts)
    ensures Iterate(EditWith(PassOf(mounts)), text, n) == EditText(PassOf(mounts), text)
  {
    EditTwiceIff(text, mounts);
    IterateOnce(EditWith(PassOf(mounts)), text, n);
  }

  ghost predicate AllRepeatable(text: string, mounts: seq<string>) {
    forall k :: 0 <= k < |SplitLines(text)| ==> Repeatable(OPTION, SplitLines(text)[k], mounts)
  }

  /** When no mount point mentions the option, the text before the edit shows whether a second
      edit changes the file. */
  lemma EditRepeatableIff(text: string, mounts: seq<string>)
    requires NoneMentions(mounts, OPTION)
    ensures var once := EditText(PassOf(mounts), text);
      EditText(PassOf(mounts), once) == once <==> AllRepeatable(text, mounts)
  {
    OptionIsTag();
    EditTwiceIff(text, mounts);
    forall k | 0 <= k < |SplitLines(text)|
      ensures Settles(OPTION, SplitLines(text)[k], mounts) <==> Repeatable(OPTION, SplitLines(text)[k], mounts)
    {
      SettlesIff(OPTION, SplitLines(text)[k], mounts);
    }
  }

  /** And whether any number of edits leaves what the first one does. */
  lemma EditsRepeatableIff(text: string, mounts: seq<string>)
    requires NoneMentions(mounts, OPTION)
    ensures (forall n: nat :: n >= 1 ==> Iterate(EditWith(PassOf(mounts)), text, n) == EditText(PassOf(mounts), text))
       <==> AllRepeatable(text, mounts)
  {
    EditRepeatableIff(text, mounts);
    IterateOnceIff(EditWith(PassOf(mounts)), text);
  }

  class RootFs {
    /** The content of etc/fstab, if the file exists. */
    var fstab: Option<string>

    method EditFstab(variable: string)
      modifies this`fstab
      ensures fstab == match old(fstab)
        case None => None
        case Some(text) => Some(EditText(PassOf(MountPoints(variable)), text))
    {
      if fstab.Some? {
        var out := EditInPlace(PassOf(MountPoints(variable)), fstab.value);
        fstab := Some(out);
      }
    }
  }
}
