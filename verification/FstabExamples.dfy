/** Lines of four fields, and two of them that more than one pass keeps changing. */
module FstabExamples {
  import opened Text
  import opened Fstab
  import opened FstabLines

  /** Four fields with single blanks. */
  function FourFields(f0: string, f1: string, f2: string, f3: string): string {
    Print(Entry(f0, " ", f1, " ", f2, " ", f3))
  }

  lemma FirstTagAt(tag: string, l: string, a: string, b: string)
    requires IsTag(tag) && tag[0] !in a && l == a + tag + b
    ensures FirstTag(tag, l) == |a| && TagAt(tag, l, |a|)
  {
    assert l[|a|..|a| + |tag|] == tag;
    forall k: nat | k < |a| ensures !TagAt(tag, l, k) {
      assert l[k] == a[k];
      if TagAt(tag, l, k) {
        TagChar(tag, l, k, k);
      }
    }
    FirstTagUnique(tag, l, |a|);
  }

  lemma SingleTag(tag: string, l: string, a: string, b: string)
    requires IsTag(tag) && tag[0] !in a && |b| < |tag| && l == a + tag + b
    ensures FirstTag(tag, l) == |a| && TagsEnd(tag, l, |a|) == |a| + |tag|
  {
    FirstTagAt(tag, l, a, b);
    TagsEndStops(tag, l, |a| + |tag|);
  }

  lemma DoubleTag(tag: string, l: string, a: string, b: string)
    requires IsTag(tag) && tag[0] !in a && |b| < |tag| && l == a + tag + (tag + b)
    ensures Collapsed(tag, l) == a + tag + b
  {
    assert l == (a + tag + tag) + b;
    FirstTagAt(tag, l, a, tag + b);
    var i := |a| + |tag|;
    assert l[i..i + |tag|] == tag;
    TagsEndStops(tag, l, i + |tag|);
    assert TagsEnd(tag, l, i) == i + |tag|;
    assert TagsEnd(tag, l, |a|) == i + |tag|;
    assert l[..|a|] == a && l[i + |tag|..] == b;
  }

  const INSIDE: string := "d / e r,iversion,n"

  lemma InsideMatches(mounts: seq<string>)
    requires mounts == ["/"]
    ensures MatchEnd(INSIDE, mounts) == Some(|INSIDE|)
  {
    assert INSIDE == FourFields("d", "/", "e", "r,iversion,n");
    OneMatch("d", "/", "e", "r,iversion,n", INSIDE, mounts);
  }

  lemma InsideTag()
    ensures FirstTag(OPTION, INSIDE) == 7 && TagsEnd(OPTION, INSIDE, 7) == 16
  {
    OptionIsTag();
    assert INSIDE == "d / e r" + OPTION + ",n";
    SingleTag(OPTION, INSIDE, "d / e r", ",n");
  }

  lemma ShortMountMentionsNothing(mounts: seq<string>)
    requires forall m :: m in mounts ==> |m| < |OPTION|
    ensures NoneMentions(mounts, OPTION)
  {
  }

  lemma EarlierTag(tag: string, l: string, e: nat, p: nat, mounts: seq<string>)
    requires IsTag(tag) && MatchEnd(l, mounts) == Some(e) && p == FirstTag(tag, l) && TagsEnd(tag, l, p) < e
    ensures !Repeatable(tag, l, mounts)
  {
  }

  lemma InsideIsNotRepeatable(mounts: seq<string>)
    requires mounts == ["/"]
    ensures !Repeatable(OPTION, INSIDE, mounts)
  {
    InsideMatches(mounts);
    InsideTag();
    OptionIsTag();
    EarlierTag(OPTION, INSIDE, |INSIDE|, 7, mounts);
  }

  /** The option among the others: no pass is the last one. */
  lemma OptionInside(mounts: seq<string>)
    requires mounts == ["/"]
    ensures !Repeatable(OPTION, INSIDE, mounts)
    ensures Pass(Pass(INSIDE, mounts), mounts) != Pass(INSIDE, mounts)
  {
    InsideIsNotRepeatable(mounts);
    ShortMountMentionsNothing(mounts);
    RepeatableIff(INSIDE, mounts);
  }

  const MENTION: string := "d /a,iversion,iversion e o"

  const AFTER: string := "d /a,iversion e o"

  lemma NotEmpty(mount: string, mounts: seq<string>)
    requires mounts == [mount] && mount != ""
    ensures mounts != EMPTY && mount in mounts
  {
    assert mounts[0] != EMPTY[0];
  }

  lemma OneMatch(f0: string, f1: string, f2: string, f3: string, l: string, mounts: seq<string>)
    requires IsField(f0) && IsField(f1) && IsField(f2) && IsField(f3) && l == FourFields(f0, f1, f2, f3)
    requires mounts == [f1]
    ensures MatchEnd(l, mounts) == Some(|l|)
  {
    NotEmpty(f1, mounts);
    assert l == l + "";
    ListedMatch(Entry(f0, " ", f1, " ", f2, " ", f3), "", l, mounts);
  }

  lemma NoMatch(f0: string, f1: string, f2: string, f3: string, l: string, mount: string, mounts: seq<string>)
    requires IsField(f0) && IsField(f1) && IsField(f2) && IsField(f3) && l == FourFields(f0, f1, f2, f3)
    requires mounts == [mount] && 0 < |mount| < |f1|
    ensures MatchEnd(l, mounts) == None
  {
    NotEmpty(mount, mounts);
    UnlistedMatch(Entry(f0, " ", f1, " ", f2, " ", f3), l, mounts);
  }

  const MOUNT: string := "/a,iversion"

  lemma MentionFields(f: string)
    requires f == MOUNT + OPTION
    ensures MENTION == FourFields("d", f, "e", "o") && IsField(f) && 0 < |MOUNT| < |f|
  {
    OptionIsTag();
    AfterFields();
    BothAreFields(MOUNT, OPTION);
    MentionIs(f);
  }

  lemma BothAreFields(a: string, b: string)
    requires IsField(a) && IsField(b)
    ensures IsField(a + b) && |a| < |a + b|
  {
  }

  lemma MentionIs(f: string)
    requires f == MOUNT + OPTION
    ensures MENTION == FourFields("d", f, "e", "o")
  {
    assert "d" + " " + f + " " + "e" + " " + "o" == MENTION;
  }

  lemma MentionMatches(mounts: seq<string>)
    requires mounts == [MOUNT]
    ensures MatchEnd(MENTION, mounts) == None
  {
    var f := MOUNT + OPTION;
    MentionFields(f);
    assert IsField("d") && IsField("e") && IsField("o");
    NoMatch("d", f, "e", "o", MENTION, MOUNT, mounts);
  }

  lemma MentionPass(mounts: seq<string>)
    requires mounts == [MOUNT]
    ensures Repeatable(OPTION, MENTION, mounts) && Pass(MENTION, mounts) == AFTER
  {
    MentionMatches(mounts);
    MentionCollapsed();
  }

  lemma MentionShape()
    ensures MENTION == "d /a" + OPTION + (OPTION + " e o")
  {
  }

  lemma AfterShape()
    ensures AFTER == "d /a" + OPTION + " e o"
  {
  }

  lemma AfterFields()
    ensures AFTER == FourFields("d", MOUNT, "e", "o") && IsField(MOUNT)
  {
  }

  lemma MentionCollapsed()
    ensures Collapsed(OPTION, MENTION) == AFTER
  {
    OptionIsTag();
    MentionShape();
    AfterShape();
    DoubleTag(OPTION, MENTION, "d /a", " e o");
  }

  lemma AfterTag()
    ensures FirstTag(OPTION, AFTER) == 4
  {
    OptionIsTag();
    AfterShape();
    SingleTag(OPTION, AFTER, "d /a", " e o");
  }

  lemma AfterMatches(mounts: seq<string>)
    requires mounts == [MOUNT]
    ensures MatchEnd(AFTER, mounts) == Some(|AFTER|)
  {
    AfterFields();
    assert IsField("d") && IsField("e") && IsField("o");
    OneMatch("d", MOUNT, "e", "o", AFTER, mounts);
  }

  lemma LateTag(l: string, m: string, mounts: seq<string>)
    requires m == Pass(l, mounts) && MatchEnd(m, mounts) == Some(|m|) && FirstTag(OPTION, m) + |OPTION| < |m|
    ensures Pass(m, mounts) != m
  {
    assert !Settles(OPTION, l, mounts);
    PassTwiceIff(l, mounts);
  }

  /** A mount point that mentions the option: the line itself looks repeatable and is not,
      because the first pass makes another field the mount point. */
  lemma MountMentionsOption(mounts: seq<string>)
    requires mounts == [MOUNT]
    ensures Repeatable(OPTION, MENTION, mounts)
    ensures Pass(Pass(MENTION, mounts), mounts) != Pass(MENTION, mounts)
  {
    MentionPass(mounts);
    AfterMatches(mounts);
    AfterTag();
    LateTag(MENTION, AFTER, mounts);
  }
}
