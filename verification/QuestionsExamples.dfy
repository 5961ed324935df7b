/** A question file in which the edit for one question changes the line of the next. */
module QuestionsExamples {
  import opened Text
  import opened Questions

  lemma StripWord(w: string)
    requires w != "" && NoSpace(w)
    ensures Rstrip([' '] + w + ['\n']) == [' '] + w
    ensures Strip([' '] + w + ['\n']) == w
  {
    var a, c := w[..|w| - 1], w[|w| - 1];
    assert w == a + [c];
    RstripTail([c], ['\n']);
    RstripStops(a, c, ['\n']);
    RstripStops([' '] + a, c, ['\n']);
    assert [' '] + w + ['\n'] == ([' '] + a) + [c] + ['\n'];
    assert w + ['\n'] == a + [c] + ['\n'];
    assert Rstrip(['\n']) == "" by {
      assert ['\n'][..0] == "";
    }
    assert ([' '] + w + ['\n'])[1..] == w + ['\n'];
    assert !IsSpace((w + ['\n'])[0]);
    assert Lstrip([' '] + w + ['\n']) == w + ['\n'];
  }

  /** A line of a name, a colon and one word. */
  function Field(name: string, w: string): string {
    name + [':'] + ([' '] + w + ['\n'])
  }

  lemma LabelField(w: string, ident: string)
    requires w != "" && NoSpace(w) && ':' !in w
    ensures Matches(Field("LABEL", w), ident) <==> ident == w
  {
    SplitOnJoined("LABEL", ':', [' '] + w + ['\n']);
    StripWord(w);
    assert "LABEL:" <= Field("LABEL", w);
  }

  lemma RewriteField(name: string, w: string, distro: string)
    requires ':' !in name && w != "" && NoSpace(w) && ':' !in w && distro != w
    ensures Rewrite(Field(name, w), distro) == Ok(name + [':'] + ([' '] + w + [' '] + distro + ['\n']))
  {
    var line, value := Field(name, w), [' '] + w + ['\n'];
    assert SplitOn(line, ':') == [name, value] by {
      SplitOnJoined(name, ':', value);
    }
    assert Words(value) == [w] by {
      assert Rstrip("") + [' '] + w + ['\n'] == value;
      WordsAppend("", ' ', w, ['\n']);
    }
    assert Appended(line, distro) == name + [':'] + ([' '] + w + [' '] + distro + ['\n']) by {
      assert Rstrip(value) == [' '] + w by {
        StripWord(w);
      }
      AppendedShape(line, distro);
    }
  }

  lemma RequireOnly(lines: seq<string>, a: string, b: string, require: string, edited: string)
    requires lines == [a, b, require] && IsLabel(b) && IsRequire(require)
    requires Matches(a, "a") && !Matches(a, "b") && Matches(b, "b")
    requires Rewrite(require, "Yocto") == Ok(edited)
    ensures NextMatch(lines, "a") == 0 && !HasOwnLine(lines, "a")
    ensures NextMatch(lines, "b") == 1 && HasOwnLine(lines, "b")
    ensures Edited(lines, "a", "Yocto") == Ok([a, b, edited])
  {
    assert lines[0] == a && lines[1] == b && lines[2] == require;
    assert NextMatch(lines, "a") == 0 && NextMatch(lines, "b") == 1;
    if IsRequire(b) {
      RequireIsNoLabel(b);
    }
    assert NextRequire(lines, 1) == 2;
    assert !BadBefore(lines, "a");
    assert lines[2 := edited] == [a, b, edited];
    assert IsRequire(lines[2]);
  }

  lemma RewrittenX(edited: string)
    requires edited == "REQUIRE_DISTRO: X Yocto\n"
    ensures Rewrite(Field("REQUIRE_DISTRO", "X"), "Yocto") == Ok(edited)
  {
    RewriteField("REQUIRE_DISTRO", "X", "Yocto");
    assert edited == "REQUIRE_DISTRO" + [':'] + ([' '] + "X" + [' '] + "Yocto" + ['\n']);
  }

  lemma ExampleFields(a: string, b: string, require: string, edited: string)
    requires a == Field("LABEL", "a") && b == Field("LABEL", "b")
    requires require == Field("REQUIRE_DISTRO", "X") && edited == "REQUIRE_DISTRO: X Yocto\n"
    ensures IsLabel(b) && IsRequire(require)
    ensures Matches(a, "a") && !Matches(a, "b") && Matches(b, "b")
    ensures Rewrite(require, "Yocto") == Ok(edited)
  {
    LabelField("a", "a");
    LabelField("a", "b");
    LabelField("b", "b");
    RewrittenX(edited);
  }

  /** Asked to edit question a, the script edits the line of question b. */
  lemma EditsNextQuestion(a: string, b: string, require: string, edited: string)
    requires a == Field("LABEL", "a") && b == Field("LABEL", "b")
    requires require == Field("REQUIRE_DISTRO", "X") && edited == "REQUIRE_DISTRO: X Yocto\n"
    ensures var lines := [a, b, require];
      && NextMatch(lines, "a") == 0 && !HasOwnLine(lines, "a")
      && NextMatch(lines, "b") == 1 && HasOwnLine(lines, "b")
      && Edited(lines, "a", "Yocto") == Ok([a, b, edited])
  {
    ExampleFields(a, b, require, edited);
    RequireOnly([a, b, require], a, b, require, edited);
  }
}
