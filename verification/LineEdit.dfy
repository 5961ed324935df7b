/** `perl -pi`: a script that is run on every line of a file, the result replacing the file. */
module LineEdit {
  import opened Text

  function EditLines(script: string -> string, lines: seq<string>): seq<string> {
    seq(|lines|, k requires 0 <= k < |lines| => script(lines[k]))
  }

  function EditText(script: string -> string, text: string): string {
    Concat(EditLines(script, SplitLines(text)))
  }

  ghost predicate KeepsLine(script: string -> string, l: string) {
    IsLine(l) ==> IsLine(script(l)) && (script(l)[|script(l)| - 1] == '\n' <==> l[|l| - 1] == '\n')
  }

  /** A script that makes one line of one line. */
  ghost predicate KeepsLines(script: string -> string) {
    forall l :: KeepsLine(script, l)
  }

  lemma EditedTextIsRead(script: string -> string, text: string)
    requires KeepsLines(script)
    ensures SplitLines(EditText(script, text)) == EditLines(script, SplitLines(text))
  {
    var lines := SplitLines(text);
    SplitLinesAreLines(text);
    forall k | 0 <= k < |lines| ensures KeepsLine(script, lines[k]) {}
    SplitWritten(EditLines(script, SplitLines(text)));
  }

  /** Editing a file of lines edits each of them, and a given one among the others. */
  lemma EditTextOfLines(script: string -> string, before: seq<string>, l: string, after: seq<string>)
    requires AreLines(before + [l] + after)
    ensures EditText(script, Concat(before + [l] + after)) ==
            Concat(EditLines(script, before) + [script(l)] + EditLines(script, after))
  {
    SplitWritten(before + [l] + after);
    EditLinesSum(script, before, [l]);
    EditLinesSum(script, before + [l], after);
    assert EditLines(script, [l]) == [script(l)];
  }

  lemma EditLinesSum(script: string -> string, a: seq<string>, b: seq<string>)
    ensures EditLines(script, a + b) == EditLines(script, a) + EditLines(script, b)
  {
  }

  /** The file is stable after one edit exactly when every line is. */
  lemma EditTextTwiceIff(script: string -> string, text: string)
    requires KeepsLines(script)
    ensures var once := EditText(script, text); var lines := SplitLines(text);
      EditText(script, once) == once
      <==> forall k :: 0 <= k < |lines| ==> script(script(lines[k])) == script(lines[k])
  {
    var lines := SplitLines(text);
    var once := EditLines(script, lines);
    EditedTextIsRead(script, text);
    EditedTextIsRead(script, EditText(script, text));
    if EditText(script, EditText(script, text)) == EditText(script, text) {
      assert EditLines(script, once) == once;
      forall k | 0 <= k < |lines| ensures script(script(lines[k])) == script(lines[k]) {
        assert EditLines(script, once)[k] == once[k];
      }
    } else {
      assert EditLines(script, once) != once;
    }
  }

  /** The loop over the lines, each printed after the script. */
  method EditInPlace(script: string -> string, text: string) returns (out: string)
    ensures out == EditText(script, text)
  {
    var lines := SplitLines(text);
    var edited: seq<string> := [];
    for k := 0 to |lines|
      invariant |edited| == k && forall j :: 0 <= j < k ==> edited[j] == script(lines[j])
    {
      var line := lines[k];
      edited := edited + [script(line)];
    }
    assert edited == EditLines(script, lines);
    out := WriteLines(edited);
  }

  function Iterate(f: string -> string, l: string, n: nat): string
    decreases n
  {
    if n == 0 then l else Iterate(f, f(l), n - 1)
  }

  lemma {:induction false} IterateFixed(f: string -> string, l: string, n: nat)
    requires f(l) == l
    ensures Iterate(f, l, n) == l
    decreases n
  {
    if n == 0 {
    } else {
      IterateFixed(f, l, n - 1);
    }
  }

  /** If a second run changes nothing, no later one does. */
  lemma IterateOnce(f: string -> string, l: string, n: nat)
    requires n >= 1 && f(f(l)) == f(l)
    ensures Iterate(f, l, n) == f(l)
  {
    IterateFixed(f, f(l), n - 1);
  }

  /** So two runs show what any number of them does. */
  lemma IterateOnceIff(f: string -> string, l: string)
    ensures (forall n: nat :: n >= 1 ==> Iterate(f, l, n) == f(l)) <==> f(f(l)) == f(l)
  {
    if f(f(l)) == f(l) {
      forall n: nat | n >= 1 ensures Iterate(f, l, n) == f(l) {
        IterateOnce(f, l, n);
      }
    } else {
      assert Iterate(f, f(l), 1) == f(f(l));
      assert Iterate(f, l, 2) == f(f(l));
    }
  }

  function Repeat(tag: string, n: nat): string {
    if n == 0 then "" else tag + Repeat(tag, n - 1)
  }

  /** On a stuck text, f inserts the tag at e and leaves the text stuck behind it. */
  ghost predicate InsertsAt(f: string -> string, stuck: (string, nat) -> bool, tag: string, l: string, e: nat) {
    stuck(l, e) ==> e <= |l| && f(l) == l[..e] + tag + l[e..] && stuck(f(l), e + |tag|)
  }

  /** If every run inserts the tag behind the last one, n runs insert it n times. */
  lemma {:induction false} IterateInserts(
      f: string -> string, stuck: (string, nat) -> bool, tag: string, l: string, e: nat, n: nat)
    requires stuck(l, e)
    requires forall x, k: nat :: InsertsAt(f, stuck, tag, x, k)
    ensures e <= |l| && Iterate(f, l, n) == l[..e] + Repeat(tag, n) + l[e..]
    decreases n
  {
    assert InsertsAt(f, stuck, tag, l, e);
    if n == 0 {
      assert l == l[..e] + "" + l[e..];
    } else {
      IterateInserts(f, stuck, tag, f(l), e + |tag|, n - 1);
      InsertedTwice(l, f(l), e, tag, Repeat(tag, n - 1));
    }
  }

  /** The same for a text that gets stuck with the first run. */
  lemma IterateInsertsAfter(
      f: string -> string, stuck: (string, nat) -> bool, tag: string, l: string, e: nat, n: nat)
    requires n >= 1 && stuck(f(l), e)
    requires forall x, k: nat :: InsertsAt(f, stuck, tag, x, k)
    ensures e <= |f(l)| && Iterate(f, l, n) == f(l)[..e] + Repeat(tag, n - 1) + f(l)[e..]
  {
    IterateInserts(f, stuck, tag, f(l), e, n - 1);
  }

  lemma InsertedTwice(l: string, l': string, e: nat, tag: string, more: string)
    requires e <= |l| && l' == l[..e] + tag + l[e..]
    ensures l'[..e + |tag|] + more + l'[e + |tag|..] == l[..e] + (tag + more) + l[e..]
  {
    assert l'[..e + |tag|] == l[..e] + tag && l'[e + |tag|..] == l[e..];
  }
}
