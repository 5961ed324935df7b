/** The behaviour of Python's `str` methods and text files that the scripts rely on. */
module Text {

  datatype Option<+T> = None | Some(value: T)

  /** The characters `str.strip`, `str.rstrip` and `str.split()` treat as white space. */
  predicate IsSpace(c: char) {
    var n := c as int;
    || 0x09 <= n <= 0x0D || 0x1C <= n <= 0x20 || n == 0x85 || n == 0xA0 || n == 0x1680
    || 0x2000 <= n <= 0x200A || n == 0x2028 || n == 0x2029 || n == 0x202F || n == 0x205F || n == 0x3000
  }

  predicate AllSpace(s: string) {
    forall k :: 0 <= k < |s| ==> IsSpace(s[k])
  }

  predicate NoSpace(s: string) {
    forall k :: 0 <= k < |s| ==> !IsSpace(s[k])
  }

  /** The ASCII characters among them. */
  lemma AsciiSpaces(c: char)
    requires (c as int) < 0x80
    ensures IsSpace(c) <==> c in "\t\n\U{0B}\U{0C}\r\U{1C}\U{1D}\U{1E}\U{1F} "
  {
    var spaces := "\t\n\U{0B}\U{0C}\r\U{1C}\U{1D}\U{1E}\U{1F} ";
    assert spaces[0] == 9 as char && spaces[1] == 10 as char && spaces[2] == 11 as char && spaces[3] == 12 as char;
    assert spaces[4] == 13 as char && spaces[5] == 28 as char && spaces[6] == 29 as char && spaces[7] == 30 as char;
    assert spaces[8] == 31 as char && spaces[9] == 32 as char;
  }

  /** And all others. */
  lemma OtherSpaces(c: char)
    requires (c as int) >= 0x80
    ensures IsSpace(c) <==> c in "\U{85}\U{A0}\U{1680}\U{2028}\U{2029}\U{202F}\U{205F}\U{3000}" || '\U{2000}' <= c <= '\U{200A}'
  {
    var spaces := "\U{85}\U{A0}\U{1680}\U{2028}\U{2029}\U{202F}\U{205F}\U{3000}";
    assert spaces[0] == 0x85 as char && spaces[1] == 0xA0 as char && spaces[2] == 0x1680 as char;
    assert spaces[3] == 0x2028 as char && spaces[4] == 0x2029 as char && spaces[5] == 0x202F as char;
    assert spaces[6] == 0x205F as char && spaces[7] == 0x3000 as char;
  }

  /** The first position from i on, and before n, that satisfies p; n if there is none. */
  function First(p: nat -> bool, i: nat, n: nat): (k: nat)
    requires i <= n
    ensures i <= k <= n && (k < n ==> p(k))
    ensures forall m: nat :: i <= m < k ==> !p(m)
    decreases n - i
  {
    if i == n || p(i) then i else First(p, i + 1, n)
  }

  // ---------- s.split(c) ----------

  function IndexOf(s: string, c: char): (i: nat)
    requires c in s
    ensures i < |s| && s[i] == c && c !in s[..i]
  {
    if s[0] == c then 0 else
      var i := 1 + IndexOf(s[1..], c);
      assert s[..i] == [s[0]] + s[1..][..i - 1];
      i
  }

  lemma {:induction false} IndexOfUnique(s: string, c: char, n: nat)
    requires n < |s| && s[n] == c && c !in s[..n]
    ensures IndexOf(s, c) == n
  {
    if n == 0 {
    } else {
      assert s[..n] == [s[0]] + s[1..][..n - 1];
      IndexOfUnique(s[1..], c, n - 1);
    }
  }

  function SplitOn(s: string, c: char): (parts: seq<string>)
    ensures |parts| >= 1
  {
    if c in s then
      var i := IndexOf(s, c);
      [s[..i]] + SplitOn(s[i + 1..], c)
    else [s]
  }

  lemma JoinCons(separator: string, x: string, parts: seq<string>)
    requires parts != []
    ensures Join(separator, [x] + parts) == x + separator + Join(separator, parts)
  {
    assert ([x] + parts)[1..] == parts;
  }

  /** Joining the parts again gives the text, and no part holds the separator. */
  lemma {:induction false} SplitOnParts(s: string, c: char)
    ensures Join([c], SplitOn(s, c)) == s
    ensures forall k :: 0 <= k < |SplitOn(s, c)| ==> c !in SplitOn(s, c)[k]
  {
    if c !in s {
    } else {
      var i := IndexOf(s, c);
      SplitOnParts(s[i + 1..], c);
      JoinCons([c], s[..i], SplitOn(s[i + 1..], c));
      assert s == s[..i] + [c] + s[i + 1..];
    }
  }

  /** There is one part more than there are separators. */
  lemma {:induction false} SplitOnCounts(s: string, c: char)
    ensures |SplitOn(s, c)| == multiset(s)[c] + 1
  {
    if c !in s {
    } else {
      var i := IndexOf(s, c);
      assert s == s[..i] + [c] + s[i + 1..];
      SplitOnCounts(s[i + 1..], c);
    }
  }

  /** Unpacking `(a, b) = s.split(c)` succeeds exactly on `a + c + b` with no other `c`. */
  lemma SplitOnPair(s: string, c: char)
    requires |SplitOn(s, c)| == 2
    ensures var p := SplitOn(s, c); s == p[0] + [c] + p[1] && c !in p[0] && c !in p[1]
  {
    var i := IndexOf(s, c);
    assert s == s[..i] + [c] + s[i + 1..];
    assert |SplitOn(s[i + 1..], c)| == 1;
  }

  lemma SplitOnJoined(a: string, c: char, b: string)
    requires c !in a && c !in b
    ensures SplitOn(a + [c] + b, c) == [a, b]
  {
    var s := a + [c] + b;
    assert s[..|a|] == a && s[|a| + 1..] == b;
    IndexOfUnique(s, c, |a|);
  }

  // ---------- s.rstrip(), s.strip() ----------

  function Rstrip(s: string): string {
    if s != "" && IsSpace(s[|s| - 1]) then Rstrip(s[..|s| - 1]) else s
  }

  function Lstrip(s: string): string {
    if s != "" && IsSpace(s[0]) then Lstrip(s[1..]) else s
  }

  function Strip(s: string): string {
    Rstrip(Lstrip(s))
  }

  lemma {:induction false} RstripTail(a: string, b: string)
    ensures AllSpace(b) ==> Rstrip(a + b) == Rstrip(a)
    ensures !AllSpace(b) ==> Rstrip(a + b) == a + Rstrip(b)
  {
    if b == "" {
      assert a + b == a;
    } else {
      var b' := b[..|b| - 1];
      assert b == b' + [b[|b| - 1]];
      assert (a + b)[..|a + b| - 1] == a + b';
      if IsSpace(b[|b| - 1]) {
        RstripTail(a, b');
        assert AllSpace(b) <==> AllSpace(b');
      }
    }
  }

  /** Stripping stops at a character that is not white space. */
  lemma {:induction false} RstripStops(a: string, c: char, b: string)
    requires !IsSpace(c)
    ensures Rstrip(a + [c] + b) == a + [c] + Rstrip(b)
  {
    var s := a + [c] + b;
    if b == "" {
      assert s[|s| - 1] == c;
      assert s == a + [c] + Rstrip(b);
    } else {
      var b' := b[..|b| - 1];
      assert s[..|s| - 1] == a + [c] + b';
      assert s[|s| - 1] == b[|b| - 1];
      RstripStops(a, c, b');
    }
  }

  /** Only white space is stripped. */
  lemma {:induction false} RstripSplits(s: string)
    ensures Rstrip(s) <= s && AllSpace(s[|Rstrip(s)|..])
    ensures Rstrip(s) != "" ==> !IsSpace(Rstrip(s)[|Rstrip(s)| - 1])
  {
    if s == "" || !IsSpace(s[|s| - 1]) {
    } else {
      var s' := s[..|s| - 1];
      RstripSplits(s');
      assert s[|Rstrip(s)|..] == s'[|Rstrip(s)|..] + [s[|s| - 1]];
    }
  }

  lemma {:induction false} RstripKeeps(s: string, k: nat)
    requires k < |s| && !IsSpace(s[k])
    ensures k < |Rstrip(s)|
  {
    if !IsSpace(s[|s| - 1]) {
    } else {
      RstripKeeps(s[..|s| - 1], k);
    }
  }

  predicate IsStripped(w: string) {
    w != "" ==> !IsSpace(w[0]) && !IsSpace(w[|w| - 1])
  }

  lemma {:induction false} LstripSplits(s: string) returns (k: nat)
    ensures k <= |s| && AllSpace(s[..k]) && Lstrip(s) == s[k..]
    ensures k < |s| ==> !IsSpace(s[k])
  {
    if s == "" || !IsSpace(s[0]) {
      k := 0;
    } else {
      k := LstripSplits(s[1..]);
      k := k + 1;
      assert s[..k] == [s[0]] + s[1..][..k - 1];
    }
  }

  lemma {:induction false} LstripSkips(a: string, s: string)
    requires AllSpace(a) && (s != "" ==> !IsSpace(s[0]))
    ensures Lstrip(a + s) == s
  {
    if a == "" {
      assert a + s == s;
    } else {
      assert (a + s)[1..] == a[1..] + s;
      LstripSkips(a[1..], s);
    }
  }

  /** The stripped text is what is left between white space. */
  lemma StripIff(s: string, w: string)
    ensures Strip(s) == w <==> IsStripped(w) && exists a, b :: AllSpace(a) && AllSpace(b) && s == a + w + b
  {
    var k := LstripSplits(s);
    var m := Lstrip(s);
    RstripSplits(m);
    if Strip(s) == w {
      assert m[..|w|] == w;
      assert s == s[..k] + w + m[|w|..];
    }
    if IsStripped(w) && exists a, b :: AllSpace(a) && AllSpace(b) && s == a + w + b {
      var a, b :| AllSpace(a) && AllSpace(b) && s == a + w + b;
      StripBetween(a, w, b);
    }
  }

  lemma StripBetween(a: string, w: string, b: string)
    requires AllSpace(a) && AllSpace(b) && IsStripped(w)
    ensures Strip(a + w + b) == w
  {
    if w == "" {
      LstripSkips(a + w + b, "");
      assert a + w + b + "" == a + w + b;
    } else {
      LstripSkips(a, w + b);
      assert a + (w + b) == a + w + b;
      RstripTail(w, b);
    }
  }

  // ---------- s.split() ----------

  /** The length of the longest prefix without white space. */
  function WordLength(s: string): (n: nat)
    ensures n <= |s| && NoSpace(s[..n]) && (n < |s| ==> IsSpace(s[n]))
  {
    if s == "" || IsSpace(s[0]) then 0 else
      var n := 1 + WordLength(s[1..]);
      assert s[..n] == [s[0]] + s[1..][..n - 1];
      n
  }

  function Words(s: string): seq<string>
    decreases |s|
  {
    if s == "" then []
    else if IsSpace(s[0]) then Words(s[1..])
    else [s[..WordLength(s)]] + Words(s[WordLength(s)..])
  }

  lemma {:induction false} WordsAreWords(s: string)
    ensures forall w :: w in Words(s) ==> w != "" && NoSpace(w)
    decreases |s|
  {
    if s == "" {
    } else {
      if IsSpace(s[0]) {
        WordsAreWords(s[1..]);
      } else {
        WordsAreWords(s[WordLength(s)..]);
      }
    }
  }

  lemma {:induction false} WordLengthUnique(s: string, n: nat)
    requires n <= |s| && NoSpace(s[..n]) && (n < |s| ==> IsSpace(s[n]))
    ensures WordLength(s) == n
  {
    if n == 0 {
    } else {
      assert s[..n] == [s[0]] + s[1..][..n - 1];
      assert !IsSpace(s[..n][0]);
      assert s[1..][..n - 1] == s[..n][1..];
      WordLengthUnique(s[1..], n - 1);
    }
  }

  /** A white-space character separates the words on its two sides. */
  lemma {:induction false} WordsSeparate(a: string, c: char, b: string)
    requires IsSpace(c)
    ensures Words(a + [c] + b) == Words(a) + Words(b)
    decreases |a|
  {
    var s := a + [c] + b;
    if a == "" {
      assert s[1..] == b;
    } else if IsSpace(a[0]) {
      assert s[1..] == a[1..] + [c] + b;
      WordsSeparate(a[1..], c, b);
    } else {
      var n := WordLength(a);
      assert s[..n] == a[..n];
      WordLengthUnique(s, n);
      assert s[n..] == a[n..] + [c] + b;
      WordsSeparate(a[n..], c, b);
      assert Words(s) == [s[..n]] + Words(s[n..]);
    }
  }

  lemma {:induction false} WordsIgnoreTail(s: string, tail: string)
    requires AllSpace(tail)
    ensures Words(s + tail) == Words(s)
  {
    if tail == "" {
      assert s + tail == s;
    } else {
      var rest := tail[..|tail| - 1];
      WordsSeparate(s + rest, tail[|tail| - 1], "");
      assert s + tail == s + rest + [tail[|tail| - 1]] + "";
      WordsIgnoreTail(s, rest);
    }
  }

  lemma WordsOfWord(w: string)
    requires w != "" && NoSpace(w)
    ensures Words(w) == [w]
  {
    WordLengthUnique(w, |w|);
    assert w[..|w|] == w;
  }

  /** A maximal run of characters that are not white space. */
  ghost predicate IsWordAt(s: string, i: nat, j: nat) {
    && i < j <= |s|
    && (forall k :: i <= k < j ==> !IsSpace(s[k]))
    && (i > 0 ==> IsSpace(s[i - 1]))
    && (j < |s| ==> IsSpace(s[j]))
  }

  ghost predicate IsWordOf(w: string, s: string, i: nat, j: nat) {
    IsWordAt(s, i, j) && s[i..j] == w
  }

  ghost predicate HasWord(s: string, w: string) {
    exists i: nat, j: nat :: IsWordOf(w, s, i, j)
  }

  lemma WordAtShift(s: string, t: string, n: nat, i: nat, j: nat, w: string)
    requires n <= |s| && t == s[n..] && (i > 0 || (n > 0 && IsSpace(s[n - 1])))
    ensures IsWordOf(w, t, i, j) <==> IsWordOf(w, s, n + i, n + j)
  {
    forall k | 0 <= k < |t| ensures t[k] == s[n + k] {}
    if IsWordAt(t, i, j) {
      forall k | n + i <= k < n + j ensures !IsSpace(s[k]) {
        assert s[k] == t[k - n];
      }
    }
    assert i <= j <= |t| ==> t[i..j] == s[n + i..n + j];
  }

  lemma FirstWordAt(s: string, j: nat)
    requires s != "" && !IsSpace(s[0])
    ensures IsWordAt(s, 0, j) <==> j == WordLength(s)
  {
    if IsWordAt(s, 0, j) {
      WordLengthUnique(s, j);
    }
    forall k | 0 <= k < WordLength(s) ensures !IsSpace(s[k]) {
      assert s[..WordLength(s)][k] == s[k];
    }
  }

  lemma LaterWord(s: string, n: nat, i: nat, j: nat)
    requires s != "" && !IsSpace(s[0]) && n == WordLength(s) && i > 0 && IsWordAt(s, i, j)
    ensures n < i
  {
    forall k | 0 <= k < n ensures !IsSpace(s[k]) {
      assert s[..n][k] == s[k];
    }
  }

  lemma WordsOfBlankIff(s: string, t: string, w: string)
    requires s != "" && IsSpace(s[0]) && t == s[1..]
    ensures HasWord(s, w) <==> HasWord(t, w)
  {
    if HasWord(s, w) {
      var i: nat, j: nat :| IsWordOf(w, s, i, j);
      WordAtShift(s, t, 1, i - 1, j - 1, w);
    }
    if HasWord(t, w) {
      var i: nat, j: nat :| IsWordOf(w, t, i, j);
      WordAtShift(s, t, 1, i, j, w);
    }
  }

  lemma WordOfRest(s: string, n: nat, t: string, i: nat, j: nat, w: string)
    requires s != "" && !IsSpace(s[0]) && n == WordLength(s) && t == s[n..]
    requires IsWordOf(w, s, i, j)
    ensures w == s[..n] || IsWordOf(w, t, i - n, j - n)
  {
    if i == 0 {
      FirstWordAt(s, j);
      assert s[0..j] == s[..j];
    } else {
      LaterWord(s, n, i, j);
      WordAtShift(s, t, n, i - n, j - n, w);
    }
  }

  lemma FirstWord(s: string, n: nat)
    requires s != "" && !IsSpace(s[0]) && n == WordLength(s)
    ensures IsWordOf(s[..n], s, 0, n)
  {
    FirstWordAt(s, n);
    assert s[0..n] == s[..n];
  }

  lemma WordsOfWordIff(s: string, n: nat, t: string, first: string, w: string)
    requires s != "" && !IsSpace(s[0]) && n == WordLength(s) && t == s[n..] && first == s[..n]
    ensures HasWord(s, w) <==> w == first || HasWord(t, w)
  {
    FirstWord(s, n);
    if HasWord(s, w) {
      var i: nat, j: nat :| IsWordOf(w, s, i, j);
      WordOfRest(s, n, t, i, j, w);
    }
    if HasWord(t, w) {
      var i: nat, j: nat :| IsWordOf(w, t, i, j);
      WordAtShift(s, t, n, i, j, w);
    }
  }

  /** The words are exactly these runs. */
  lemma {:induction false} WordsIff(s: string, w: string)
    ensures w in Words(s) <==> HasWord(s, w)
    decreases |s|
  {
    if s == "" {
    } else if IsSpace(s[0]) {
      WordsIff(s[1..], w);
      WordsOfBlankIff(s, s[1..], w);
    } else {
      var n := WordLength(s);
      WordsIff(s[n..], w);
      WordsOfWordIff(s, n, s[n..], s[..n], w);
    }
  }

  /** Words joined by blanks are split into themselves. */
  lemma {:induction false} WordsOfJoined(words: seq<string>)
    requires forall w :: w in words ==> w != "" && NoSpace(w)
    ensures Words(Join(" ", words)) == words
  {
    if words == [] {
    } else {
      assert words[0] in words;
      WordsOfWord(words[0]);
      if |words| == 1 {
        assert words == [words[0]];
      } else {
        assert forall w :: w in words[1..] ==> w in words;
        WordsOfJoined(words[1..]);
        WordsSeparate(words[0], ' ', Join(" ", words[1..]));
        assert words == [words[0]] + words[1..];
      }
    }
  }

  /** Appending a word to a stripped text. */
  lemma WordsAppend(s: string, c: char, w: string, tail: string)
    requires IsSpace(c) && w != "" && NoSpace(w) && AllSpace(tail)
    ensures Words(Rstrip(s) + [c] + w + tail) == Words(s) + [w]
  {
    RstripSplits(s);
    var kept, blanks := Rstrip(s), s[|Rstrip(s)|..];
    assert Words(s) == Words(kept) by {
      assert s == kept + blanks;
      WordsIgnoreTail(kept, blanks);
    }
    assert Words(kept + [c] + w) == Words(kept) + [w] by {
      WordsSeparate(kept, c, w);
      WordsOfWord(w);
    }
    WordsIgnoreTail(kept + [c] + w, tail);
  }

  // ---------- text files ----------

  function Concat(parts: seq<string>): string {
    if parts == [] then "" else parts[0] + Concat(parts[1..])
  }

  function Join(separator: string, parts: seq<string>): string {
    if |parts| == 0 then "" else if |parts| == 1 then parts[0]
    else parts[0] + separator + Join(separator, parts[1..])
  }

  lemma {:induction false} JoinAppend(separator: string, a: seq<string>, b: seq<string>)
    requires a != [] && b != []
    ensures Join(separator, a + b) == Join(separator, a) + separator + Join(separator, b)
  {
    assert (a + b)[1..] == a[1..] + b;
    if |a| == 1 {
      assert a[1..] + b == b;
    } else {
      JoinAppend(separator, a[1..], b);
    }
  }

  /** Writing lines to a file, one after the other. */
  method WriteLines(lines: seq<string>) returns (content: string)
    ensures content == Concat(lines)
  {
    content := "";
    for k := 0 to |lines|
      invariant content + Concat(lines[k..]) == Concat(lines)
    {
      assert lines[k..][1..] == lines[k + 1..];
      content := content + lines[k];
    }
    assert content + "" == Concat(lines);
  }

  /** Text mode turns "\r\n" and "\r" into "\n" on reading. */
  function UniversalNewlines(text: string): (t: string)
    ensures '\r' !in t
  {
    if text == "" then ""
    else if text[0] != '\r' then [text[0]] + UniversalNewlines(text[1..])
    else if |text| > 1 && text[1] == '\n' then UniversalNewlines(text[1..])
    else "\n" + UniversalNewlines(text[1..])
  }

  /** The first carriage return becomes a newline, together with a newline behind it. */
  lemma {:induction false} ReturnsBecomeNewlines(a: string, b: string)
    requires '\r' !in a
    ensures UniversalNewlines(a + "\r\n" + b) == a + "\n" + UniversalNewlines(b)
    ensures !("\n" <= b) ==> UniversalNewlines(a + "\r" + b) == a + "\n" + UniversalNewlines(b)
  {
    if a == "" {
      assert (a + "\r\n" + b)[1..] == "\n" + b && ("\n" + b)[1..] == b;
      assert (a + "\r" + b)[1..] == b;
    } else {
      assert (a + "\r\n" + b)[1..] == a[1..] + "\r\n" + b;
      assert (a + "\r" + b)[1..] == a[1..] + "\r" + b;
      ReturnsBecomeNewlines(a[1..], b);
    }
  }

  /** A newline ends a line and belongs to it. */
  function SplitLines(t: string): seq<string>
    decreases |t|
  {
    if t == "" then []
    else if '\n' in t then
      var i := IndexOf(t, '\n');
      [t[..i + 1]] + SplitLines(t[i + 1..])
    else [t]
  }

  /** The lines that iterating over an open text file yields. */
  function ReadLines(text: string): seq<string> {
    SplitLines(UniversalNewlines(text))
  }

  predicate IsLine(l: string) {
    l != "" && '\n' !in l[..|l| - 1]
  }

  /** What splitting can yield: only the last line may lack its newline. */
  predicate AreLines(lines: seq<string>) {
    forall k :: 0 <= k < |lines| ==>
      IsLine(lines[k]) && (k < |lines| - 1 ==> lines[k][|lines[k]| - 1] == '\n')
  }

  lemma {:induction false} UniversalNewlinesFixes(text: string)
    ensures UniversalNewlines(text) == text <==> '\r' !in text
  {
    if text == "" {
    } else {
      UniversalNewlinesFixes(text[1..]);
      if text[0] != '\r' {
        assert text == [text[0]] + text[1..];
      }
    }
  }

  lemma LinesCons(l: string, lines: seq<string>)
    requires IsLine(l) && l[|l| - 1] == '\n' && AreLines(lines)
    ensures AreLines([l] + lines) && Concat([l] + lines) == l + Concat(lines)
  {
    assert ([l] + lines)[1..] == lines;
  }

  lemma OneLine(t: string)
    requires t != "" && '\n' !in t
    ensures AreLines([t]) && Concat([t]) == t
  {
    assert Concat([t]) == t + Concat([]) == t;
  }

  lemma FirstLineOf(t: string, i: nat)
    requires i < |t| && t[i] == '\n' && '\n' !in t[..i]
    ensures var l := t[..i + 1]; IsLine(l) && l[|l| - 1] == '\n' && t == l + t[i + 1..]
  {
    var l := t[..i + 1];
    assert l[..|l| - 1] == t[..i];
  }

  lemma {:induction false} SplitLinesAreLines(t: string)
    ensures AreLines(SplitLines(t)) && Concat(SplitLines(t)) == t
    decreases |t|
  {
    if t == "" {
    } else if '\n' !in t {
      OneLine(t);
    } else {
      var i := IndexOf(t, '\n');
      FirstLineOf(t, i);
      SplitLinesAreLines(t[i + 1..]);
      LinesCons(t[..i + 1], SplitLines(t[i + 1..]));
    }
  }

  lemma {:induction false} ConcatHasNoReturn(lines: seq<string>)
    requires forall k :: 0 <= k < |lines| ==> '\r' !in lines[k]
    ensures '\r' !in Concat(lines)
  {
    if lines == [] {
    } else {
      ConcatHasNoReturn(lines[1..]);
    }
  }

  lemma SplitFirst(l: string, rest: string)
    requires IsLine(l) && l[|l| - 1] == '\n'
    ensures SplitLines(l + rest) == [l] + SplitLines(rest)
  {
    var t := l + rest;
    assert t[..|l| - 1] == l[..|l| - 1];
    IndexOfUnique(t, '\n', |l| - 1);
    assert t[..|l|] == l && t[|l|..] == rest;
  }

  lemma LinesTail(lines: seq<string>)
    requires AreLines(lines) && lines != []
    ensures AreLines(lines[1..])
  {
    forall k | 0 <= k < |lines[1..]|
      ensures IsLine(lines[1..][k]) && (k < |lines[1..]| - 1 ==> lines[1..][k][|lines[1..][k]| - 1] == '\n')
    {
      assert lines[1..][k] == lines[k + 1];
    }
  }

  lemma {:induction false} SplitWritten(lines: seq<string>)
    requires AreLines(lines)
    ensures SplitLines(Concat(lines)) == lines
  {
    if lines == [] {
    } else {
      var l := lines[0];
      LinesTail(lines);
      SplitWritten(lines[1..]);
      if l[|l| - 1] == '\n' {
        SplitFirst(l, Concat(lines[1..]));
        assert lines == [l] + lines[1..];
      } else {
        assert lines == [l];
        assert Concat(lines) == l + "" == l;
        assert l == l[..|l| - 1] + [l[|l| - 1]];
        assert '\n' !in l;
      }
    }
  }

  /** Whatever lines a file yields, writing them and reading them back yields them again. */
  lemma ReadWritten(lines: seq<string>)
    requires AreLines(lines) && forall k :: 0 <= k < |lines| ==> '\r' !in lines[k]
    ensures ReadLines(Concat(lines)) == lines
  {
    ConcatHasNoReturn(lines);
    UniversalNewlinesFixes(Concat(lines));
    SplitWritten(lines);
  }

  lemma ReadLinesAreLines(text: string)
    ensures AreLines(ReadLines(text))
    ensures forall k :: 0 <= k < |ReadLines(text)| ==> '\r' !in ReadLines(text)[k]
    ensures Concat(ReadLines(text)) == UniversalNewlines(text)
  {
    SplitLinesAreLines(UniversalNewlines(text));
    PartsHaveNoReturn(ReadLines(text));
  }

  lemma {:induction false} PartsHaveNoReturn(lines: seq<string>)
    requires '\r' !in Concat(lines)
    ensures forall k :: 0 <= k < |lines| ==> '\r' !in lines[k]
  {
    if lines == [] {
    } else {
      PartsHaveNoReturn(lines[1..]);
    }
  }
}
