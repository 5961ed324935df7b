/** Cutting the dm-verity root hash into the UUIDs of the root and the hash partition. */
module RootHash {
  import opened Numerals

  // ---------- tr a-f A-F, tr A-F a-f ----------

  predicate IsHexChar(c: char) {
    '0' <= c <= '9' || 'a' <= c <= 'f' || 'A' <= c <= 'F'
  }

  lemma HexChars(c: char)
    ensures IsHexChar(c) <==> c in "0123456789abcdefABCDEF"
  {
    var digits := "0123456789abcdefABCDEF";
    forall i | 0 <= i < 22 ensures IsHexChar(digits[i]) {}
    if '0' <= c <= '9' {
      assert c == digits[c as int - 48];
    } else if 'a' <= c <= 'f' {
      assert c == digits[c as int - 87];
    } else if 'A' <= c <= 'F' {
      assert c == digits[c as int - 49];
    }
  }

  predicate IsHex(s: string) {
    forall k :: 0 <= k < |s| ==> IsHexChar(s[k])
  }

  function UpperChar(c: char): char {
    if 'a' <= c <= 'f' then ((c as int) - 32) as char else c
  }

  function LowerChar(c: char): char {
    if 'A' <= c <= 'F' then ((c as int) + 32) as char else c
  }

  function Upper(s: string): string {
    seq(|s|, k requires 0 <= k < |s| => UpperChar(s[k]))
  }

  function Lower(s: string): string {
    seq(|s|, k requires 0 <= k < |s| => LowerChar(s[k]))
  }

  // ---------- the two halves, by arithmetic ----------

  /** `2^exponent` with the exponent in base 16, as `bc` reads it under ibase 16. */
  function TwoTo(exponent: string): (d: nat)
    ensures d > 0
  {
    PowPositive(2, Value(exponent, 16));
    Pow(2, Value(exponent, 16))
  }

  function Quotient(n: nat, d: nat): string
    requires d > 0
  {
    Numeral(n / d, 16)
  }

  function Remainder(n: nat, d: nat): string
    requires d > 0
  {
    Numeral(n % d, 16)
  }

  function RootHi(hash: string): string {
    Quotient(Value(Upper(hash), 16), TwoTo("80"))
  }

  function RootLo(hash: string): string {
    Remainder(Value(Upper(hash), 16), TwoTo("80"))
  }

  // ---------- layout ----------

  /** Greedy `s/.*\(.\{32\}\)$/\1/`: the last 32 characters, or all of a shorter text. */
  function Last32(s: string): string {
    if |s| >= 32 then s[|s| - 32..] else s
  }

  /** `s/./-&/n` */
  function HyphenAt(s: string, n: nat): string
    requires n >= 1
  {
    if |s| < n then s else s[..n - 1] + "-" + s[n - 1..]
  }

  function Hyphenate(s: string): string {
    HyphenAt(HyphenAt(HyphenAt(HyphenAt(s, 9), 14), 19), 24)
  }

  function Uuid(half: string): string {
    Lower(Hyphenate(Last32("00000000" + half)))
  }

  /** The textual form of a UUID: groups of 8, 4, 4, 4 and the rest, 12 of 32 digits. */
  function Grouped(s: string): string
    requires |s| > 20
  {
    s[..8] + "-" + s[8..12] + "-" + s[12..16] + "-" + s[16..20] + "-" + s[20..]
  }

  function DeleteHyphens(s: string): string {
    if s == "" then "" else (if s[0] == '-' then "" else [s[0]]) + DeleteHyphens(s[1..])
  }

  // ---------- lemmas ----------

  lemma {:induction false} PowPositive(b: nat, e: nat)
    requires b > 0
    ensures Pow(b, e) > 0
  {
    if e == 0 {
    } else {
      PowPositive(b, e - 1);
    }
  }

  lemma DivisorIs()
    ensures TwoTo("80") == Pow(16, 32)
  {
    assert "80"[..1] == "8" && "8"[..0] == "";
    assert Value("8", 16) == 8;
    assert Value("80", 16) == 128;
    PowOfSixteen(32);
  }

  lemma UpperIsDigits(s: string)
    requires IsHex(s)
    ensures AreDigits(Upper(s), 16)
  {
  }

  lemma LowerOfUpper(s: string)
    requires IsHex(s)
    ensures Lower(Upper(s)) == Lower(s)
  {
  }

  lemma SplitDigits(hi: string, lo: string, d: nat)
    requires hi != "" && AreDigits(hi, 16) && lo != "" && AreDigits(lo, 16)
    requires d == Pow(16, |lo|) > 0
    ensures Quotient(Value(hi + lo, 16), d) == StripZeros(hi)
    ensures Remainder(Value(hi + lo, 16), d) == StripZeros(lo)
  {
    var n, q, r := Value(hi + lo, 16), Value(hi, 16), Value(lo, 16);
    assert n == q * d + r && r < d by {
      ValueAppend(hi, lo, 16);
      ValueBound(lo, 16);
    }
    assert n / d == q && n % d == r by {
      DivModUnique(q, d, r);
    }
    NumeralValue(hi, 16);
    NumeralValue(lo, 16);
  }

  /** Dividing by 2^128 is cutting off the last 32 digits, and the remainder is those digits. */
  lemma SplitIsSlicing(hash: string)
    requires IsHex(hash) && |hash| == 64
    ensures RootHi(hash) == StripZeros(Upper(hash[..32]))
    ensures RootLo(hash) == StripZeros(Upper(hash[32..]))
  {
    var hi, lo := Upper(hash[..32]), Upper(hash[32..]);
    UpperIsDigits(hash[..32]);
    UpperIsDigits(hash[32..]);
    assert Upper(hash) == hi + lo;
    DivisorIs();
    SplitDigits(hi, lo, TwoTo("80"));
  }

  /** Each hyphen moves the later positions by one, which 14, 19 and 24 account for. */
  lemma HyphenateGroups(s: string)
    requires |s| > 20
    ensures Hyphenate(s) == Grouped(s)
  {
    var a := s[..8] + "-" + s[8..];
    assert HyphenAt(s, 9) == a;
    var b := s[..8] + "-" + s[8..12] + "-" + s[12..];
    assert HyphenAt(a, 14) == b;
    var c := s[..8] + "-" + s[8..12] + "-" + s[12..16] + "-" + s[16..];
    assert HyphenAt(b, 19) == c;
    assert HyphenAt(c, 24) == Grouped(s);
  }

  lemma {:induction false} DeleteHyphensAppend(a: string, b: string)
    ensures DeleteHyphens(a + b) == DeleteHyphens(a) + DeleteHyphens(b)
  {
    if a == "" {
      assert a + b == b;
    } else {
      assert (a + b)[1..] == a[1..] + b;
      DeleteHyphensAppend(a[1..], b);
    }
  }

  lemma {:induction false} DeleteHyphensNone(s: string)
    requires '-' !in s
    ensures DeleteHyphens(s) == s
  {
    if s == "" {
    } else {
      DeleteHyphensNone(s[1..]);
    }
  }

  lemma HyphenAtDeleted(s: string, n: nat)
    requires n >= 1
    ensures DeleteHyphens(HyphenAt(s, n)) == DeleteHyphens(s)
  {
    if |s| >= n {
      var a, b := s[..n - 1], s[n - 1..];
      assert s == a + b;
      assert "-"[1..] == "";
      assert DeleteHyphens("-") == "";
      DeleteHyphensAppend(a, "-");
      DeleteHyphensAppend(a + "-", b);
      DeleteHyphensAppend(a, b);
    }
  }

  /** Hyphens come out again, from a text of any length. */
  lemma HyphenateUndone(s: string)
    requires '-' !in s
    ensures DeleteHyphens(Hyphenate(s)) == s
  {
    var a := HyphenAt(s, 9);
    var b := HyphenAt(a, 14);
    var c := HyphenAt(b, 19);
    HyphenAtDeleted(s, 9);
    HyphenAtDeleted(a, 14);
    HyphenAtDeleted(b, 19);
    HyphenAtDeleted(c, 24);
    DeleteHyphensNone(s);
  }

  lemma {:induction false} DeleteHyphensLower(s: string)
    ensures DeleteHyphens(Lower(s)) == Lower(DeleteHyphens(s))
  {
    if s == "" {
    } else {
      DeleteHyphensLower(s[1..]);
      assert Lower(s)[1..] == Lower(s[1..]);
      assert s[0] == '-' <==> Lower(s)[0] == '-';
      assert Lower([s[0]] + DeleteHyphens(s[1..])) == [LowerChar(s[0])] + Lower(DeleteHyphens(s[1..]));
      assert Lower("" + DeleteHyphens(s[1..])) == "" + Lower(DeleteHyphens(s[1..]));
    }
  }

  /** The digits of a UUID are those of the padded half. */
  lemma UuidDigits(half: string)
    requires '-' !in half
    ensures DeleteHyphens(Uuid(half)) == Lower(Last32("00000000" + half))
  {
    var padded := Last32("00000000" + half);
    DeleteHyphensLower(Hyphenate(padded));
    HyphenateUndone(padded);
  }

  /** A half has at least 24 significant digits. */
  predicate Restorable(half: string)
    requires |half| == 32
  {
    !AllZeros(half[..9])
  }

  lemma PaddedBack(half: string, n: nat)
    requires n <= 8 && |half| == 32 && AllZeros(half[..n])
    ensures Last32("00000000" + half[n..]) == half
  {
    var padded := "00000000" + half[n..];
    assert padded[|padded| - 32..8] == half[..n];
    assert half == half[..n] + half[n..];
  }

  /** Eight zeros bring back a half that lost at most eight, and no other. */
  lemma PaddedHalfIff(half: string)
    requires |half| == 32
    ensures |StripZeros(half)| >= 24 <==> Restorable(half)
    ensures Restorable(half) ==> Last32("00000000" + StripZeros(half)) == half
    ensures !Restorable(half) ==> |Last32("00000000" + StripZeros(half))| < 32
  {
    StripZerosSplits(half);
    var n := |half| - |StripZeros(half)|;
    if n <= 8 {
      assert half[n] == StripZeros(half)[0];
      assert half[..9][n] == half[n];
      PaddedBack(half, n);
    } else {
      assert half[..9] == half[..n][..9];
    }
  }

  /** The UUID of one half of the hash: 8-4-4-4-12 and spelling that half exactly when the half
      has 24 significant digits, and too short otherwise. */
  lemma UuidSpellsHalfIff(half: string)
    requires IsHex(half) && |half| == 32
    ensures var uuid := Uuid(StripZeros(Upper(half)));
      && (DeleteHyphens(uuid) == Lower(half) <==> Restorable(half))
      && (uuid == Grouped(Lower(half)) <==> Restorable(half))
      && (!Restorable(half) ==> |DeleteHyphens(uuid)| < 32)
  {
    var up := Upper(half);
    assert AllZeros(up[..9]) <==> AllZeros(half[..9]) by {
      forall k | 0 <= k < 9 ensures up[..9][k] == '0' <==> half[..9][k] == '0' {
        assert up[..9][k] == UpperChar(half[k]);
      }
    }
    PaddedHalfIff(up);
    StripZerosSplits(up);
    UuidDigits(StripZeros(up));
    LowerOfUpper(half);
    if Restorable(half) {
      HyphenateGroups(up);
      LowerGrouped(up);
    } else {
      GroupedUndone(Lower(half));
    }
  }

  lemma LowerGrouped(s: string)
    requires |s| > 20
    ensures Lower(Grouped(s)) == Grouped(Lower(s))
  {
    var t := Lower(s);
    LowerAppend(s[..8], "-");
    LowerAppend(s[..8] + "-", s[8..12]);
    LowerAppend(s[..8] + "-" + s[8..12], "-");
    LowerAppend(s[..8] + "-" + s[8..12] + "-", s[12..16]);
    LowerAppend(s[..8] + "-" + s[8..12] + "-" + s[12..16], "-");
    LowerAppend(s[..8] + "-" + s[8..12] + "-" + s[12..16] + "-", s[16..20]);
    LowerAppend(s[..8] + "-" + s[8..12] + "-" + s[12..16] + "-" + s[16..20], "-");
    LowerAppend(s[..8] + "-" + s[8..12] + "-" + s[12..16] + "-" + s[16..20] + "-", s[20..]);
    assert Lower("-") == "-";
    assert Lower(s[..8]) == t[..8] && Lower(s[8..12]) == t[8..12] && Lower(s[12..16]) == t[12..16];
    assert Lower(s[16..20]) == t[16..20] && Lower(s[20..]) == t[20..];
  }

  lemma LowerAppend(a: string, b: string)
    ensures Lower(a + b) == Lower(a) + Lower(b)
  {
  }

  lemma GroupedUndone(s: string)
    requires |s| == 32 && '-' !in s
    ensures DeleteHyphens(Grouped(s)) == s
  {
    HyphenateGroups(s);
    HyphenateUndone(s);
  }

  lemma HalvesSpellIff(hi: string, lo: string)
    requires IsHex(hi) && |hi| == 32 && IsHex(lo) && |lo| == 32
    ensures DeleteHyphens(Uuid(StripZeros(Upper(hi))) + Uuid(StripZeros(Upper(lo)))) == Lower(hi) + Lower(lo)
       <==> Restorable(hi) && Restorable(lo)
  {
    UuidSpellsHalfIff(hi);
    UuidSpellsHalfIff(lo);
    var u, v := Uuid(StripZeros(Upper(hi))), Uuid(StripZeros(Upper(lo)));
    DeleteHyphensAppend(u, v);
    SameLengthPieces(DeleteHyphens(u), DeleteHyphens(v), Lower(hi), Lower(lo));
  }

  /** The root partition's UUID is the first 128 bits of the root hash, and the hash partition's
      the last 128 bits, exactly when those halves have 24 significant digits. */
  lemma UuidIsHalfIff(hash: string)
    requires IsHex(hash) && |hash| == 64
    ensures Uuid(RootHi(hash)) == Grouped(Lower(hash[..32])) <==> Restorable(hash[..32])
    ensures Uuid(RootLo(hash)) == Grouped(Lower(hash[32..])) <==> Restorable(hash[32..])
  {
    SplitIsSlicing(hash);
    UuidSpellsHalfIff(hash[..32]);
    UuidSpellsHalfIff(hash[32..]);
  }

  /** The digits of both UUIDs together are the root hash exactly when both halves have 24. */
  lemma UuidsSpellHashIff(hash: string)
    requires IsHex(hash) && |hash| == 64
    ensures DeleteHyphens(Uuid(RootHi(hash)) + Uuid(RootLo(hash))) == Lower(hash)
       <==> Restorable(hash[..32]) && Restorable(hash[32..])
  {
    SplitIsSlicing(hash);
    HalvesSpellIff(hash[..32], hash[32..]);
    LowerAppend(hash[..32], hash[32..]);
    assert hash == hash[..32] + hash[32..];
  }

  lemma SameLengthPieces(a: string, b: string, c: string, d: string)
    requires a == c || |a| < |c|
    requires b == d || |b| < |d|
    ensures a + b == c + d <==> a == c && b == d
  {
    assert a + b == c + d ==> |a| + |b| == |c| + |d|;
  }

  /** A half of nine zeros and 23 significant digits loses one of the zeros. */
  lemma NineZerosHalf(half: string, ones: string)
    requires |half| == 32 && |ones| == 23 && half[9..] == ones && AllZeros(half[..9])
    requires IsHex(half) && half[9] != '0'
    ensures Uuid(StripZeros(Upper(half))) == Grouped(Lower("00000000" + ones))
    ensures !Restorable(half)
  {
    var up, digits := Upper(half), Upper(ones);
    assert up[9..] == digits;
    StripsTo(up, digits);
    var padded := "00000000" + digits;
    HyphenateGroups(padded);
    LowerGrouped(padded);
    LowerOfUpper(ones);
    LowerAppend("00000000", digits);
    LowerAppend("00000000", ones);
  }

  lemma {:induction false} StripsTo(s: string, t: string)
    requires t != "" && t[0] != '0' && |s| >= |t| && s[|s| - |t|..] == t && AllZeros(s[..|s| - |t|])
    ensures StripZeros(s) == t
  {
    if |s| == |t| {
      assert s == t;
    } else {
      assert s[0] == s[..|s| - |t|][0] == '0';
      assert s[1..][..|s| - 1 - |t|] == s[..|s| - |t|][1..];
      StripsTo(s[1..], t);
    }
  }

  /** A first half that starts with nine zeros gives a UUID that is one digit short. */
  lemma NineZeros(hash: string)
    requires IsHex(hash) && |hash| == 64 && AllZeros(hash[..9]) && hash[9] != '0'
    ensures Uuid(RootHi(hash)) == Grouped(Lower("00000000" + hash[9..32])) != Grouped(Lower(hash[..32]))
    ensures DeleteHyphens(Uuid(RootHi(hash)) + Uuid(RootLo(hash))) != Lower(hash)
  {
    var half := hash[..32];
    assert half[9..] == hash[9..32] && half[..9] == hash[..9];
    NineZerosHalf(half, hash[9..32]);
    SplitIsSlicing(hash);
    UuidIsHalfIff(hash);
    UuidsSpellHashIff(hash);
  }

  /** Such a root hash. */
  lemma ShortUuid(hash: string)
    requires hash == "000000000fedcba9876543210fedcba9" + "0123456789abcdef0123456789abcdef"
    ensures IsHex(hash) && |hash| == 64
    ensures Uuid(RootHi(hash)) != Grouped(Lower(hash[..32]))
    ensures DeleteHyphens(Uuid(RootHi(hash)) + Uuid(RootLo(hash))) != Lower(hash)
  {
    NineZeros(hash);
  }

  /** Hexadecimal digits as `veritysetup` prints them. */
  predicate IsLowerHex(s: string) {
    forall k :: 0 <= k < |s| ==> s[k] in "0123456789abcdef"
  }

  lemma LowerHexIsHex(c: char)
    requires c in "0123456789abcdef"
    ensures IsHexChar(c) && LowerChar(c) == c
  {
    var i :| 0 <= i < 16 && c == "0123456789abcdef"[i];
    if i < 10 {
      assert c == (i + 48) as char;
    } else {
      assert c == (i + 87) as char;
    }
  }

  lemma LowerKeeps(s: string)
    requires IsLowerHex(s)
    ensures IsHex(s) && Lower(s) == s
  {
    forall k | 0 <= k < |s| ensures IsHexChar(s[k]) && LowerChar(s[k]) == s[k] {
      LowerHexIsHex(s[k]);
    }
  }

  /** The UUIDs of a printed root hash are its two halves, digit for digit and in the same case,
      exactly when those have 24 significant digits. */
  lemma PrintedHashUuidsIff(hash: string)
    requires IsLowerHex(hash) && |hash| == 64
    ensures Uuid(RootHi(hash)) == Grouped(hash[..32]) <==> Restorable(hash[..32])
    ensures Uuid(RootLo(hash)) == Grouped(hash[32..]) <==> Restorable(hash[32..])
    ensures DeleteHyphens(Uuid(RootHi(hash)) + Uuid(RootLo(hash))) == hash
       <==> Restorable(hash[..32]) && Restorable(hash[32..])
  {
    LowerKeeps(hash);
    assert IsLowerHex(hash[..32]) && IsLowerHex(hash[32..]);
    LowerKeeps(hash[..32]);
    LowerKeeps(hash[32..]);
    UuidIsHalfIff(hash);
    UuidsSpellHashIff(hash);
  }

  /** Whatever the case of the root hash, the UUIDs are in lower case. */
  lemma UuidsAreLower(hash: string)
    requires IsHex(hash) && |hash| == 64
    ensures forall k :: 0 <= k < |Uuid(RootHi(hash))| ==> Uuid(RootHi(hash))[k] in "0123456789abcdef-"
    ensures forall k :: 0 <= k < |Uuid(RootLo(hash))| ==> Uuid(RootLo(hash))[k] in "0123456789abcdef-"
  {
    UuidIsLower(RootHi(hash));
    UuidIsLower(RootLo(hash));
  }

  predicate DigitOrHyphen(c: char) {
    c == '-' || DigitValue(c) < 16
  }

  lemma LowerDigit(c: char)
    requires DigitOrHyphen(c)
    ensures LowerChar(c) in "0123456789abcdef-"
  {
    var all := "0123456789abcdef-";
    if c == '-' {
      assert all[16] == LowerChar(c);
    } else {
      var d := DigitValue(c);
      assert all[d] == LowerChar(c) by {
        DigitCharOfValue(c);
      }
    }
  }

  lemma HyphenAtDigits(s: string, n: nat)
    requires n >= 1 && forall k :: 0 <= k < |s| ==> DigitOrHyphen(s[k])
    ensures var t := HyphenAt(s, n); forall k :: 0 <= k < |t| ==> DigitOrHyphen(t[k])
  {
  }

  lemma UuidIsLower(half: string)
    requires AreDigits(half, 16)
    ensures forall k :: 0 <= k < |Uuid(half)| ==> Uuid(half)[k] in "0123456789abcdef-"
  {
    var s := Last32("00000000" + half);
    HyphenAtDigits(s, 9);
    HyphenAtDigits(HyphenAt(s, 9), 14);
    HyphenAtDigits(HyphenAt(HyphenAt(s, 9), 14), 19);
    HyphenAtDigits(HyphenAt(HyphenAt(HyphenAt(s, 9), 14), 19), 24);
    var t := Hyphenate(s);
    forall k | 0 <= k < |Uuid(half)| ensures Uuid(half)[k] in "0123456789abcdef-" {
      LowerDigit(t[k]);
    }
  }
}
