/** The build half of dm-verity: align the image, format it, and write the .env and .wks.in files. */
module VerityBuild {
  import opened Numerals
  import opened RootHash
  import opened VerityEnv

  datatype Config = Config(
    dataBlock: nat, hashBlock: nat, separate: nat,
    deployDir: string, image: string, machine: string, suffix: string, imageType: string,
    rootGuid: string, rhashGuid: string)

  // ---------- alignment ----------

  function Align(config: Config): (align: nat)
    ensures align == config.dataBlock || align == config.hashBlock
    ensures align >= config.dataBlock && align >= config.hashBlock
  {
    if config.dataBlock >= config.hashBlock then config.dataBlock else config.hashBlock
  }

  function Aligned(size: nat, align: nat): nat
    requires align > 0
  {
    (size + align - 1) / align * align
  }

  predicate Divides(d: nat, n: nat)
    requires d > 0
  {
    n % d == 0
  }

  lemma MultipleDivides(d: nat, q: nat)
    requires d > 0
    ensures Divides(d, q * d)
  {
    DivModUnique(q, d, 0);
  }

  lemma PositiveFactor(k: int, align: nat)
    requires k * align > 0
    ensures k > 0
  {
  }

  lemma TimesMonotone(q: nat, m: nat, align: nat)
    requires q <= m
    ensures q * align <= m * align
  {
  }

  lemma SmallerMultiple(q: nat, m: nat, align: nat, size: nat)
    requires align > 0 && q * align < size + align && size <= m * align
    ensures q * align <= m * align
  {
    assert (m + 1 - q) * align == m * align + align - q * align;
    PositiveFactor(m + 1 - q, align);
    TimesMonotone(q, m, align);
  }

  lemma AlignedAtMost(size: nat, align: nat, n: nat)
    requires align > 0 && size <= n && Divides(align, n)
    ensures Aligned(size, align) <= n
  {
    DivModIdentity(size + align - 1, align);
    DivModIdentity(n, align);
    SmallerMultiple((size + align - 1) / align, n / align, align, size);
  }

  /** The aligned size is the least multiple of the block that holds the image. */
  lemma AlignedIsLeast(size: nat, align: nat)
    requires align > 0
    ensures var aligned := Aligned(size, align);
      && size <= aligned < size + align && Divides(align, aligned)
      && forall n: nat :: size <= n && Divides(align, n) ==> aligned <= n
  {
    DivModIdentity(size + align - 1, align);
    MultipleDivides(align, (size + align - 1) / align);
    forall n: nat | size <= n && Divides(align, n) ensures Aligned(size, align) <= n {
      AlignedAtMost(size, align, n);
    }
  }

  lemma AlignedTwice(size: nat, align: nat)
    requires align > 0
    ensures Aligned(Aligned(size, align), align) == Aligned(size, align)
  {
    var q := (size + align - 1) / align;
    DivModUnique(q, align, align - 1);
  }

  lemma DividesThrough(d: nat, m: nat, n: nat)
    requires d > 0 && m > 0 && Divides(d, m) && Divides(m, n)
    ensures Divides(d, n)
  {
    DivModIdentity(m, d);
    DivModIdentity(n, m);
    assert n == (n / m) * (m / d) * d;
    MultipleDivides(d, (n / m) * (m / d));
  }

  /** Both blocks divide the aligned size of every image exactly when one divides the other. */
  lemma BothDivideIff(config: Config)
    requires config.dataBlock > 0 && config.hashBlock > 0
    ensures (forall size: nat :: Divides(config.dataBlock, Aligned(size, Align(config)))
                              && Divides(config.hashBlock, Aligned(size, Align(config))))
       <==> Divides(config.dataBlock, Align(config)) && Divides(config.hashBlock, Align(config))
  {
    var align := Align(config);
    if Divides(config.dataBlock, align) && Divides(config.hashBlock, align) {
      forall size: nat
        ensures Divides(config.dataBlock, Aligned(size, align)) && Divides(config.hashBlock, Aligned(size, align))
      {
        AlignedIsLeast(size, align);
        DividesThrough(config.dataBlock, align, Aligned(size, align));
        DividesThrough(config.hashBlock, align, Aligned(size, align));
      }
    } else {
      DivModUnique(1, align, 0);
      assert Aligned(1, align) == align;
      assert !(Divides(config.dataBlock, Aligned(1, align)) && Divides(config.hashBlock, Aligned(1, align)));
    }
  }

  lemma {:induction false} PowDivides(a: nat, b: nat)
    requires a <= b
    ensures Pow(2, a) > 0 && Divides(Pow(2, a), Pow(2, b))
    decreases b - a
  {
    PowPositive(2, a);
    if a == b {
      DivModUnique(1, Pow(2, a), 0);
    } else {
      PowDivides(a, b - 1);
      DivModIdentity(Pow(2, b - 1), Pow(2, a));
      var q := Pow(2, b - 1) / Pow(2, a);
      assert Pow(2, b) == (2 * q) * Pow(2, a);
      MultipleDivides(Pow(2, a), 2 * q);
    }
  }

  /** Block sizes are powers of two, so both divide the aligned size. */
  lemma PowersOfTwoDivide(config: Config, a: nat, b: nat, size: nat)
    requires config.dataBlock == Pow(2, a) && config.hashBlock == Pow(2, b)
    ensures config.dataBlock > 0 && config.hashBlock > 0
    ensures Divides(config.dataBlock, Aligned(size, Align(config)))
    ensures Divides(config.hashBlock, Aligned(size, Align(config)))
  {
    PowPositive(2, a);
    PowPositive(2, b);
    if a <= b { PowDivides(a, b); } else { PowDivides(b, a); }
    PowDivides(a, a);
    PowDivides(b, b);
    PowOrder(config.dataBlock, config.hashBlock);
    BothDivideIff(config);
  }

  /** The aligned size is the least multiple of both blocks that holds the image. */
  lemma AlignedIsLeastCommon(config: Config, a: nat, b: nat, size: nat)
    requires config.dataBlock == Pow(2, a) && config.hashBlock == Pow(2, b)
    ensures config.dataBlock > 0 && config.hashBlock > 0
    ensures var aligned := Aligned(size, Align(config));
      && size <= aligned && Divides(config.dataBlock, aligned) && Divides(config.hashBlock, aligned)
      && forall n: nat :: size <= n && Divides(config.dataBlock, n) && Divides(config.hashBlock, n) ==> aligned <= n
  {
    PowersOfTwoDivide(config, a, b, size);
    AlignedIsLeast(size, Align(config));
  }

  lemma PowOrder(d: nat, h: nat)
    requires d > 0 && h > 0 && (Divides(d, h) || Divides(h, d))
    ensures d > h ==> Divides(h, d)
    ensures h > d ==> Divides(d, h)
  {
  }

  // ---------- veritysetup format ----------

  function HashOffsetArg(size: nat): string {
    "--hash-offset=" + Numeral(size, 10)
  }

  function DataBlockArg(block: string): string {
    "--data-block-size=" + block
  }

  function FormatArgs(config: Config, size: nat, input: string): seq<string> {
    [DataBlockArg(Numeral(config.dataBlock, 10)), "--hash-block-size=" + Numeral(config.hashBlock, 10)]
    + (if config.separate == 1 then [] else [HashOffsetArg(size)])
    + ["format", input + ".verity", input + if config.separate == 1 then ".vhash" else ".verity"]
  }

  /** The arguments word by word. */
  lemma FormatArgsAre(config: Config, size: nat, input: string)
    ensures FormatArgs(config, size, input) ==
      if config.separate == 1 then
        ["--data-block-size=" + Numeral(config.dataBlock, 10), "--hash-block-size=" + Numeral(config.hashBlock, 10),
         "format", input + ".verity", input + ".vhash"]
      else
        ["--data-block-size=" + Numeral(config.dataBlock, 10), "--hash-block-size=" + Numeral(config.hashBlock, 10),
         "--hash-offset=" + Numeral(size, 10), "format", input + ".verity", input + ".verity"]
  {
  }

  /** `tail -n +2` */
  function DropFirst(lines: seq<string>): seq<string> {
    if lines == [] then [] else lines[1..]
  }

  function WksPart(config: Config, mount: string, extension: string, name: string, guid: string, uuid: string): string {
    "part " + mount + "--source rawcopy --ondisk sda --sourceparams=\"file="
    + config.deployDir + "/" + config.image + "-" + config.machine + config.suffix + "." + config.imageType + extension
    + "\" --part-name " + name + " --part-type=\"" + guid + "\"" + " --uuid=\"" + uuid + "\""
  }

  function Wks(config: Config, rootUuid: string, rhashUuid: string): seq<string> {
    [WksPart(config, "/ ", ".verity", "verityroot", config.rootGuid, rootUuid),
     WksPart(config, "", ".vhash", "verityhash", config.rhashGuid, rhashUuid)]
  }

  /** The fragment, written out: one line for each partition. The mounted root partition gets
      the .verity file, the root type and the UUID u; the hash partition, which is mounted
      nowhere, the .vhash file, the hash type and the UUID v. */
  ghost predicate IsFragment(wks: seq<string>, config: Config, u: string, v: string) {
    && |wks| == 2
    && wks[0] ==
       "part / " + "--source rawcopy --ondisk sda --sourceparams=\"file=" + config.deployDir + "/" + config.image
       + "-" + config.machine + config.suffix + "." + config.imageType + ".verity" + "\" --part-name " + "verityroot"
       + " --part-type=\"" + config.rootGuid + "\"" + " --uuid=\"" + u + "\""
    && wks[1] ==
       "part " + "--source rawcopy --ondisk sda --sourceparams=\"file=" + config.deployDir + "/" + config.image
       + "-" + config.machine + config.suffix + "." + config.imageType + ".vhash" + "\" --part-name " + "verityhash"
       + " --part-type=\"" + config.rhashGuid + "\"" + " --uuid=\"" + v + "\""
  }

  lemma WksLines(config: Config, u: string, v: string)
    ensures IsFragment(Wks(config, u, v), config, u, v)
  {
    assert "part " + "/ " == "part / " && "part " + "" == "part ";
  }

  ghost predicate Ends(s: string, tail: string) {
    exists head :: s == head + tail
  }

  lemma EndsSo(head: string, a: string, b: string, c: string)
    ensures Ends(head + a + b + c, a + b + c)
  {
    assert head + a + b + c == head + (a + b + c);
  }

  /** How each line ends. */
  lemma WksEnds(config: Config, u: string, v: string)
    ensures Ends(Wks(config, u, v)[0], " --uuid=\"" + u + "\"") && Ends(Wks(config, u, v)[1], " --uuid=\"" + v + "\"")
  {
    WksPartEnds(config, "/ ", ".verity", "verityroot", config.rootGuid, u);
    WksPartEnds(config, "", ".vhash", "verityhash", config.rhashGuid, v);
  }

  lemma WksPartEnds(config: Config, mount: string, extension: string, name: string, guid: string, uuid: string)
    ensures Ends(WksPart(config, mount, extension, name, guid, uuid), " --uuid=\"" + uuid + "\"")
  {
    var head := "part " + mount + "--source rawcopy --ondisk sda --sourceparams=\"file="
      + config.deployDir + "/" + config.image + "-" + config.machine + config.suffix + "." + config.imageType + extension
      + "\" --part-name " + name + " --part-type=\"" + guid + "\"";
    EndsSo(head, " --uuid=\"", uuid, "\"");
  }

  /** `tail -n +2` drops the line that veritysetup prints above the report. */
  lemma HeaderIsDropped(header: string, report: seq<string>)
    ensures DropFirst([header] + report) == report && DropFirst([]) == []
  {
  }

  /** What a SHA-256 root hash looks like. */
  predicate IsRootHash(hash: string) {
    |hash| == 64 && IsHex(hash)
  }

  /** What a build leaves: the arguments given to `format`, and the two files made of the report
      that veritysetup printed for exactly these arguments. */
  ghost predicate Built(config: Config, input: string, inputSize: nat, veritysetup: seq<string> -> seq<string>,
                        args: seq<string>, env: seq<string>, wks: seq<string>)
    requires Align(config) > 0
  {
    var size := Aligned(inputSize, Align(config));
    var report := DropFirst(veritysetup(args));
    var hash := RootHashText(BaseEnv(report, size, config.separate));
    && args == FormatArgs(config, size, input)
    && env == EnvOf(report, size, config.separate)
    && (config.separate != 0 ==> wks == Wks(config, Uuid(RootHi(hash)), Uuid(RootLo(hash))))
  }

  /** The staging directory: three files, written line by line. */
  class Staging {
    var env: seq<string>
    var wks: seq<string>
    var args: seq<string>

    constructor ()
      ensures env == [] && wks == [] && args == []
    {
      env, wks, args := [], [], [];
    }

    method ProcessVerity(report: seq<string>, size: nat, config: Config)
      requires var hash := RootHashText(BaseEnv(report, size, config.separate));
        config.separate != 0 ==> IsRootHash(hash)
      modifies this`env, this`wks
      ensures env == EnvOf(report, size, config.separate)
      ensures var hash := RootHashText(BaseEnv(report, size, config.separate));
        wks == if config.separate == 0 then old(wks)
               else Wks(config, Uuid(RootHi(hash)), Uuid(RootLo(hash)))
    {
      WriteReport(report);
      env := env + ["DATA_SIZE=" + Numeral(size, 10)];
      env := env + ["SEPARATE_HASH=" + Numeral(config.separate, 10)];
      EnvOfLines(report, size, config.separate);
      assert env == EnvLines(report) + ["DATA_SIZE=" + Numeral(size, 10), "SEPARATE_HASH=" + Numeral(config.separate, 10)];
      if config.separate == 0 {
        return;
      }
      var rootHash := RootHashText(env);
      var rootUuid, rhashUuid := Uuid(RootHi(rootHash)), Uuid(RootLo(rootHash));
      ghost var base := env;
      env := env + ["ROOT_UUID=" + rootUuid];
      env := env + ["RHASH_UUID=" + rhashUuid];
      assert env == base + ["ROOT_UUID=" + rootUuid, "RHASH_UUID=" + rhashUuid];
      wks := [WksPart(config, "/ ", ".verity", "verityroot", config.rootGuid, rootUuid)];
      wks := wks + [WksPart(config, "", ".vhash", "verityhash", config.rhashGuid, rhashUuid)];
    }

    /** The read loop. */
    method WriteReport(report: seq<string>)
      modifies this`env
      ensures env == EnvLines(report)
    {
      env := [];
      for k := 0 to |report|
        invariant env == EnvLines(report)[..k]
      {
        var key, val := ReadKey(report[k]), ReadValue(report[k]);
        env := env + [seq(|key|, n requires 0 <= n < |key| => NameChar(key[n])) + "=" + DeleteBlanks(val)];
      }
    }

    /** `veritysetup` maps its arguments to the lines it prints. */
    method VeritySetup(input: string, inputSize: nat, config: Config, veritysetup: seq<string> -> seq<string>)
      requires config.dataBlock > 0 || config.hashBlock > 0
      requires var size := Aligned(inputSize, Align(config));
        var report := DropFirst(veritysetup(FormatArgs(config, size, input)));
        var hash := RootHashText(BaseEnv(report, size, config.separate));
        config.separate != 0 ==> IsRootHash(hash)
      modifies this
      ensures Built(config, input, inputSize, veritysetup, args, env, wks)
      ensures config.separate == 0 ==> wks == old(wks)
    {
      var size := inputSize;
      var outputHash := input + ".verity";
      var hashOffset: seq<string> := [];
      var align;
      if config.dataBlock >= config.hashBlock {
        align := config.dataBlock;
      } else {
        align := config.hashBlock;
      }
      size := (size + align - 1) / align * align;
      if config.separate == 1 {
        outputHash := input + ".vhash";
      } else {
        hashOffset := ["--hash-offset=" + Numeral(size, 10)];
      }
      args := ["--data-block-size=" + Numeral(config.dataBlock, 10), "--hash-block-size=" + Numeral(config.hashBlock, 10)]
              + hashOffset + ["format", input + ".verity", outputHash];
      assert args == FormatArgs(config, size, input);
      ProcessVerity(DropFirst(veritysetup(args)), size, config);
    }
  }
}
