/** The boot half of dm-verity: source the .env file, wait for the root device, open it. */
module VerityBoot {
  import opened Text
  import opened Numerals
  import opened RootHash
  import opened VerityEnv
  import opened VerityBuild

  // ---------- polling ----------

  /** `[ $(( $C * $delay )) -gt $timeout ]` */
  predicate Expired(c: nat, delay: nat, timeout: int) {
    c * delay > timeout
  }

  /** A wait whose test fails at attempts 0 to c - 1, before the timeout, and that ends at c. */
  ghost predicate WaitEnds(test: nat -> bool, delay: nat, timeout: int, c: nat, found: bool) {
    && found == test(c)
    && (found || Expired(c, delay, timeout))
    && forall k: nat :: k < c ==> !test(k) && !Expired(k, delay, timeout)
  }

  /** Some attempt ends the wait. */
  ghost predicate CanEnd(test: nat -> bool, delay: nat, timeout: int) {
    exists c: nat :: test(c) || Expired(c, delay, timeout)
  }

  /** The attempt at which a wait gives up. */
  function LastAttempt(delay: nat, timeout: int): nat
    requires delay >= 1
  {
    if timeout < 0 then 0 else timeout / delay + 1
  }

  lemma QuotientBound(n: nat, d: nat, c: nat)
    requires d >= 1
    ensures c * d > n <==> c > n / d
  {
    DivModIdentity(n, d);
    if c > n / d {
      TimesMonotone(n / d + 1, c, d);
      assert (n / d + 1) * d == (n / d) * d + d;
    } else {
      TimesMonotone(c, n / d, d);
    }
  }

  lemma ExpiredIff(c: nat, delay: nat, timeout: int)
    requires delay >= 1
    ensures Expired(c, delay, timeout) <==> c >= LastAttempt(delay, timeout)
  {
    if timeout >= 0 {
      QuotientBound(timeout, delay, c);
    } else {
      assert c * delay >= 0;
    }
  }

  /** Every wait ends, whatever the devices do, exactly when the delay is not zero or the timeout
      is negative: with a delay of zero the product never grows. */
  lemma TimeoutEndsIff(delay: nat, timeout: int)
    ensures (forall test: nat -> bool :: CanEnd(test, delay, timeout)) <==> delay >= 1 || timeout < 0
  {
    if delay >= 1 {
      ExpiredIff(LastAttempt(delay, timeout), delay, timeout);
    } else if timeout < 0 {
      assert Expired(0, delay, timeout);
    } else {
      var never := (c: nat) => false;
      assert !CanEnd(never, delay, timeout);
    }
  }

  /** At most one sleep more than fit into the timeout; a failure means all of them. */
  lemma WaitBound(test: nat -> bool, delay: nat, timeout: int, c: nat, found: bool)
    requires delay >= 1 && WaitEnds(test, delay, timeout, c, found)
    ensures c <= LastAttempt(delay, timeout)
    ensures !found ==> c == LastAttempt(delay, timeout)
    ensures !found && timeout >= 0 ==> timeout < c * delay <= timeout + delay
  {
    var last := LastAttempt(delay, timeout);
    ExpiredIff(c, delay, timeout);
    ExpiredIff(last, delay, timeout);
    if c > 0 {
      ExpiredIff(c - 1, delay, timeout);
      assert c * delay == (c - 1) * delay + delay;
    }
  }

  /** A wait finds the device exactly when one of its attempts does. */
  lemma WaitFindsIff(test: nat -> bool, delay: nat, timeout: int, c: nat, found: bool)
    requires delay >= 1 && WaitEnds(test, delay, timeout, c, found)
    ensures found <==> exists k: nat :: k <= LastAttempt(delay, timeout) && test(k)
  {
    WaitBound(test, delay, timeout, c, found);
  }

  // ---------- the world outside the script ----------

  /** What `realpath` prints (nothing for a dangling name) and `[ -b ]` answers, by time. */
  datatype World = World(resolve: (string, nat) -> string, isBlock: (string, nat) -> bool)

  datatype BootParams = BootParams(rootdelay: Option<nat>, roottimeout: Option<int>, root: string)

  function Delay(params: BootParams): nat {
    match params.rootdelay case None => 1 case Some(d) => d
  }

  function Timeout(params: BootParams): int {
    match params.roottimeout case None => 5 case Some(t) => t
  }

  const BY_PARTUUID: string := "/dev/disk/by-partuuid/"

  /** `${text#prefix}` */
  function WithoutPrefix(text: string, prefix: string): string {
    if prefix <= text then text[|prefix|..] else text
  }

  /** The link that the case statement resolves; None when the parameter is itself the device. */
  function LinkOf(root: string): Option<string> {
    if "ID=" <= root then Some("/dev/disk/by-id/" + WithoutPrefix(root, "ID="))
    else if "LABEL=" <= root then Some("/dev/disk/by-label/" + WithoutPrefix(root, "LABEL="))
    else if "PARTLABEL=" <= root then Some("/dev/disk/by-partlabel/" + WithoutPrefix(root, "PARTLABEL="))
    else if "PARTUUID=" <= root then Some(BY_PARTUUID + WithoutPrefix(root, "PARTUUID="))
    else if "PATH=" <= root then Some("/dev/disk/by-path/" + WithoutPrefix(root, "PATH="))
    else if "UUID=" <= root then Some("/dev/disk/by-uuid/" + WithoutPrefix(root, "UUID="))
    else None
  }

  function Lookup(world: World, root: string, time: nat): string {
    match LinkOf(root)
    case Some(link) => world.resolve(link, time)
    case None => root
  }

  lemma PrefixCut(prefix: string, x: string)
    ensures prefix <= prefix + x && WithoutPrefix(prefix + x, prefix) == x
  {
  }

  /** The directory that each kind of root parameter is looked up in. */
  lemma LinkIs(x: string)
    ensures LinkOf("ID=" + x) == Some("/dev/disk/by-id/" + x)
    ensures LinkOf("LABEL=" + x) == Some("/dev/disk/by-label/" + x)
    ensures LinkOf("PARTLABEL=" + x) == Some("/dev/disk/by-partlabel/" + x)
    ensures LinkOf("PARTUUID=" + x) == Some("/dev/disk/by-partuuid/" + x)
    ensures LinkOf("PATH=" + x) == Some("/dev/disk/by-path/" + x)
    ensures LinkOf("UUID=" + x) == Some("/dev/disk/by-uuid/" + x)
  {
    PrefixCut("ID=", x);
    PrefixCut("LABEL=", x);
    PrefixCut("PARTLABEL=", x);
    PrefixCut("PARTUUID=", x);
    PrefixCut("PATH=", x);
    PrefixCut("UUID=", x);
    assert ("LABEL=" + x)[0] == 'L' && ("UUID=" + x)[0] == 'U' && ("PATH=" + x)[0] == 'P';
    assert ("PARTLABEL=" + x)[0] == 'P' && ("PARTUUID=" + x)[0] == 'P' && ("PARTUUID=" + x)[4] == 'U';
    assert ("PATH=" + x)[2] == 'T';
    assert "ID="[0] == 'I' && "LABEL="[0] == 'L' && "PARTLABEL="[4] == 'L' && "PARTLABEL="[2] == 'R' && "PARTUUID="[2] == 'R';
    assert "PARTLABEL="[0] == 'P' && "PARTUUID="[0] == 'P' && "PATH="[0] == 'P';
  }

  /** From the second attempt on the wait tests what the link resolved to one delay before. A
      parameter with none of the six prefixes is the device itself. */
  lemma RdevLater(world: World, x: string, delay: nat, c: nat)
    requires c > 0
    ensures Rdev(world, "ID=" + x, delay, c) == world.resolve("/dev/disk/by-id/" + x, (c - 1) * delay)
    ensures Rdev(world, "LABEL=" + x, delay, c) == world.resolve("/dev/disk/by-label/" + x, (c - 1) * delay)
    ensures Rdev(world, "PARTLABEL=" + x, delay, c) == world.resolve("/dev/disk/by-partlabel/" + x, (c - 1) * delay)
    ensures Rdev(world, "PARTUUID=" + x, delay, c) == world.resolve("/dev/disk/by-partuuid/" + x, (c - 1) * delay)
    ensures Rdev(world, "PATH=" + x, delay, c) == world.resolve("/dev/disk/by-path/" + x, (c - 1) * delay)
    ensures Rdev(world, "UUID=" + x, delay, c) == world.resolve("/dev/disk/by-uuid/" + x, (c - 1) * delay)
  {
    LinkIs(x);
  }

  lemma RdevOther(world: World, x: string, delay: nat, c: nat)
    requires c > 0 && !("ID=" <= x) && !("LABEL=" <= x) && !("PARTLABEL=" <= x)
    requires !("PARTUUID=" <= x) && !("PATH=" <= x) && !("UUID=" <= x)
    ensures Rdev(world, x, delay, c) == x
  {
  }

  /** The first attempt takes every parameter for a PARTUUID. */
  lemma RdevFirst(world: World, x: string, delay: nat)
    ensures Rdev(world, "PARTUUID=" + x, delay, 0) == world.resolve("/dev/disk/by-partuuid/" + x, 0)
    ensures !("PARTUUID=" <= x) ==> Rdev(world, x, delay, 0) == world.resolve("/dev/disk/by-partuuid/" + x, 0)
  {
    PrefixCut("PARTUUID=", x);
  }

  /** The time at attempt c. */
  function Clock(c: nat, delay: nat): nat {
    c * delay
  }

  lemma ClockTicks(c: nat, delay: nat)
    ensures Clock(0, delay) == 0 && Clock(c + 1, delay) == Clock(c, delay) + delay
  {
    assert (c + 1) * delay == c * delay + delay;
  }

  /** RDEV at attempt c: the first one always reads the parameter as a PARTUUID, and every later
      one was looked up before the sleep that precedes the attempt. */
  function Rdev(world: World, root: string, delay: nat, c: nat): string {
    if c == 0 then world.resolve(BY_PARTUUID + WithoutPrefix(root, "PARTUUID="), 0)
    else Lookup(world, root, Clock(c - 1, delay))
  }

  function PartitionTest(world: World, path: string, delay: nat): nat -> bool {
    (c: nat) => world.isBlock(path, Clock(c, delay))
  }

  function RootTest(world: World, root: string, delay: nat): nat -> bool {
    (c: nat) => world.isBlock(Rdev(world, root, delay, c), Clock(c, delay))
  }

  // ---------- the two loops ----------

  method WaitForPartition(world: World, path: string, delay: nat, timeout: int) returns (found: bool, c: nat)
    requires CanEnd(PartitionTest(world, path, delay), delay, timeout)
    ensures WaitEnds(PartitionTest(world, path, delay), delay, timeout, c, found)
  {
    ghost var test := PartitionTest(world, path, delay);
    ghost var end: nat :| test(end) || Expired(end, delay, timeout);
    var clock := 0;
    c := 0;
    while !world.isBlock(path, clock)
      invariant clock == Clock(c, delay) && c <= end
      invariant forall k: nat :: k < c ==> !test(k) && !Expired(k, delay, timeout)
      decreases end - c
    {
      assert !test(c);
      if c * delay > timeout {
        assert Expired(c, delay, timeout);
        return false, c;
      }
      assert !Expired(c, delay, timeout);
      ClockTicks(c, delay);
      clock := clock + delay;
      c := c + 1;
    }
    assert test(c);
    found := true;
  }

  method WaitForRoot(world: World, root: string, delay: nat, timeout: int) returns (found: bool, rdev: string, c: nat)
    requires CanEnd(RootTest(world, root, delay), delay, timeout)
    ensures WaitEnds(RootTest(world, root, delay), delay, timeout, c, found)
    ensures rdev == Rdev(world, root, delay, c)
    ensures found ==> world.isBlock(rdev, Clock(c, delay))
  {
    ghost var test := RootTest(world, root, delay);
    ghost var end: nat :| test(end) || Expired(end, delay, timeout);
    var clock := 0;
    c := 0;
    rdev := world.resolve(BY_PARTUUID + WithoutPrefix(root, "PARTUUID="), clock);
    while !world.isBlock(rdev, clock)
      invariant clock == Clock(c, delay) && c <= end
      invariant rdev == Rdev(world, root, delay, c)
      invariant forall k: nat :: k < c ==> !test(k) && !Expired(k, delay, timeout)
      decreases end - c
    {
      assert !test(c);
      if c * delay > timeout {
        assert Expired(c, delay, timeout);
        return false, rdev, c;
      }
      assert !Expired(c, delay, timeout);
      match LinkOf(root) {
        case Some(link) => rdev := world.resolve(link, clock);
        case None => rdev := root;
      }
      ClockTicks(c, delay);
      clock := clock + delay;
      c := c + 1;
    }
    assert test(c);
    found := true;
  }

  /** A partition that is there by the time of the last attempt, and stays, is found. */
  lemma PartitionFound(world: World, path: string, delay: nat, timeout: int, c: nat, found: bool)
    requires delay >= 1 && WaitEnds(PartitionTest(world, path, delay), delay, timeout, c, found)
    requires forall t: nat :: t >= Clock(LastAttempt(delay, timeout), delay) ==> world.isBlock(path, t)
    ensures found
  {
    var last := LastAttempt(delay, timeout);
    assert world.isBlock(path, Clock(last, delay));
    assert PartitionTest(world, path, delay)(last);
    WaitFindsIff(PartitionTest(world, path, delay), delay, timeout, c, found);
  }

  /** A root link must be there one delay earlier: each lookup is tested one sleep later. */
  lemma RootFound(world: World, root: string, device: string, delay: nat, timeout: nat, c: nat, found: bool)
    requires delay >= 1 && WaitEnds(RootTest(world, root, delay), delay, timeout, c, found)
    requires Lookup(world, root, Clock(timeout / delay, delay)) == device
    requires world.isBlock(device, Clock(LastAttempt(delay, timeout), delay))
    ensures found
  {
    var last := LastAttempt(delay, timeout);
    assert Rdev(world, root, delay, last) == device;
    assert RootTest(world, root, delay)(last);
    WaitFindsIff(RootTest(world, root, delay), delay, timeout, c, found);
  }

  /** And a link that appears later than that is missed, although the wait goes on for one delay. */
  lemma RootMissed(world: World, root: string, delay: nat, timeout: nat, c: nat, found: bool)
    requires delay >= 1 && WaitEnds(RootTest(world, root, delay), delay, timeout, c, found)
    requires !world.isBlock(Rdev(world, root, delay, 0), 0)
    requires forall t: nat :: t <= Clock(timeout / delay, delay) ==>
      !world.isBlock(Lookup(world, root, t), t + delay)
    ensures !found && c == LastAttempt(delay, timeout)
  {
    var test := RootTest(world, root, delay);
    WaitBound(test, delay, timeout, c, found);
    assert test(c) == world.isBlock(Rdev(world, root, delay, c), Clock(c, delay));
    ClockTicks(0, delay);
    if c > 0 {
      TimesMonotone(c - 1, timeout / delay, delay);
      ClockTicks(c - 1, delay);
    }
  }

  /** Without boot parameters a wait sleeps six times for one second: what is there from the
      sixth second on is found. With them it takes the given delay and timeout. */
  lemma DefaultWait(world: World, path: string, params: BootParams, c: nat, found: bool)
    requires params.rootdelay == None && params.roottimeout == None
    requires WaitEnds(PartitionTest(world, path, Delay(params)), Delay(params), Timeout(params), c, found)
    ensures !found ==> c == 6
    ensures (forall t: nat :: t >= 6 ==> world.isBlock(path, t)) ==> found
  {
    WaitBound(PartitionTest(world, path, 1), 1, 5, c, found);
    if forall t: nat :: t >= 6 ==> world.isBlock(path, t) {
      assert Clock(c, 1) == c;
      assert PartitionTest(world, path, 1)(c) == world.isBlock(path, c);
    }
  }

  lemma GivenWait(params: BootParams, d: nat, t: int)
    ensures params.rootdelay == Some(d) ==> Delay(params) == d
    ensures params.roottimeout == Some(t) ==> Timeout(params) == t
  {
  }

  // ---------- dmverity_run ----------

  const DEFAULTS: Vars := map[
    "DATA_SIZE" := "__not_set__", "DATA_BLOCK_SIZE" := "__not_set__",
    "ROOT_HASH" := "__not_set__", "SEPARATE_HASH" := "__not_set__"]

  /** `[ "$text" -eq 1 ]`; anything but a number is an error, and so no. */
  predicate IsOne(text: string) {
    var digits := WithoutPrefix(text, "+");
    digits != "" && AreDigits(digits, 10) && Value(digits, 10) == 1
  }

  /** Leading zeros and a plus sign do not matter, and nothing else is one. */
  lemma IsOneIff(text: string)
    ensures IsOne(text) <==> exists zeros :: AllZeros(zeros) && (text == zeros + "1" || text == "+" + zeros + "1")
  {
    var digits := WithoutPrefix(text, "+");
    if IsOne(text) {
      OneDigits(digits);
      var zeros := digits[..|digits| - 1];
      if "+" <= text {
        assert text == "+" + digits;
        assert "+" + (zeros + "1") == "+" + zeros + "1";
      }
      assert text == zeros + "1" || text == "+" + zeros + "1";
    }
    if zeros :| AllZeros(zeros) && (text == zeros + "1" || text == "+" + zeros + "1") {
      CutPlus(text, zeros);
      OneValue(zeros);
    }
  }

  lemma CutPlus(text: string, zeros: string)
    requires AllZeros(zeros) && (text == zeros + "1" || text == "+" + zeros + "1")
    ensures WithoutPrefix(text, "+") == zeros + "1"
  {
    if text == "+" + zeros + "1" {
      assert text[..1] == "+" && text[1..] == zeros + "1";
    } else {
      assert text[0] == '0' || text[0] == '1';
    }
  }

  lemma IsOneNumeral(n: nat)
    ensures IsOne(Numeral(n, 10)) <==> n == 1
  {
    var text := Numeral(n, 10);
    assert DigitValue(text[0]) < 10;
    assert !("+" <= text);
    ValueNumeral(n, 10);
  }

  lemma OneDigits(digits: string)
    requires digits != "" && AreDigits(digits, 10) && Value(digits, 10) == 1
    ensures AllZeros(digits[..|digits| - 1]) && digits == digits[..|digits| - 1] + "1"
  {
    var most, last := digits[..|digits| - 1], digits[|digits| - 1];
    var v := Value(most, 10);
    assert v * 10 + DigitValue(last) == 1;
    ValueZero(most, 10);
    assert v == 0;
    assert last == '1';
  }

  lemma OneValue(zeros: string)
    requires AllZeros(zeros)
    ensures AreDigits(zeros + "1", 10) && Value(zeros + "1", 10) == 1
  {
    ValueZero(zeros, 10);
    ValueSnoc(zeros, '1', 10);
  }

  predicate IsSeparate(vars: Vars) {
    IsOne(Get(vars, "SEPARATE_HASH"))
  }

  /** The arguments of `veritysetup` that open the root file system. */
  function CreateArgs(vars: Vars, rdev: string): seq<string> {
    if IsSeparate(vars) then
      [DataBlockArg(Get(vars, "DATA_BLOCK_SIZE")), "create", "rootfs",
       BY_PARTUUID + Get(vars, "ROOT_UUID"), BY_PARTUUID + Get(vars, "RHASH_UUID"), Get(vars, "ROOT_HASH")]
    else
      [DataBlockArg(Get(vars, "DATA_BLOCK_SIZE")), "--hash-offset=" + Get(vars, "DATA_SIZE"), "create", "rootfs",
       rdev, rdev, Get(vars, "ROOT_HASH")]
  }

  datatype BootOutcome = Fatal | Create(args: seq<string>)

  function TestOf(vars: Vars, params: BootParams, world: World): nat -> bool {
    if IsSeparate(vars) then PartitionTest(world, BY_PARTUUID + Get(vars, "ROOT_UUID"), Delay(params))
    else RootTest(world, params.root, Delay(params))
  }

  /** The boot ends with the wait for its device: fatal, or opening what the last attempt saw. */
  ghost predicate BootEnds(vars: Vars, params: BootParams, world: World, c: nat, outcome: BootOutcome) {
    && WaitEnds(TestOf(vars, params, world), Delay(params), Timeout(params), c, outcome.Create?)
    && (outcome.Create? ==> outcome.args == CreateArgs(vars, Rdev(world, params.root, Delay(params), c)))
  }

  method DmverityRun(env: seq<string>, params: BootParams, world: World) returns (outcome: BootOutcome)
    requires Sourceable(env)
    requires CanEnd(TestOf(Source(DEFAULTS, env), params, world), Delay(params), Timeout(params))
    ensures exists c: nat :: BootEnds(Source(DEFAULTS, env), params, world, c, outcome)
  {
    var vars := Source(DEFAULTS, env);
    var delay, timeout := Delay(params), Timeout(params);
    if IsOne(Get(vars, "SEPARATE_HASH")) {
      var found, c := WaitForPartition(world, BY_PARTUUID + Get(vars, "ROOT_UUID"), delay, timeout);
      if found {
        outcome := Create([DataBlockArg(Get(vars, "DATA_BLOCK_SIZE")), "create", "rootfs",
                           BY_PARTUUID + Get(vars, "ROOT_UUID"), BY_PARTUUID + Get(vars, "RHASH_UUID"),
                           Get(vars, "ROOT_HASH")]);
      } else {
        outcome := Fatal;
      }
      assert BootEnds(vars, params, world, c, outcome);
      return;
    }
    var found, rdev, c := WaitForRoot(world, params.root, delay, timeout);
    if found {
      outcome := Create([DataBlockArg(Get(vars, "DATA_BLOCK_SIZE")), "--hash-offset=" + Get(vars, "DATA_SIZE"),
                         "create", "rootfs", rdev, rdev, Get(vars, "ROOT_HASH")]);
    } else {
      outcome := Fatal;
    }
    assert BootEnds(vars, params, world, c, outcome);
  }

  // ---------- build and boot ----------

  /** Line i of a plain report has this key and this value, and no later line has the key. */
  ghost predicate Reports(report: seq<string>, i: nat, key: string, value: string) {
    && i < |report| && KeyOf(report[i]) == key && ValueOf(report[i]) == value
    && forall j :: i < j < |report| ==> KeyOf(report[j]) != key
  }

  /** The line that veritysetup prints: the key, a colon, the value lined up behind it. */
  ghost predicate Prints(line: string, key: string, value: string) {
    exists blanks :: AllBlank(blanks) && line == key + [':'] + (blanks + value)
  }

  /** A plain report in which line h alone prints the root hash and line d alone the data block size. */
  ghost predicate GoodReport(report: seq<string>, h: nat, hash: string, d: nat, block: nat) {
    && PlainReport(report) && IsRootHash(hash)
    && h < |report| && Prints(report[h], "Root hash", hash)
    && d < |report| && Prints(report[d], "Data block size", Numeral(block, 10))
    && (forall j :: 0 <= j < |report| && j != h ==> !("ROOT_HASH" <= KeyOf(report[j])))
    && (forall j :: 0 <= j < |report| && j != d ==> KeyOf(report[j]) != "DATA_BLOCK_SIZE")
  }

  lemma PlainWordHasNoSeparator(s: string)
    requires forall k :: 0 <= k < |s| ==> IsHexChar(s[k])
    ensures ':' !in s && ' ' !in s && '\t' !in s
  {
    forall k | 0 <= k < |s| ensures s[k] != ':' && s[k] != ' ' && s[k] != '\t' {
      assert IsHexChar(s[k]);
    }
  }

  lemma DigitIsHexChar(c: char)
    requires DigitValue(c) < 10
    ensures IsHexChar(c)
  {
  }

  lemma PrintsRead(line: string, key: string, value: string)
    requires Prints(line, key, value) && ':' !in key
    requires ':' !in value && ' ' !in value && '\t' !in value
    ensures ReadKey(line) == key && ValueOf(line) == value
  {
    var blanks :| AllBlank(blanks) && line == key + [':'] + (blanks + value);
    ReportLine(key, blanks, value);
  }

  lemma HashLineRead(line: string, hash: string)
    requires Prints(line, "Root hash", hash) && IsHex(hash)
    ensures KeyOf(line) == "ROOT_HASH" && ValueOf(line) == hash
  {
    PlainWordHasNoSeparator(hash);
    PrintsRead(line, "Root hash", hash);
    KnownKeys(line);
  }

  lemma BlockLineRead(line: string, block: nat)
    requires Prints(line, "Data block size", Numeral(block, 10))
    ensures KeyOf(line) == "DATA_BLOCK_SIZE" && ValueOf(line) == Numeral(block, 10)
  {
    var size := Numeral(block, 10);
    forall k | 0 <= k < |size| ensures IsHexChar(size[k]) {
      DigitIsHexChar(size[k]);
    }
    PlainWordHasNoSeparator(size);
    PrintsRead(line, "Data block size", size);
    KnownKeys(line);
  }

  lemma PrintedIsReported(report: seq<string>, h: nat, hash: string, d: nat, block: nat)
    requires GoodReport(report, h, hash, d, block)
    ensures Reports(report, h, "ROOT_HASH", hash)
    ensures Reports(report, d, "DATA_BLOCK_SIZE", Numeral(block, 10))
  {
    HashLineRead(report[h], hash);
    BlockLineRead(report[d], block);
  }

  lemma KeyNames()
    ensures IsShellName("ROOT_HASH") && "ROOT_HASH" !in APPENDED
    ensures IsShellName("DATA_BLOCK_SIZE") && "DATA_BLOCK_SIZE" !in APPENDED
  {
  }

  lemma BothReported(vars: Vars, report: seq<string>, size: nat, separate: nat, env: seq<string>,
                     h: nat, hash: string, d: nat, block: string)
    requires PlainReport(report) && env == EnvOf(report, size, separate) && Sourceable(env)
    requires Reports(report, h, "ROOT_HASH", hash) && Reports(report, d, "DATA_BLOCK_SIZE", block)
    ensures Get(Source(vars, env), "ROOT_HASH") == hash
    ensures Get(Source(vars, env), "DATA_BLOCK_SIZE") == block
  {
    KeyNames();
    EnvRoundTrip(vars, report, size, separate, h, env);
    EnvRoundTrip(vars, report, size, separate, d, env);
  }

  /** Both scripts read the flag alike. */
  lemma SeparateIff(vars: Vars, report: seq<string>, size: nat, separate: nat, env: seq<string>)
    requires env == EnvOf(report, size, separate) && Sourceable(env)
    ensures IsSeparate(Source(vars, env)) <==> separate == 1
  {
    SettingsRoundTrip(vars, report, size, separate, env);
    IsOneNumeral(separate);
  }

  lemma KeyHasPrefix(prefix: string, key: string, value: string)
    requires '=' !in prefix && prefix <= key + "=" + value
    ensures prefix <= key
  {
    var line := key + "=" + value;
    assert line[|key|] == '=';
    forall k | 0 <= k < |prefix| ensures line[k] != '=' {
      assert line[k] == prefix[k];
    }
    assert |prefix| <= |key|;
    assert line[..|prefix|] == key[..|prefix|];
  }

  lemma OtherLines(report: seq<string>, size: nat, separate: nat, env: seq<string>, h: nat, k: nat)
    requires env == BaseEnv(report, size, separate) && k < |env| && k != h
    requires forall j :: 0 <= j < |report| && j != h ==> !("ROOT_HASH" <= KeyOf(report[j]))
    ensures !("ROOT_HASH" <= env[k])
  {
    if k < |report| {
      if "ROOT_HASH" <= env[k] {
        KeyHasPrefix("ROOT_HASH", KeyOf(report[k]), ValueOf(report[k]));
      }
    } else {
      var name := if k == |report| then "DATA_SIZE" else "SEPARATE_HASH";
      assert env[k][0] == name[0] != 'R';
    }
  }

  /** The root hash that the UUIDs are cut from is the reported one. */
  lemma RootHashIsReported(report: seq<string>, size: nat, separate: nat, h: nat, hash: string, d: nat, block: nat)
    requires GoodReport(report, h, hash, d, block)
    ensures RootHashText(BaseEnv(report, size, separate)) == hash
  {
    var env := BaseEnv(report, size, separate);
    HashLineRead(report[h], hash);
    assert "ROOT_HASH" + "=" == "ROOT_HASH=";
    assert env[h] == "ROOT_HASH=" + hash;
    forall k | 0 <= k < |env| && k != h ensures !("ROOT_HASH" <= env[k]) {
      OtherLines(report, size, separate, env, h, k);
    }
    GrepOne(env, h, hash);
  }

  /** The arguments written out: a data device and a hash device. */
  function OpenSeparate(block: string, rootUuid: string, rhashUuid: string, hash: string): seq<string> {
    ["--data-block-size=" + block, "create", "rootfs",
     "/dev/disk/by-partuuid/" + rootUuid, "/dev/disk/by-partuuid/" + rhashUuid, hash]
  }

  /** And one device for both, with the place of the hash data. */
  function OpenAppended(block: string, size: string, rdev: string, hash: string): seq<string> {
    ["--data-block-size=" + block, "--hash-offset=" + size, "create", "rootfs", rdev, rdev, hash]
  }

  /** Of a file that sets nothing, only the defaults are left. */
  lemma UnsetArgs(rdev: string)
    ensures CreateArgs(Source(DEFAULTS, []), rdev) == OpenAppended("__not_set__", "__not_set__", rdev, "__not_set__")
  {
    assert "__not_set__"[0] == '_';
  }

  /** The UUIDs have no default. */
  lemma UnsetUuids(vars: Vars, rdev: string)
    requires vars.Keys == DEFAULTS.Keys && IsOne(vars["SEPARATE_HASH"])
    ensures CreateArgs(vars, rdev) == OpenSeparate(vars["DATA_BLOCK_SIZE"], "", "", vars["ROOT_HASH"])
  {
    assert "ROOT_UUID" !in DEFAULTS && "RHASH_UUID" !in DEFAULTS;
  }

  /** With separate hash data the script opens the two UUIDs of the file. */
  lemma SeparateArgs(vars: Vars, env: seq<string>, report: seq<string>, size: nat, separate: nat, rdev: string,
                     h: nat, hash: string, d: nat, block: nat)
    requires GoodReport(report, h, hash, d, block)
    requires separate == 1 && env == EnvOf(report, size, separate) && Sourceable(env)
    ensures IsSeparate(Source(vars, env)) && Get(Source(vars, env), "ROOT_UUID") == Uuid(RootHi(hash))
    ensures CreateArgs(Source(vars, env), rdev) ==
            OpenSeparate(Numeral(block, 10), Uuid(RootHi(hash)), Uuid(RootLo(hash)), hash)
  {
    PrintedIsReported(report, h, hash, d, block);
    BothReported(vars, report, size, separate, env, h, hash, d, Numeral(block, 10));
    RootHashIsReported(report, size, separate, h, hash, d, block);
    UuidsRoundTrip(vars, report, size, separate, env);
    SeparateIff(vars, report, size, separate, env);
  }

  /** With appended hash data it opens its root device with the size as the offset. */
  lemma AppendedArgs(vars: Vars, env: seq<string>, report: seq<string>, size: nat, separate: nat, rdev: string,
                     h: nat, hash: string, d: nat, block: nat)
    requires GoodReport(report, h, hash, d, block)
    requires separate != 1 && env == EnvOf(report, size, separate) && Sourceable(env)
    ensures !IsSeparate(Source(vars, env))
    ensures CreateArgs(Source(vars, env), rdev) == OpenAppended(Numeral(block, 10), Numeral(size, 10), rdev, hash)
  {
    PrintedIsReported(report, h, hash, d, block);
    BothReported(vars, report, size, separate, env, h, hash, d, Numeral(block, 10));
    SettingsRoundTrip(vars, report, size, separate, env);
    SeparateIff(vars, report, size, separate, env);
  }

  /** What a boot that opens something has seen at its last attempt. */
  lemma BootSaw(vars: Vars, params: BootParams, world: World, c: nat, outcome: BootOutcome)
    requires BootEnds(vars, params, world, c, outcome) && outcome.Create?
    ensures var rdev := Rdev(world, params.root, Delay(params), c);
      && outcome.args == CreateArgs(vars, rdev)
      && world.isBlock(if IsSeparate(vars) then BY_PARTUUID + Get(vars, "ROOT_UUID") else rdev, Clock(c, Delay(params)))
  {
    assert TestOf(vars, params, world)(c);
  }

  /** A build with separate hash data and a boot from its file: the boot waits for the partition
      whose UUID the build wrote into the .wks.in file, and opens it and the other one of that
      file with the reported hash and data block size. The image size reaches neither side. */
  lemma SeparateBuildBoot(config: Config, input: string, inputSize: nat, veritysetup: seq<string> -> seq<string>,
                          args: seq<string>, env: seq<string>, wks: seq<string>,
                          vars: Vars, sourced: Vars, params: BootParams, world: World, c: nat, outcome: BootOutcome,
                          h: nat, hash: string, d: nat)
    requires config.separate == 1 && Align(config) > 0
    requires Built(config, input, inputSize, veritysetup, args, env, wks)
    requires GoodReport(DropFirst(veritysetup(args)), h, hash, d, config.dataBlock)
    requires Sourceable(env) && sourced == Source(vars, env)
    requires BootEnds(sourced, params, world, c, outcome) && outcome.Create?
    ensures var u, v := Uuid(RootHi(hash)), Uuid(RootLo(hash));
      && IsFragment(wks, config, u, v)
      && Ends(wks[0], " --uuid=\"" + u + "\"") && Ends(wks[1], " --uuid=\"" + v + "\"")
      && outcome.args == OpenSeparate(Numeral(config.dataBlock, 10), u, v, hash)
      && world.isBlock("/dev/disk/by-partuuid/" + u, Clock(c, Delay(params)))
    ensures "--data-block-size=" + Numeral(config.dataBlock, 10) in args
    ensures forall other: nat :: FormatArgs(config, other, input) == args
  {
    var report, size := DropFirst(veritysetup(args)), Aligned(inputSize, Align(config));
    SeparateBootFrom(vars, sourced, env, report, size, params, world, c, outcome, h, hash, d, config.dataBlock);
    RootHashIsReported(report, size, config.separate, h, hash, d, config.dataBlock);
    FormatHasBlock(config, size, input, args);
    WksLines(config, Uuid(RootHi(hash)), Uuid(RootLo(hash)));
    WksEnds(config, Uuid(RootHi(hash)), Uuid(RootLo(hash)));
  }

  lemma FormatHasBlock(config: Config, size: nat, input: string, args: seq<string>)
    requires args == FormatArgs(config, size, input)
    ensures "--data-block-size=" + Numeral(config.dataBlock, 10) in args
    ensures config.separate != 1 ==> "--hash-offset=" + Numeral(size, 10) in args
  {
    FormatArgsAre(config, size, input);
    assert args[0] == "--data-block-size=" + Numeral(config.dataBlock, 10);
    assert config.separate != 1 ==> args[2] == "--hash-offset=" + Numeral(size, 10);
  }

  lemma SeparateBootFrom(vars: Vars, sourced: Vars, env: seq<string>, report: seq<string>, size: nat,
                         params: BootParams, world: World, c: nat, outcome: BootOutcome, h: nat, hash: string, d: nat, block: nat)
    requires env == EnvOf(report, size, 1) && Sourceable(env) && GoodReport(report, h, hash, d, block)
    requires sourced == Source(vars, env) && BootEnds(sourced, params, world, c, outcome) && outcome.Create?
    ensures outcome.args == OpenSeparate(Numeral(block, 10), Uuid(RootHi(hash)), Uuid(RootLo(hash)), hash)
    ensures world.isBlock("/dev/disk/by-partuuid/" + Uuid(RootHi(hash)), Clock(c, Delay(params)))
  {
    SeparateArgs(vars, env, report, size, 1, Rdev(world, params.root, Delay(params), c), h, hash, d, block);
    BootSaw(sourced, params, world, c, outcome);
  }

  lemma AppendedBootFrom(vars: Vars, sourced: Vars, env: seq<string>, report: seq<string>, size: nat, separate: nat,
                         params: BootParams, world: World, c: nat, outcome: BootOutcome, h: nat, hash: string, d: nat, block: nat)
    requires separate != 1 && env == EnvOf(report, size, separate) && Sourceable(env)
    requires GoodReport(report, h, hash, d, block)
    requires sourced == Source(vars, env) && BootEnds(sourced, params, world, c, outcome) && outcome.Create?
    ensures var rdev := Rdev(world, params.root, Delay(params), c);
      && outcome.args == OpenAppended(Numeral(block, 10), Numeral(size, 10), rdev, hash)
      && world.isBlock(rdev, Clock(c, Delay(params)))
  {
    AppendedArgs(vars, env, report, size, separate, Rdev(world, params.root, Delay(params), c), h, hash, d, block);
    BootSaw(sourced, params, world, c, outcome);
  }

  /** A build with appended hash data and a boot from its file: the boot opens a device that it
      has just seen, with the reported hash and data block size and the offset given to `format`. */
  lemma AppendedBuildBoot(config: Config, input: string, inputSize: nat, veritysetup: seq<string> -> seq<string>,
                          args: seq<string>, env: seq<string>, wks: seq<string>,
                          vars: Vars, sourced: Vars, params: BootParams, world: World, c: nat, outcome: BootOutcome,
                          h: nat, hash: string, d: nat)
    requires config.separate != 1 && Align(config) > 0
    requires Built(config, input, inputSize, veritysetup, args, env, wks)
    requires GoodReport(DropFirst(veritysetup(args)), h, hash, d, config.dataBlock)
    requires Sourceable(env) && sourced == Source(vars, env)
    requires BootEnds(sourced, params, world, c, outcome) && outcome.Create?
    ensures var rdev, size := Rdev(world, params.root, Delay(params), c), Numeral(Aligned(inputSize, Align(config)), 10);
      && outcome.args == OpenAppended(Numeral(config.dataBlock, 10), size, rdev, hash)
      && "--hash-offset=" + size in args && "--data-block-size=" + Numeral(config.dataBlock, 10) in args
      && world.isBlock(rdev, Clock(c, Delay(params)))
  {
    var report, size := DropFirst(veritysetup(args)), Aligned(inputSize, Align(config));
    AppendedBootFrom(vars, sourced, env, report, size, config.separate, params, world, c, outcome, h, hash, d, config.dataBlock);
    FormatHasBlock(config, size, input, args);
  }

  /** The two devices carry the reported hash, first half and last half, exactly when both halves
      have 24 significant digits. */
  lemma SeparateDevicesIff(block: string, hash: string)
    requires IsRootHash(hash)
    ensures OpenSeparate(block, Uuid(RootHi(hash)), Uuid(RootLo(hash)), hash) ==
            OpenSeparate(block, Grouped(Lower(hash[..32])), Grouped(Lower(hash[32..])), hash)
       <==> Restorable(hash[..32]) && Restorable(hash[32..])
  {
    UuidIsHalfIff(hash);
    SameDevices(block, hash, Uuid(RootHi(hash)), Uuid(RootLo(hash)),
                Grouped(Lower(hash[..32])), Grouped(Lower(hash[32..])));
  }

  /** Of a hash as `veritysetup` prints it the devices carry the digits as they are. */
  lemma PrintedDevicesIff(block: string, hash: string)
    requires IsLowerHex(hash) && |hash| == 64
    ensures OpenSeparate(block, Uuid(RootHi(hash)), Uuid(RootLo(hash)), hash) ==
            OpenSeparate(block, Grouped(hash[..32]), Grouped(hash[32..]), hash)
       <==> Restorable(hash[..32]) && Restorable(hash[32..])
  {
    PrintedHashUuidsIff(hash);
    SameDevices(block, hash, Uuid(RootHi(hash)), Uuid(RootLo(hash)), Grouped(hash[..32]), Grouped(hash[32..]));
  }

  lemma SameDevices(block: string, hash: string, u: string, v: string, u': string, v': string)
    ensures OpenSeparate(block, u, v, hash) == OpenSeparate(block, u', v', hash) <==> u == u' && v == v'
  {
    var a, b := OpenSeparate(block, u, v, hash), OpenSeparate(block, u', v', hash);
    SamePrefix(BY_PARTUUID, u, u');
    SamePrefix(BY_PARTUUID, v, v');
    assert a[3] == BY_PARTUUID + u && b[3] == BY_PARTUUID + u';
    assert a[4] == BY_PARTUUID + v && b[4] == BY_PARTUUID + v';
  }

  lemma SamePrefix(prefix: string, a: string, b: string)
    ensures prefix + a == prefix + b <==> a == b
  {
    assert (prefix + a)[|prefix|..] == a && (prefix + b)[|prefix|..] == b;
  }
}
