# Verified model of the text and image tooling of meta-security

Five scripts of this layer carry real logic, and this project models them in Dafny and proves what
they are for:

- **Bastille question files** (`set_required_questions.py`): `Questions.dfy` edits one file through
  three loops that share one iterator, `QuestionsRun.dfy` runs a config over a directory of files,
  `QuestionsExamples.dfy` holds a concrete file.
- **dm-verity** (`dm-verity-img.bbclass` and the initramfs script `dmverity`): `RootHash.dfy` cuts the
  root hash into partition UUIDs, `VerityEnv.dfy` writes and sources the `.env` file,
  `VerityBuild.dfy` aligns and formats the image, `VerityBoot.dfy` waits for the device and opens it.
- **fstab and `iversion`** (`ima-evm-rootfs.bbclass`): `Fstab.dfy` has the two substitutions,
  `LineEdit.dfy` the `perl -pi` loop around them, `FstabLines.dfy` says what becomes of an entry of
  the file, `FstabExamples.dfy` holds two concrete lines.
- **`check_endlines`** (`tpm2.py`): `Endlines.dfy`.

`Text.dfy` holds the `str` methods and text-file reading of Python that these rely on (universal
newlines included), `Numerals.dfy` the numerals of `bc` and `expr`.

The dm-verity facts follow the Discoverable Partitions Specification, section "Defined Partition Type
UUIDs" (root partition UUID: first 128 bits of the root hash; verity partition UUID: last 128 bits),
and section 3 of RFC 4122 (8-4-4-4-12 text form). `2^80` in the class is read by `bc` under
`ibase=16`, so it is 2 to the power 128.

## Main results

- A whole run over question files equals one pass over the files as they were at the start. So order
  and repetition of config lines do not matter, a second run changes nothing, and a failing run leaves
  exactly the edits before the failing line.
- The two UUIDs carry the two halves of the root hash exactly when each half has at least 24
  significant hex digits, that is, a nonzero digit among its first nine.
- From the build to the boot, as one theorem for each mode: a boot that sources the file which the build
  wrote and opens something opens a device that it has just seen, with the reported hash, the data block
  size and the offset that `format` was given, or with the two UUIDs of the `.wks.in` file.
- The waits end after at most `timeout/delay + 1` sleeps, and it is known exactly which devices they find.
- The fstab edit may be repeated, any number of times, exactly when every line settles: after one pass
  its first option is the one that ends the mount options. On any other line every pass adds one more
  option, and the text after n passes is known. Unless a mount point itself mentions the option, the
  unedited file decides: it may be edited any number of times exactly when on each line no option comes
  before the run of options that ends the mount options.
- A successful config run changes exactly the files `fname.txt` that the config names, each for its own
  questions.
- A config run succeeds exactly when every line of the config can be read and every pair's edit alone
  would succeed on the initial files.

## Where the code and its documentation differ

The model follows the code.

- `set_required_questions.py:42-54` speaks of the REQUIRE_DISTRO line of the question. The second loop
  does not stop at the next LABEL line, so the question's own line is edited exactly when one comes
  before the next LABEL line (`Questions.EditsOwnLineIff`); otherwise the line of some later question is
  (`Questions.TargetOfLaterQuestion`, `QuestionsExamples.EditsNextQuestion`).
- `set_required_questions.py:25` says "Skipping badly formatted line", but the error ends the run. A run
  gets past its config exactly when every line is a comment or a pair (`QuestionsRun.MalformedIff`,
  `QuestionsRun.RunConfigSucceedsIff`); a blank line is neither (`QuestionsRun.BlankLineIsMalformed`).
- `ima-evm-rootfs.bbclass:40-44,60` requires that the edit can be repeated. Only the first run of
  `,iversion` on a line is collapsed, so an `,iversion` inside the options, or in an earlier field,
  makes every pass add another (`Fstab.EditsRepeatableIff`,
  `Fstab.PassesGrow`, `FstabExamples.OptionInside`).
- `dm-verity-img.bbclass:100` prefixes eight zeros for halves "not using highest bits"; a half with
  more than eight leading zero digits gives a UUID that is too short (`RootHash.UuidSpellsHalfIff`,
  `RootHash.ShortUuid`).
- `dmverity:22`: with `rootdelay=0` the elapsed time never grows, so the timeout never ends a wait
  (`VerityBoot.TimeoutEndsIff`).

## Model

| member | source | states |
|---|---|---|
| Questions.LineIterator.Next | dynamic-layers/meta-perl/recipes-security/bastille/files/set_required_questions.py:55 | the iterator yields the line at its position and moves on; at the end it stays |
| Questions.PassLabel | dynamic-layers/meta-perl/recipes-security/bastille/files/set_required_questions.py:55-63 | yields the lines up to the question's LABEL line and leaves the iterator behind it; raises on a malformed LABEL line met before |
| Questions.PassRequire | dynamic-layers/meta-perl/recipes-security/bastille/files/set_required_questions.py:64-72 | goes on to the next REQUIRE_DISTRO line, yields it rewritten, and leaves the iterator behind it |
| Questions.PassRest | dynamic-layers/meta-perl/recipes-security/bastille/files/set_required_questions.py:73-74 | yields exactly what is left and exhausts the iterator |
| Questions.AddRequires | dynamic-layers/meta-perl/recipes-security/bastille/files/set_required_questions.py:43-74 | the three loops together yield the edited file, each line once and in order |
| Questions.TargetIsTargets | dynamic-layers/meta-perl/recipes-security/bastille/files/set_required_questions.py:55-70 | the edited line is the first REQUIRE_DISTRO line after the first line with the label, and conversely |
| Questions.EditedSucceedsIff | dynamic-layers/meta-perl/recipes-security/bastille/files/set_required_questions.py:57-66 | the edit succeeds if and only if no malformed LABEL line precedes the question and its REQUIRE_DISTRO line has one colon |
| Questions.EditedErrors | dynamic-layers/meta-perl/recipes-security/bastille/files/set_required_questions.py:57-66 | which of the two errors the edit ends with, exactly |
| Questions.MatchesIff | dynamic-layers/meta-perl/recipes-security/bastille/files/set_required_questions.py:57-60 | a line is the question's if and only if it is `LABEL:`, white space, the name, white space, with no other colon |
| Questions.BadLabelIff | dynamic-layers/meta-perl/recipes-security/bastille/files/set_required_questions.py:57-63 | a LABEL line is malformed if and only if it has a second colon |
| Questions.EditedParts | dynamic-layers/meta-perl/recipes-security/bastille/files/set_required_questions.py:55-74 | a file given in parts keeps all of them but the first REQUIRE_DISTRO line behind the label, which is rewritten |
| Questions.EditedNone | dynamic-layers/meta-perl/recipes-security/bastille/files/set_required_questions.py:55-74 | without the label, or without any REQUIRE_DISTRO line, the file is kept |
| Questions.RewriteIs | dynamic-layers/meta-perl/recipes-security/bastille/files/set_required_questions.py:65-69 | the value field is searched word by word, and gets one blank, the distribution and a newline behind its stripped text |
| Questions.EditedMeaning | dynamic-layers/meta-perl/recipes-security/bastille/files/set_required_questions.py:43-74 | output line j differs from input line j only if j is the target and lacks the distribution; the length is kept |
| Questions.TargetsOne | dynamic-layers/meta-perl/recipes-security/bastille/files/set_required_questions.py:64-70 | at most one line of a file is targeted |
| Questions.EditsOwnLineIff | dynamic-layers/meta-perl/recipes-security/bastille/files/set_required_questions.py:42-72 | no LABEL line lies between the question and the edited line if and only if some REQUIRE_DISTRO line comes before the next LABEL line |
| Questions.TargetOfLaterQuestion | dynamic-layers/meta-perl/recipes-security/bastille/files/set_required_questions.py:64-72 | otherwise the edited line is the first REQUIRE_DISTRO line after the next LABEL line, past any number of further ones, or there is none |
| QuestionsExamples.EditsNextQuestion | dynamic-layers/meta-perl/recipes-security/bastille/files/set_required_questions.py:42-72 | a file in which the edit for question a changes the line of question b |
| Questions.AppendedMeaning | dynamic-layers/meta-perl/recipes-security/bastille/files/set_required_questions.py:35-37 | the rewritten line keeps label, prefix and single colon, and its words are the old ones and the distribution |
| Questions.RewriteMembership | dynamic-layers/meta-perl/recipes-security/bastille/files/set_required_questions.py:65-69 | after the rewrite `check_contains` finds the distribution and, of all others, exactly those it found before |
| Questions.RewriteTwiceIff | dynamic-layers/meta-perl/recipes-security/bastille/files/set_required_questions.py:66-69 | rewriting a line twice is rewriting it once if and only if the distribution is one word without a colon, or blank |
| QuestionsRun.OnePassAgain | dynamic-layers/meta-perl/recipes-security/bastille/files/set_required_questions.py:55-74 | passes for two sets of labels add up to one pass for both |
| QuestionsRun.OnePassKeepsTargets | dynamic-layers/meta-perl/recipes-security/bastille/files/set_required_questions.py:55-74 | an edit never changes which line any label targets |
| QuestionsRun.EditTwice | dynamic-layers/meta-perl/recipes-security/bastille/files/set_required_questions.py:55-74 | a second edit for the same label changes nothing |
| QuestionsRun.EditsCommute | dynamic-layers/meta-perl/recipes-security/bastille/files/set_required_questions.py:55-74 | edits for two labels give the same lines in either order |
| QuestionsRun.OnePassIsRead | dynamic-layers/meta-perl/recipes-security/bastille/files/set_required_questions.py:85-93 | the lines written to a file are the lines read from it next time |
| QuestionsRun.WrittenKeepsRefusals | dynamic-layers/meta-perl/recipes-security/bastille/files/set_required_questions.py:136-141 | no earlier edit of a run makes a later one fail or succeed |
| QuestionsRun.RefusedIff | dynamic-layers/meta-perl/recipes-security/bastille/files/set_required_questions.py:55-86 | an edit is refused for a missing file, a malformed LABEL line before the question, or its malformed REQUIRE_DISTRO line, and for nothing else |
| QuestionsRun.RunIsOnePass | dynamic-layers/meta-perl/recipes-security/bastille/files/set_required_questions.py:136-141 | a run is one pass over the initial files for the edits before the first refused one, and ends with its error |
| QuestionsRun.RunSucceedsIff | dynamic-layers/meta-perl/recipes-security/bastille/files/set_required_questions.py:136-152 | a run succeeds if and only if each edit alone would succeed on the initial files |
| QuestionsRun.OrderIsIrrelevant | dynamic-layers/meta-perl/recipes-security/bastille/files/set_required_questions.py:136-141 | runs over the same set of edits succeed alike and leave the same files |
| QuestionsRun.RunTwice | dynamic-layers/meta-perl/recipes-security/bastille/files/set_required_questions.py:136-141 | repeating a successful run changes nothing |
| QuestionsRun.RunStopsAt | dynamic-layers/meta-perl/recipes-security/bastille/files/set_required_questions.py:136-152 | a failed run has made exactly the edits before the failing one, for any distribution |
| QuestionsRun.FinalIsOnePass | dynamic-layers/meta-perl/recipes-security/bastille/files/set_required_questions.py:136-141 | after a successful run a file that no edit names is unchanged, and every file reads as one pass over its initial lines |
| QuestionsRun.FinalLines | dynamic-layers/meta-perl/recipes-security/bastille/files/set_required_questions.py:136-141 | line j has gained the distribution if and only if it lacked it and some edit of its file targets j |
| QuestionsRun.NextPair | dynamic-layers/meta-perl/recipes-security/bastille/files/set_required_questions.py:10-25 | one resumption of the generator yields the next pair, stops, or raises, and keeps the pairs still to come |
| QuestionsRun.ParsePairIff | dynamic-layers/meta-perl/recipes-security/bastille/files/set_required_questions.py:18-21 | a line gives a pair if and only if it is `fname.ident=value` with no further separator |
| QuestionsRun.ConfigAppend | dynamic-layers/meta-perl/recipes-security/bastille/files/set_required_questions.py:15-21 | the pairs of a config come line after line |
| QuestionsRun.EditedPath | dynamic-layers/meta-perl/recipes-security/bastille/files/set_required_questions.py:139 | the three cases of the joined path, written out |
| QuestionsRun.MalformedLineStops | dynamic-layers/meta-perl/recipes-security/bastille/files/set_required_questions.py:15-25 | a malformed config line ends the run with the edits before it made and nothing after it counting |
| QuestionsRun.MalformedIff | dynamic-layers/meta-perl/recipes-security/bastille/files/set_required_questions.py:15-25 | reading a config raises if and only if some line is neither a comment nor a pair |
| QuestionsRun.RunConfigSucceedsIff | dynamic-layers/meta-perl/recipes-security/bastille/files/set_required_questions.py:136-152 | a config run succeeds if and only if every line is a comment or a pair and each pair's edit alone would succeed on the initial files |
| QuestionsRun.RunConfigEdits | dynamic-layers/meta-perl/recipes-security/bastille/files/set_required_questions.py:138-140 | after a successful run the file `dir/fname.txt` reads as one pass for exactly the questions that the config names with `fname` |
| QuestionsRun.RunConfigKeeps | dynamic-layers/meta-perl/recipes-security/bastille/files/set_required_questions.py:138-140 | and every other file is unchanged |
| QuestionsRun.BlankLineIsMalformed | dynamic-layers/meta-perl/recipes-security/bastille/files/set_required_questions.py:16-18 | every line of white space only is malformed |
| QuestionsRun.ConfigOrderIsIrrelevant | dynamic-layers/meta-perl/recipes-security/bastille/files/set_required_questions.py:136-141 | permuting or repeating config lines gives the same files |
| QuestionsRun.QuestionsDir.XformFile | dynamic-layers/meta-perl/recipes-security/bastille/files/set_required_questions.py:78-93 | the file is rewritten whole by the edit, or no file changes |
| Text.WordsIff | dynamic-layers/meta-perl/recipes-security/bastille/files/set_required_questions.py:37 | `str.split()` yields exactly the maximal runs of characters that are not white space |
| Text.StripIff | dynamic-layers/meta-perl/recipes-security/bastille/files/set_required_questions.py:60 | `str.strip()` yields what is left between white space |
| QuestionsRun.QuestionsDir.Run | dynamic-layers/meta-perl/recipes-security/bastille/files/set_required_questions.py:136-152 | editing pair by pair as the generator yields them is the run over all pairs before the first malformed line |
| QuestionsRun.PrintedPairIff | dynamic-layers/meta-perl/recipes-security/bastille/files/set_required_questions.py:16-21 | a printed entry is read as its own pair if and only if no part of it holds a separator and it does not start as a comment |
| QuestionsRun.ConfigRoundTrip | dynamic-layers/meta-perl/recipes-security/bastille/files/set_required_questions.py:15-25 | printing entries and comments and reading the file gives the pairs back in order |
| RootHash.SplitIsSlicing | classes/dm-verity-img.bbclass:95-97 | dividing by 2^128 and printing gives the first 32 digits, the remainder the last 32, both without leading zeros |
| RootHash.HyphenateGroups | classes/dm-verity-img.bbclass:102-105 | four inserts at 9, 14, 19 and 24 are the grouping 8-4-4-4-12 |
| RootHash.HyphenateUndone | classes/dm-verity-img.bbclass:102-105 | deleting the hyphens undoes the inserts, for a text of any length |
| RootHash.PaddedHalfIff | classes/dm-verity-img.bbclass:99-105 | eight zeros restore a half if and only if it has 24 significant digits |
| RootHash.UuidSpellsHalfIff | classes/dm-verity-img.bbclass:102-105 | the UUID is the grouped half if and only if the half has 24 significant digits, and too short otherwise |
| RootHash.UuidIsHalfIff | classes/dm-verity-img.bbclass:90-105 | each UUID is its 128 bits of the root hash if and only if they have 24 significant digits |
| RootHash.UuidsSpellHashIff | classes/dm-verity-img.bbclass:95-105 | the digits of both UUIDs are the lower-case root hash if and only if both halves have 24 significant digits |
| RootHash.PrintedHashUuidsIff | classes/dm-verity-img.bbclass:95-105 | for a hash in lower case the two UUIDs are its halves, digit for digit and in that case, if and only if these have 24 significant digits |
| RootHash.UuidsAreLower | classes/dm-verity-img.bbclass:102-105 | whatever the case of the hash, the UUIDs are in lower case |
| RootHash.NineZeros | classes/dm-verity-img.bbclass:99-105 | a hash that starts with exactly nine zeros gives a first UUID that lacks one digit |
| RootHash.ShortUuid | classes/dm-verity-img.bbclass:99-105 | a hash for which the root UUID is not its first half |
| Numerals.NumeralValue | classes/dm-verity-img.bbclass:96-97 | reading digits and printing the number drops the leading zeros and nothing else |
| Numerals.ValueNumeral | classes/dm-verity-img.bbclass:83-86 | a printed number is read back |
| Numerals.DigitCharIs | classes/dm-verity-img.bbclass:96-97 | the sixteen digits, in order |
| VerityEnv.ReportLine | classes/dm-verity-img.bbclass:67-77 | a line of key, colon, blanks and value is split into this key and this value |
| VerityEnv.ReadOtherLines | classes/dm-verity-img.bbclass:72-76 | a line without a colon is all key, and a value keeps its own colons unless the only one ends it |
| VerityEnv.KeyChars | classes/dm-verity-img.bbclass:75 | letters go to upper case, blanks to underscores, and every other character of a key is kept |
| VerityEnv.KnownKeys | classes/dm-verity-img.bbclass:75 | the printed keys become the names that the boot script uses |
| VerityEnv.PrintedAssignment | classes/dm-verity-img.bbclass:74-76 | a printed assignment is sourced as the one it was printed from |
| VerityEnv.PlainIsNotSpecial | recipes-core/initrdscripts/initramfs-framework-dm/dmverity:13 | a line of the files that the model sources holds nothing that the shell treats specially |
| VerityEnv.SourceLast | recipes-core/initrdscripts/initramfs-framework-dm/dmverity:13 | in a file of plain text the last line that assigns a name decides its value |
| VerityEnv.EnvRoundTrip | classes/dm-verity-img.bbclass:72-83 | sourcing gives a key of a plain report its value unless a later line has the same normalised key |
| VerityEnv.ReportRoundTrip | classes/dm-verity-img.bbclass:72-83 | a report whose normalised keys are distinct comes back whole |
| VerityEnv.SettingsRoundTrip | classes/dm-verity-img.bbclass:79-83 | DATA_SIZE and SEPARATE_HASH come back from every file of plain text, even if the report has keys of these names |
| VerityEnv.UuidsRoundTrip | classes/dm-verity-img.bbclass:107-109 | the two UUIDs come back from every file of plain text, even if the report has keys of these names |
| VerityEnv.EnvOfLines | classes/dm-verity-img.bbclass:72-109 | the file line by line, without UUIDs if and only if the flag is 0 |
| VerityEnv.GrepLine | classes/dm-verity-img.bbclass:95 | every line that starts with ROOT_HASH counts |
| VerityEnv.CutFirstIs | classes/dm-verity-img.bbclass:95 | the first occurrence of the pattern is cut out and nothing else |
| VerityBuild.AlignedIsLeast | classes/dm-verity-img.bbclass:132-137 | the size becomes the least multiple of the block that holds the image |
| VerityBuild.AlignedTwice | classes/dm-verity-img.bbclass:137 | aligning again changes nothing |
| VerityBuild.BothDivideIff | classes/dm-verity-img.bbclass:132-137 | both blocks divide the aligned size of every image if and only if both divide the larger block |
| VerityBuild.PowersOfTwoDivide | classes/dm-verity-img.bbclass:40-44 | for powers of two both blocks divide the aligned size |
| VerityBuild.AlignedIsLeastCommon | classes/dm-verity-img.bbclass:132-137 | for powers of two the aligned size is the least multiple of both blocks that holds the image |
| VerityBuild.FormatArgsAre | classes/dm-verity-img.bbclass:139-152 | the arguments of `veritysetup format`, word by word |
| VerityBuild.HeaderIsDropped | classes/dm-verity-img.bbclass:158 | the report starts behind the first printed line |
| VerityBuild.WksLines | classes/dm-verity-img.bbclass:111-117 | the root partition line carries the mount point, the .verity file, the root type and the first UUID; the hash partition line no mount point, the .vhash file, the hash type and the second UUID |
| VerityBuild.Staging.WriteReport | classes/dm-verity-img.bbclass:72-77 | the read loop writes one assignment for each line of the report |
| VerityBuild.Staging.ProcessVerity | classes/dm-verity-img.bbclass:62-118 | the .env file is the report, the settings and, unless the flag is 0, the UUIDs that the .wks.in file also gets |
| VerityBuild.Staging.VeritySetup | classes/dm-verity-img.bbclass:120-159 | the three files for the aligned size and the report that `veritysetup` gives for exactly the saved arguments |
| VerityBoot.TimeoutEndsIff | recipes-core/initrdscripts/initramfs-framework-dm/dmverity:16-22 | every wait ends, whatever the devices do, if and only if the delay is positive or the timeout negative |
| VerityBoot.WaitBound | recipes-core/initrdscripts/initramfs-framework-dm/dmverity:21-29 | at most timeout/delay + 1 sleeps; a failure means all of them, more than the timeout and at most one delay more |
| VerityBoot.WaitFindsIff | recipes-core/initrdscripts/initramfs-framework-dm/dmverity:21-29 | a wait succeeds if and only if one of the attempts up to the last does |
| VerityBoot.WaitForPartition | recipes-core/initrdscripts/initramfs-framework-dm/dmverity:21-29 | the loop stops at the first attempt that sees the partition or is past the timeout |
| VerityBoot.WaitForRoot | recipes-core/initrdscripts/initramfs-framework-dm/dmverity:46-79 | the loop with re-resolution stops likewise, and a success holds a block device |
| VerityBoot.PartitionFound | recipes-core/initrdscripts/initramfs-framework-dm/dmverity:21-29 | a partition that is there from the last attempt on is found |
| VerityBoot.RootFound | recipes-core/initrdscripts/initramfs-framework-dm/dmverity:46-79 | a link that resolves one delay before the last attempt is found |
| VerityBoot.RootMissed | recipes-core/initrdscripts/initramfs-framework-dm/dmverity:46-79 | a link that resolves only later is missed although the wait goes on |
| VerityBoot.LinkIs | recipes-core/initrdscripts/initramfs-framework-dm/dmverity:53-74 | the directory that each of the six kinds of root parameter is looked up in |
| VerityBoot.RdevLater | recipes-core/initrdscripts/initramfs-framework-dm/dmverity:53-74 | from the second attempt on the device is what the link of that directory resolved to one delay before |
| VerityBoot.RdevOther | recipes-core/initrdscripts/initramfs-framework-dm/dmverity:72-73 | a parameter with none of the six prefixes is the device itself |
| VerityBoot.RdevFirst | recipes-core/initrdscripts/initramfs-framework-dm/dmverity:46 | the first attempt takes every parameter for a PARTUUID |
| VerityBoot.DefaultWait | recipes-core/initrdscripts/initramfs-framework-dm/dmverity:15-29 | without boot parameters a failure has slept six times for one second, and a partition that is there from the sixth second on is found |
| VerityBoot.DmverityRun | recipes-core/initrdscripts/initramfs-framework-dm/dmverity:7-87 | the boot ends with the wait for its device: fatal, or opening the device that the last attempt saw |
| VerityBoot.IsOneIff | recipes-core/initrdscripts/initramfs-framework-dm/dmverity:20 | the flag is on if and only if it is 1, with or without leading zeros or a plus sign |
| VerityBoot.UnsetArgs | recipes-core/initrdscripts/initramfs-framework-dm/dmverity:8-11 | what a file that sets nothing leaves in the arguments |
| VerityBoot.SeparateIff | recipes-core/initrdscripts/initramfs-framework-dm/dmverity:20 | sourcing a file of plain text, the boot takes the separate branch if and only if the build flag was 1 |
| VerityBoot.RootHashIsReported | classes/dm-verity-img.bbclass:95 | in a plain report with one root hash line, the hash read back by grep and sed is the printed one |
| VerityBoot.PrintedIsReported | classes/dm-verity-img.bbclass:72-77 | the lines that `veritysetup` prints for the root hash and the data block size become these two settings |
| VerityBoot.AppendedBuildBoot | recipes-core/initrdscripts/initramfs-framework-dm/dmverity:81-87 | after a build with appended hash data, a boot that opens something opens a device it has just seen, with the printed hash, the formatted block size and the offset that `format` was given |
| VerityBoot.SeparateBuildBoot | recipes-core/initrdscripts/initramfs-framework-dm/dmverity:20-36 | after a build with separate hash data the .wks.in file gives the first UUID to the root partition and the second one to the hash partition, and a boot that opens something has just seen the partition with the first one and opens it and the second one, with the printed hash and the formatted block size; the size reaches neither side |
| VerityBoot.SeparateDevicesIff | recipes-core/initrdscripts/initramfs-framework-dm/dmverity:31-36 | the two devices of that boot are named after the two halves of the hash if and only if both have 24 significant digits |
| VerityBoot.PrintedDevicesIff | recipes-core/initrdscripts/initramfs-framework-dm/dmverity:31-36 | for a hash in lower case they are named after its halves as they are printed, under the same condition |
| Fstab.MatchIsFields | meta-integrity/classes/ima-evm-rootfs.bbclass:62 | every match of the pattern is made of whole fields, except that its last group may be shorter |
| Fstab.EmptyMatchIsFields | meta-integrity/classes/ima-evm-rootfs.bbclass:62 | every match of the pattern with the empty alternative has three whole fields and two blanks or more behind the first |
| Fstab.InsertedAtPerlMatch | meta-integrity/classes/ima-evm-rootfs.bbclass:62 | the insertion is at the end of the match that Perl prefers, the leftmost and then greediest, for mount points and for the empty alternative; without a match there is none |
| Fstab.InsertedMatch | meta-integrity/classes/ima-evm-rootfs.bbclass:62 | after the insertion the pattern matches the same fields |
| Fstab.CollapsedTags | meta-integrity/classes/ima-evm-rootfs.bbclass:62 | after the second substitution the first run of options is a single one, where it was |
| Fstab.CollapsedRun | meta-integrity/classes/ima-evm-rootfs.bbclass:62 | the first run of options, however long, becomes one option, and the text before and behind it is kept |
| Fstab.PassTwiceIff | meta-integrity/classes/ima-evm-rootfs.bbclass:40-62 | two passes over a line equal one if and only if the line settles, whatever the mount points |
| Fstab.SettlesIff | meta-integrity/classes/ima-evm-rootfs.bbclass:62 | when no mount point mentions the option, a line settles if and only if no option comes before the run that ends its mount options |
| Fstab.RepeatableIff | meta-integrity/classes/ima-evm-rootfs.bbclass:40-62 | so for such mount points the line alone decides whether two passes over it equal one |
| Fstab.PassesAreOne | meta-integrity/classes/ima-evm-rootfs.bbclass:40-62 | any number of passes over a line that settles equals one |
| Fstab.PassesGrow | meta-integrity/classes/ima-evm-rootfs.bbclass:60-62 | over any other line, n passes give the result of one with n - 1 more options at the end of its mount options |
| Fstab.PassContent | meta-integrity/classes/ima-evm-rootfs.bbclass:46-62 | a repeatable line keeps all other characters, its options end in exactly one option, and none comes earlier |
| Fstab.EditTwiceIff | meta-integrity/classes/ima-evm-rootfs.bbclass:40-63 | editing the file again changes nothing if and only if every line settles |
| Fstab.EditRepeatableIff | meta-integrity/classes/ima-evm-rootfs.bbclass:40-63 | when no mount point mentions the option, editing the file again changes nothing if and only if every line of the unedited file is repeatable |
| Fstab.EditsRepeatableIff | meta-integrity/classes/ima-evm-rootfs.bbclass:40-63 | for such mount points every number of edits of the file equals one if and only if every line of the unedited file is repeatable |
| Fstab.EditsAreOne | meta-integrity/classes/ima-evm-rootfs.bbclass:40-63 | if every line settles, any number of edits of the file equals one |
| FstabExamples.OptionInside | meta-integrity/classes/ima-evm-rootfs.bbclass:60-62 | a line with the option among its other options, on which a second pass differs |
| FstabExamples.MountMentionsOption | meta-integrity/classes/ima-evm-rootfs.bbclass:62 | a mount point that mentions the option and a line that looks repeatable and is not |
| Fstab.RootFs.EditFstab | meta-integrity/classes/ima-evm-rootfs.bbclass:61-63 | an existing fstab becomes its edited text; a missing one stays missing |
| Fstab.AlternativesAreWordsIff | meta-integrity/classes/ima-evm-rootfs.bbclass:62 | the alternatives of the pattern are non-empty words if and only if the variable is unset or holds one; otherwise there is one empty alternative |
| FstabLines.ListedWords | meta-integrity/classes/ima-evm-rootfs.bbclass:62 | the alternatives of words joined by blanks are all these words, in order |
| FstabLines.MountPointIff | meta-integrity/classes/ima-evm-rootfs.bbclass:62 | a word is an alternative if and only if it is a maximal run of characters of the variable that are not white space |
| FstabLines.NoWords | meta-integrity/classes/ima-evm-rootfs.bbclass:62 | an unset variable gives `no-such-mount-point` alone, and one of blanks the empty alternative |
| FstabLines.BlankIff | meta-integrity/classes/ima-evm-rootfs.bbclass:62 | the six characters that separate fields |
| FstabLines.ListedEntryGains | meta-integrity/classes/ima-evm-rootfs.bbclass:62 | an entry whose second field is listed gets the option right behind its fourth field, and nothing else changes |
| FstabLines.UnlistedEntryKept | meta-integrity/classes/ima-evm-rootfs.bbclass:62 | four fields whose second one is not listed are kept |
| FstabLines.EditListed | meta-integrity/classes/ima-evm-rootfs.bbclass:61-63 | in a file the entry of every word of the variable, at any place of the list, gets the option, whatever the other lines are |
| FstabLines.HomeGains | meta-integrity/classes/ima-evm-rootfs.bbclass:62 | for `/ /home` a line with tabs gets the option |
| LineEdit.EditInPlace | meta-integrity/classes/ima-evm-rootfs.bbclass:62 | the loop runs the script on every line once, in order |
| LineEdit.EditTextOfLines | meta-integrity/classes/ima-evm-rootfs.bbclass:62 | a file of lines becomes the file of the edited lines |
| LineEdit.EditTextTwiceIff | meta-integrity/classes/ima-evm-rootfs.bbclass:62 | a file is stable after one edit if and only if each of its lines is |
| Endlines.StruckIsRemaining | meta-tpm/lib/oeqa/runtime/cases/tpm2.py:19-24 | striking line by line and striking item by item leave the same list, order included |
| Endlines.RemainingIsDifference | meta-tpm/lib/oeqa/runtime/cases/tpm2.py:19-24 | what is left is the multiset difference |
| Endlines.NothingRemainsIff | meta-tpm/lib/oeqa/runtime/cases/tpm2.py:26 | the check passes if and only if every expected line occurs as often as expected |
| Endlines.LineOrderIsIrrelevant | meta-tpm/lib/oeqa/runtime/cases/tpm2.py:20-24 | the order of the output lines changes neither the verdict nor the report |
| Endlines.EndlineList.Remove | meta-tpm/lib/oeqa/runtime/cases/tpm2.py:23 | `remove` takes out the first equal item |
| Endlines.CheckEndlines | meta-tpm/lib/oeqa/runtime/cases/tpm2.py:19-27 | the shared list ends as the multiset difference, and the message lists it |
| Endlines.MissingLines | meta-tpm/lib/oeqa/runtime/cases/tpm2.py:26-27 | the message lists every missing line on a line of its own, indented |

## Left out

- Bastille: temporary files, copied permissions, character encodings, argument parsing and exit codes; files are a map from path to text, and paths that differ only in spelling are different files.
- Bastille: the run theorems speak of a distribution that is one word without a colon; `Questions.RewriteTwiceIff` shows that others but blank ones are not stable already on one line.
- QuestionsRun.RunConfigEdits: a pair whose file name starts with a slash names a file outside the directory (`QuestionsRun.EditedPath`); the statement is for configs without such names and a directory path without a slash at its end, as `abspath` gives it.
- Questions.AddRequires: the generator yields lazily; the model returns all it yields, because its one caller drops everything when it raises.
- Fstab.SettlesIff: mount points that themselves contain `,iversion` are excluded, because collapsing can then turn another field into a mount point (`FstabExamples.MountMentionsOption`); `Fstab.PassTwiceIff` covers them.
- Fstab.MountPoints: mount points are literal text without regex characters.
- VerityEnv.ReadValue: backslashes, which `read` and some `echo` interpret, are not modelled.
- VerityEnv.Source: a file with a line that the shell would expand, split, quote or reject (a quote, a blank, a dollar sign) is outside the model; `VerityEnv.PlainReport` says which reports never give one.
- VerityBuild.Staging.ProcessVerity: `bc` on text that is no hexadecimal number, and its wrapping of long output, are outside the model, so the separate mode requires a root hash of 64 hexadecimal digits.
- VerityBoot.RootHashIsReported: a report with several lines whose key starts with ROOT_HASH is outside the statement, as the `grep` would join them.
- dm-verity: `veritysetup` is a function from arguments to printed lines; mounting, the hash tree and the symlinks of `verity_hash` are not part of this model.
- dm-verity: time passes only in `sleep`; `realpath` and the block-device test are arbitrary functions of time.
- `check_endlines`: the split of the output into lines; the model starts from the lines.
- Everything else in the layer (recipes, patches, init scripts, other tests) declares or drives things and has no logic of this kind.
