# Verified model of cpr and of the coreutils library parts beside it

`cpr` copies a directory tree with a walker thread that makes directories and queues files, and a
second thread that feeds the queued files to the kernel's asynchronous I/O. The repository carries
a coreutils 8.31 tree as its baseline. This project models the copy engine and the library
routines of that tree whose correctness is least obvious, and proves what they promise.

- **The copy engine** (`FileSystem`, `CopyEngine`, `CopyInvariants`, `WalkerSteps`, `AioSteps`,
  `CopyTheorems`, `CopyProgress`, `CopyLiveness`, `CopyProcess`): a transition system of three parties. The walker
  steps from lock to lock, the AIO thread section by section of its loop body, and the kernel
  completes any submitted request at any moment. An action sequence is one interleaving; the
  theorems speak about all of them. `CopyProcess.Process` is the program as a class whose methods
  change its fields one at a time; each turn is proved to be a step of the system, and
  `CopyProcess.Copy` runs the turns of threads and kernel under any schedule, to a complete copy
  if the process returns.
- **Version comparison** (`CStrings`, `VersionCompare`, `VersionOrder`, `VersionSuffix`): `filevercmp`,
  shown to be a total order by a list of numbers computed from a name, and which order that is.
- **Base64 and Base32** (`BaseCodec`, `BaseStandard`, `BaseEncode`, `BaseDecode`, `BaseAlloc`): sections 4 and 6 of
  RFC 4648, streaming, with a context that lives across calls. The two source files are the same
  text up to the sizes of a unit, so the common parts are stated once for a `Kind`.
- **Globs and exclusion lists** (`Fnmatch`, `FnmatchText`, `FnmatchExact`, `Exclude`, `ExcludeList`): the matcher against the
  language of its pattern, and the compiled list against the plain rule "the last match decides".
- **Cycle detection, numbered backups, canonical names** (`CycleCheck`, `CycleWalks`, `NumberedBackup`,
  `Canonicalize`).

Code that works by updating things in place is a method over arrays or a class, proved against a
function; what the source promises is then proved about that function.

## Where code and promise differ

The model follows the code. Where the code does less than its documentation or its tests lead one
to expect, a concrete input shows it and a theorem says exactly when the promise holds.

- The engine keeps a file's size in an `int`. A finished copy equals its source exactly when no
  file has 2^31 bytes or more and there is nothing but directories and regular files
  (`FaithfulIff`); of a file of 2^32 + 4096 bytes only the first 4096 are copied, without an error
  (`BigFileCutShort`, `BigFileRun`). A size that wraps to a negative number ends the run, and so
  does a directory entry whose type says it is a device, a pipe, a link or a socket; nothing else
  does (`ErrorExact`). A source that is itself such a special file is passed over in silence; so is
  one further down if its directory entry gives no type.
- `filevercmp` orders names by version for the numbers as they read in the names. After the prefix
  `1` the version `002` sorts behind `3` (`JoinedNotInOrder`); `NumbersInOrder` says what counts
  for every prefix and suffix.
- A Base64 decoder with a context accepts padding in the middle of a stream, one without does not
  (`PaddedTwice`); `ContextAgrees` has the exact condition. In Base32 there is no difference.
- The comment of `match_suffix` gives a regular expression; the scanner differs from it for some
  runs of dots (`NotAsDocumented`), and `AsDocumented` says for which.
- With `FNM_PATHNAME` a star followed by a quoted slash matches nothing (`QuotedSlashMissed`). A
  pattern is misjudged for some name exactly if it has such a star and each of its tokens can match
  something (`QuotedSlashExact`).
- The lower bound of a bracket's range is kept in a plain `char`. Where that is signed, the range
  from byte 128 to byte 144 matches `A` (`SignedRangeMatches`); a range is as documented exactly if
  `char` is unsigned or the bound is ASCII (`RangeExact`), a bracket exactly if it has the bytes
  gained that way by another item (`BracketExact`). `DocumentedExact` joins this with the quoted
  slash: it says for every pattern whether all names are matched as documented.
- The hash table of an exclusion list looks up more than a scan would for a name with `//`
  (`ExactNames`), and finds a pattern that ends in a lone backslash, which matches nothing. An
  option is compiled exactly for all names without `//` if and only if it does not end so, or is
  filed under a name that itself has `//` (`ExactPatterns`).
- `base32_encode_alloc` asks whether its overflow check is sufficient: it is, and it is never a
  false alarm (`OverflowCheckExact`).

## Model

| member | source | states |
|---|---|---|
| CopyTheorems.EndToEnd | cpr/aio_manager.c:35-207 | For every finite tree, fresh destination, interleaving, completion order and batch sizes: once `wait_for_aio_finish` has returned, every directory of the source is there, every regular file has the bytes transferred for it, there is nothing else under the destination, and the rest of the file system is unchanged |
| CopyTheorems.FaithfulIff | cpr/aio_manager.c:100-114 | A finished copy is the source, name by name and byte by byte, if and only if all entries are directories or regular files of fewer than 2^31 bytes |
| CopyTheorems.FitsIsFaithful | cpr/aio_manager.c:105-114 | If all sizes fit, a completed copy equals its source |
| CopyTheorems.FaithfulFits | cpr/aio_manager.c:105-114 | A completed copy that equals its source had only sizes that fit |
| CopyTheorems.BigFileCutShort | cpr/aio_manager.c:105-114 | Every finished copy of one file of 2^32 + 4096 bytes leaves its first 4096 bytes and no error |
| CopyProgress.BigFileRun | cpr/aio_manager.c:105-114 | There is a run that does so |
| CopyTheorems.ReachableInv | cpr/aio_manager.c:35-207 | The invariant over queue, file system, requests, counters and the flush flag holds in every reachable state short of an error exit |
| CopyTheorems.StepKeeps | cpr/aio_manager.c:38-171 | Each step of either thread or of the kernel keeps the invariant |
| CopyTheorems.StagesPartition | cpr/aio_manager.c:46-69 | In every reachable state a request is in exactly one of read list, in-flight read or write, completed, write list and finished; the lengths are those of the lists, `request_count` is the sum of the stages, and the counters are ordered as the exit test needs |
| CopyTheorems.ErrorExact | cpr/aio_manager.c:82-167 | For every valid job, interleaving and step: the step ends in an error if and only if the walker lists an entry whose type is neither directory nor regular file, or the read batch reaches a file whose size is negative as an `int`. No empty list is popped, no file is missing, no directory is made twice, no destination fails to open, no complete transfer is taken for a short one |
| CopyTheorems.WalkDirFails | cpr/cpr.c:87-95 | Making and listing a directory fails exactly at such an entry |
| CopyTheorems.ReadsFail | cpr/aio_manager.c:91-123 | A read batch of any size fails exactly if such a file is in it |
| CopyTheorems.NeverCrashes | cpr/aio_manager.c:94-99 | For a tree of directories and regular files without negative sizes, no reachable state is an error |
| CopyTheorems.AllHandled | cpr/cpr.c:78-107 | When the work list is empty, every name of the source has been handled |
| CopyTheorems.AllFinished | cpr/aio_manager.c:74-80 | When the AIO thread has left its loop, every request has been finished and no list or flight holds one |
| CopyProgress.NeverWaitsOnNothing | cpr/aio_manager.c:84-89 | After the flush, an iteration that does not exit ends with both lists empty and something in flight, whatever the batch sizes |
| CopyProgress.WorkFalls | cpr/aio_manager.c:45-69 | After the flush no step adds work, and every delivered event and every submission takes some off, where work is four per queued read, three per read in flight, two per queued write, one per write in flight |
| CopyProgress.DeliveriesBounded | cpr/aio_manager.c:38-80 | Over every run after the flush the events delivered are bounded by the work there was, and an exit leaves none |
| CopyProgress.TwoCompletionsPerFile | cpr/aio_manager.c:54-67 | A full run takes exactly two completions per regular file, and the counters end at the number of files |
| CopyProgress.WalkerTerminates | cpr/cpr.c:78-107 | Every step of the walker brings the end of its loop nearer, whatever the tree and the order of `readdir` |
| CopyProgress.DestinationCanBeOpened | cpr/aio_manager.c:143-148 | As long as a request is in the engine its destination's parent exists and no directory stands in its place, in every interleaving |
| CopyProgress.NextAction | cpr/aio_manager.c:38-171 | For trees without negative sizes, and without special files if directory entries have types: in every state short of the return some party can take a step that succeeds and brings the end nearer |
| CopyProgress.CanFinishFrom | cpr/aio_manager.c:192-207 | For such trees, from such a state a run to the return exists, and is constructed |
| CopyProgress.CanAlwaysFinish | cpr/aio_manager.c:192-207 | From a reachable state that is no error a run to the return exists if and only if no size is negative, where directory entries need have no types; where they have, one exists for every tree of directories and such files |
| CopyLiveness.AlwaysFaithful | cpr/cpr.c:50-61 | If the source has only directories and regular files of fewer than 2^31 bytes, no reachable state is an error, a completing run exists from each of them, and every completing run ends with the destination equal to the source |
| CopyLiveness.DeedsBounded | cpr/aio_manager.c:38-171 | Over every run from the start, steps of the walker, submissions, completions and deliveries together are at most 2·names + 3 + 6·files; what a longer run has besides is idle sections of the AIO loop |
| CopyLiveness.StuckIsOver | cpr/aio_manager.c:192-207 | For every valid job: in a reachable state nothing can move if and only if the wait has returned or the process has ended with an error |
| CopyLiveness.FairRunsReturn | cpr/aio_manager.c:38-80 | For every valid job, no infinite run is fair, where fair means that a mutex free again and again is granted, that the kernel completes its requests in the end and does not hold back events for ever; so every fair run comes to the return or to an error |
| WalkerSteps.WalkerKeeps | cpr/cpr.c:78-107 | A step of the walker keeps the invariant, and the copies made so far |
| WalkerSteps.KidsOk | cpr/cpr.c:112-169 | What `copy_dir` appends is one node for each child of the directory, none twice, each with its parent made |
| WalkerSteps.CopyDirComplete | cpr/cpr.c:116-139 | No entry but `.` and `..` is left out |
| WalkerSteps.MkdirKeeps | cpr/cpr.c:87-91 | A directory is made where its copy belongs, once, and nothing that was copied changes |
| AioSteps.AioKeeps | cpr/aio_manager.c:38-171 | A section of the AIO loop keeps the invariant |
| AioSteps.DrainKeeps | cpr/aio_manager.c:43-69 | Delivering up to ten events keeps it, and every event has its full length |
| AioSteps.SubmitReadsKeeps | cpr/aio_manager.c:82-130 | A read batch of any size keeps it |
| AioSteps.SubmitWritesKeeps | cpr/aio_manager.c:132-167 | A write batch of any size keeps it |
| AioSteps.ReadsSubmitted | cpr/aio_manager.c:90-129 | A read batch is the beginning of the list, sized and submitted in the order of the list |
| AioSteps.WritesSubmitted | cpr/aio_manager.c:139-167 | The same for a write batch |
| AioSteps.BatchTaken | cpr/aio_manager.c:84-89 | A section takes one whole batch if there is one, nothing if there is not, and the whole list after the flush |
| AioSteps.SizeableExact | cpr/aio_manager.c:105 | A size fails exactly if its remainder modulo 2^32 is 2^31 or more; else that many bytes are transferred |
| AioSteps.KernelKeeps | cpr/aio_manager.c:112-116 | Whichever request the kernel completes, it is kept |
| CopyProcess.Process.constructor | cpr/aio_manager.c:6-29 | The initial state of engine and walker |
| CopyProcess.Process.CopyDirectory | cpr/cpr.c:112-169 | The queue gets the nodes of the entries in the order of `readdir`; an entry of another type ends the process |
| CopyProcess.Process.PushRead | cpr/aio_manager.c:175-190 | A request is added at the head of the read list and counted twice; nothing else changes |
| CopyProcess.Process.AddCopyRequest | cpr/cpr.c:97-107 | The request for the head node is added and the node removed, as one step of the system |
| CopyProcess.Process.MakeDirectory | cpr/cpr.c:88-91 | A directory is made, or the process ends because the name is taken or its parent missing |
| CopyProcess.Process.EnterDirectory | cpr/cpr.c:87-95 | A directory is made and its entries queued, or the process ends |
| CopyProcess.Process.WalkDirectory | cpr/cpr.c:87-107 | A directory is made and listed, as one step of the system, error exits included |
| CopyProcess.Process.WalkerTurn | cpr/cpr.c:78-107 | One step of the walker and of the waiting main thread, as the system defines it; the flag is raised only with the mutex free, and the join waits for the end of the AIO thread |
| CopyProcess.Process.Advance | cpr/aio_manager.c:54-67 | A finished read goes to the write list, a finished write is counted |
| CopyProcess.Process.HandleEvent | cpr/aio_manager.c:46-69 | One event is delivered as the system defines it, a short transfer ending the process |
| CopyProcess.Process.HandleEvents | cpr/aio_manager.c:43-69 | So are the events of one call |
| CopyProcess.Process.PrepareRead | cpr/aio_manager.c:93-123 | The head of the read list is opened, sized and taken off |
| CopyProcess.Process.SubmitReadBatch | cpr/aio_manager.c:82-130 | The read section as a whole: the batch chosen by flag and length, submitted in list order |
| CopyProcess.Process.OpenDestination | cpr/aio_manager.c:144-148 | The destination is created empty or kept |
| CopyProcess.Process.PrepareWrite | cpr/aio_manager.c:141-161 | The head of the write list is opened and taken off |
| CopyProcess.Process.SubmitWriteBatch | cpr/aio_manager.c:132-167 | The write section as a whole |
| CopyProcess.Process.AioTurn | cpr/aio_manager.c:38-171 | Every section of the loop is the step of the system of that name, with at most ten events delivered |
| CopyProcess.Process.KernelTurn | cpr/aio_manager.c:112-116 | A transfer in flight is carried out and becomes an event |
| CopyProcess.Process.MayTurn | cpr/aio_manager.c:192-207 | The program's own tests for whose turn it may be agree with the system: mutex, join, ten events |
| CopyProcess.Process.Turn | cpr/aio_manager.c:35-207 | A turn of any party is a step of the system and keeps the process valid |
| CopyProcess.Copy | cpr/cpr.c:30-67 | Under any schedule the process ends up where the system does when exactly the actions that can move at their turn are taken; so it returns, with a complete copy, under every schedule that completes a copy in the system. Whenever it returns without an error the copy is complete, and if sizes and kinds of files allow it there is no error and the destination equals the source |
| CopyProcess.RunIsTaken | cpr/aio_manager.c:35-207 | A schedule in which each party is called only when it can move is taken as it stands |
| VersionCompare.CompareZeroAndSwap | coreutils-8.31-baseline/lib/filevercmp.h:28-32 | The comparison is zero exactly for identical strings, and swapping the arguments turns it around |
| VersionCompare.CompareTrans | coreutils-8.31-baseline/lib/filevercmp.c:125-181 | It is transitive, strictly if either comparison is strict |
| VersionCompare.CompareIsByKeys | coreutils-8.31-baseline/lib/filevercmp.c:163-180 | Cutting suffixes sometimes and restoring them sometimes amounts to one lexicographic comparison: class, key of the cut name, cut name, key of the whole name, whole name |
| VersionCompare.NumbersInOrder | coreutils-8.31-baseline/lib/filevercmp.h:34-37 | For every prefix and suffix, with the digits at the end of the one and at the beginning of the other: names that differ in a number between them are ordered as the joined numbers are, and by `strcmp` if these are equal |
| VersionCompare.WholeNumbers | coreutils-8.31-baseline/lib/filevercmp.c:163-180 | The same where no digits join, wherever the scanner cuts |
| VersionCompare.SmallerIsSmaller | coreutils-8.31-baseline/lib/filevercmp.h:34-37 | A smaller number makes a smaller name if no digits join it |
| VersionCompare.JoinedNotInOrder | coreutils-8.31-baseline/lib/filevercmp.h:34-37 | After the prefix `1` the number `002` sorts behind `3` |
| VersionCompare.NumberDecides | coreutils-8.31-baseline/lib/filevercmp.c:101-117 | Keys of two strings that differ in one number compare as the numbers, equal ones included |
| VersionCompare.EqualKeysDigit | coreutils-8.31-baseline/lib/filevercmp.c:88-119 | A proper prefix with an equal key is followed by a digit |
| VersionCompare.CutStrcmp | coreutils-8.31-baseline/lib/filevercmp.c:163-180 | Since a cut falls on a dot, and a dot sorts below every digit, `strcmp` of whole names is that of cut names |
| VersionCompare.ScanAligned | coreutils-8.31-baseline/lib/filevercmp.c:33-57 | The scanner treats two strings that differ in one number alike |
| VersionCompare.CutAligned | coreutils-8.31-baseline/lib/filevercmp.c:163-177 | So they are cut at corresponding places, or their cut strings are the same |
| VersionCompare.MatchSuffix | coreutils-8.31-baseline/lib/filevercmp.c:33-57 | The scanning loop finds the match the scan function defines, and the end of the string |
| VersionSuffix.AsDocumented | coreutils-8.31-baseline/lib/filevercmp.c:29-31 | The scanner cuts where the documented expression does if and only if the string ends in an even number of dots and the run of dots up to the documented suffix is odd |
| VersionSuffix.ScanFinds | coreutils-8.31-baseline/lib/filevercmp.c:36-56 | The scanner's match is the first odd dot of a run from which on nothing breaks the expression |
| VersionSuffix.NotAsDocumented | coreutils-8.31-baseline/lib/filevercmp.c:29-31 | `a.` and `a..b` are cut in other places than documented |
| VersionCompare.CompareWords | coreutils-8.31-baseline/lib/filevercmp.c:91-100 | Passing over two words decides the comparison of the keys or leaves the rest of it |
| VersionCompare.CompareDigits | coreutils-8.31-baseline/lib/filevercmp.c:105-111 | The first differing digit orders the values of two equally long digit runs |
| VersionCompare.CompareNumbers | coreutils-8.31-baseline/lib/filevercmp.c:101-117 | Passing over two numbers decides the comparison or leaves the rest; leading zeros do not count |
| VersionCompare.VerRevCmp | coreutils-8.31-baseline/lib/filevercmp.c:83-120 | The sign of its result is the comparison of the keys, for lengths that end at a cut |
| VersionCompare.FileVerCmp | coreutils-8.31-baseline/lib/filevercmp.c:125-181 | The sign of its result is the comparison proved to be a total order |
| VersionOrder.CharsInOrder | coreutils-8.31-baseline/lib/filevercmp.c:60-71 | Behind any common beginning two strings are ordered by the characters in which they first differ: `~` first, then digits, then letters by byte, then all others by byte; a digit that would go on a number is compared as part of it |
| VersionOrder.BeforeIsTotal | coreutils-8.31-baseline/lib/filevercmp.c:60-71 | Any two different characters, not both digits, are in that order one way or the other |
| VersionOrder.TildeBeforeEnd | coreutils-8.31-baseline/lib/filevercmp.c:94-97 | What goes on with `~` comes before the string itself |
| VersionOrder.EndBeforeOthers | coreutils-8.31-baseline/lib/filevercmp.c:94-97 | What goes on with anything but `~` or a digit comes after it |
| VersionOrder.TildeInNumber | coreutils-8.31-baseline/lib/filevercmp.c:91-117 | Where a digit goes on a number that `~` ends, the numbers decide, and only if they are equal what comes behind them |
| VersionOrder.ZerosBeforeTilde | coreutils-8.31-baseline/lib/filevercmp.c:91-117 | So `00~a` comes before `0~b` |
| VersionOrder.NamesInOrder | coreutils-8.31-baseline/lib/filevercmp.c:125-181 | The order of characters holds for names from which no suffix is cut |
| VersionOrder.TildeNames | coreutils-8.31-baseline/lib/filevercmp.c:125-181 | For such names `~` sorts before the end |
| VersionOrder.LongerNames | coreutils-8.31-baseline/lib/filevercmp.c:125-181 | And everything but `~` and digits behind it |
| VersionOrder.DotlessUncut | coreutils-8.31-baseline/lib/filevercmp.c:163-169 | Nothing is cut from a name without a dot |
| VersionOrder.SpecialNames | coreutils-8.31-baseline/lib/filevercmp.c:138-161 | The empty name, `.`, `..`, other hidden names and all others come in this order |
| CStrings.FirstDifference | coreutils-8.31-baseline/lib/filevercmp.c:133-136 | `strcmp` is decided by the first difference, bytes taken without sign |
| BaseCodec.ChunkingInvariant | coreutils-8.31-baseline/lib/base64.c:487-565 | Any split of the input into chunks, with newlines anywhere, gives the bytes and verdict of the newline-free input decoded unit by unit |
| BaseCodec.ContextAgrees | coreutils-8.31-baseline/lib/base64.c:402-467 | Decoding Base64 with a context equals decoding it without one if and only if no padded unit is followed by two more letters |
| BaseCodec.ContextAgrees32 | coreutils-8.31-baseline/lib/base32.c:359-449 | In Base32 a context makes no difference |
| BaseCodec.PaddedTwice | coreutils-8.31-baseline/lib/base64.c:423-450 | `QQ==QQ==` decodes to two bytes with a context and fails after one without |
| BaseCodec.FailsAtOnce | coreutils-8.31-baseline/lib/base64.c:406-411 | Decoding fails without a byte exactly when the first two characters are not both letters |
| BaseCodec.RoundTrip | coreutils-8.31-baseline/lib/base64.c:487-565 | Decoding an encoding returns the data, for every byte string, in any chunks and with newlines anywhere, in both codecs |
| BaseCodec.RoundTripWhole | coreutils-8.31-baseline/lib/base64.c:484-485 | It does so without a context, too |
| BaseCodec.UnitRoundTrip | coreutils-8.31-baseline/lib/base32.c:359-449 | Every unit, of every padding length, decodes to the bytes it encodes |
| BaseCodec.EncodeLength | coreutils-8.31-baseline/lib/base64.c:83-86 | The length of an encoding is that of the length macro |
| BaseCodec.EncodingIsStripped | coreutils-8.31-baseline/lib/base64.c:62-63 | No encoding contains a newline |
| BaseStandard.LetterIsTable | coreutils-8.31-baseline/lib/base64.c:62-63 | The alphabets are tables 1 and 3 of RFC 4648, letter by letter |
| BaseStandard.BaseIsTable | coreutils-8.31-baseline/lib/base64.c:251-326 | The decoding table has exactly the letters of that table |
| BaseStandard.DigitIsInverse | coreutils-8.31-baseline/lib/base64.c:251-326 | And is its inverse |
| BaseStandard.FieldsAreBits | coreutils-8.31-baseline/lib/base32.c:71-124 | Read as digits, the fields of a unit are the number its bytes are, zeros added |
| BaseStandard.EncodedIsTable | coreutils-8.31-baseline/lib/base64.c:104-124 | An encoded unit has the letter of each field that holds a bit of the data, then `=` |
| BaseStandard.UnitBits64 | coreutils-8.31-baseline/lib/base64.c:402-467 | The bytes a Base64 unit yields, valid or not, are the whole bytes in the bits of the letters in front of it |
| BaseStandard.UnitBits32 | coreutils-8.31-baseline/lib/base32.c:359-449 | The same for Base32, where an incomplete unit yields nothing |
| BaseStandard.UnitVerdict | coreutils-8.31-baseline/lib/base32.c:364-445 | A unit is valid exactly if padding takes the place of as many last letters as the standard allows |
| BaseStandard.StrippedAccepts | coreutils-8.31-baseline/lib/base64.c:487-565 | With a context a stream is valid exactly if it is a sequence of such units |
| BaseStandard.WholeAccepts | coreutils-8.31-baseline/lib/base64.c:484-485 | Without one, if moreover only the last unit is padded |
| BaseStandard.OnlyAllowed | coreutils-8.31-baseline/lib/base64.c:469-478 | Whatever the chunks, nothing is accepted but the letters of the table, `=` and newlines |
| BaseStandard.OnlyAllowedWhole | coreutils-8.31-baseline/lib/base64.c:484-485 | Nor without a context, where newlines are not accepted either |
| BaseStandard.StripKeeps | coreutils-8.31-baseline/lib/base64.c:368-380 | Newlines are what is skipped, and nothing else |
| BaseEncode.Base64EncodeFast | coreutils-8.31-baseline/lib/base64.c:68-81 | The fast path writes the encoding, and nothing behind it |
| BaseEncode.WriteUnit64 | coreutils-8.31-baseline/lib/base64.c:104-129 | One turn of the loop writes the next characters of the encoding as far as there is room |
| BaseEncode.Base64Encode | coreutils-8.31-baseline/lib/base64.c:87-133 | For every input and output length: the prefix of the encoding that fits, a NUL exactly if there is room, and no other byte; the fast path included |
| BaseEncode.WriteUnit32 | coreutils-8.31-baseline/lib/base32.c:71-124 | One turn of the Base32 loop |
| BaseEncode.Base32Encode | coreutils-8.31-baseline/lib/base32.c:64-128 | The same for Base32, which has no fast path |
| BaseDecode.DecodeFour | coreutils-8.31-baseline/lib/base64.c:402-467 | What a unit decodes to is written as far as there is room, with the verdict, on every branch |
| BaseDecode.DecodeEight | coreutils-8.31-baseline/lib/base32.c:359-449 | The same for the eight characters of Base32 |
| BaseDecode.DecodeContext.Collect | coreutils-8.31-baseline/lib/base64.c:368-385 | Copying into the context drops newlines and nothing else |
| BaseDecode.DecodeContext.GetUnit | coreutils-8.31-baseline/lib/base64.c:348-386 | The next unit: what it hands out and what is left are what was pending and the newline-free input; less than a unit only at the end of the input, and then it is kept |
| BaseDecode.DecodeRun | coreutils-8.31-baseline/lib/base64.c:507-520 | The inner loop decodes units up to the first that fails; what it wrote for that one can be rolled back |
| BaseDecode.DecodeCtx | coreutils-8.31-baseline/lib/base64.c:487-565 | One call, with or without a context, streaming or flushing: verdict, length, bytes and what stays pending are those of the reference; nothing beyond `outlen` is touched |
| BaseAlloc.OverflowCheckExact | coreutils-8.31-baseline/lib/base32.c:142-154 | `inlen > outlen` holds exactly when the encoded length and its NUL do not fit the word, for both codecs; otherwise `outlen` is that length |
| BaseAlloc.EncodeAlloc | coreutils-8.31-baseline/lib/base64.c:144-178 | No output exactly when the encoding does not fit a `size_t`, else the whole encoding and its NUL |
| BaseAlloc.NeedLenSuffices | coreutils-8.31-baseline/lib/base64.c:583-588 | The decoders' buffer bounds their output whatever is pending, and its size does not wrap |
| BaseAlloc.DecodeAlloc | coreutils-8.31-baseline/lib/base64.c:578-605 | The decoded output is never cut short; there is none exactly when the input is invalid |
| BaseAlloc.DecodeChunks | coreutils-8.31-baseline/src/basenc.c:1035-1082 | Feeding chunks through one context up to the first failing call, the last perhaps empty, then flushing unless nothing is pending, decodes the newline-free file |
| Fnmatch.Fct | coreutils-8.31-baseline/lib/fnmatch_loop.c:41-982 | The matcher accepts a string exactly if it is in the language the host gives to the pattern, for all bytes and under every setting of the flags modelled, and no star stands before a quoted slash with `FNM_PATHNAME` |
| FnmatchExact.QuotedSlashExact | coreutils-8.31-baseline/lib/fnmatch_loop.c:185-192 | It agrees with that language for every name if and only if there is no such star, or some token matches nothing |
| FnmatchExact.DocumentedExact | coreutils-8.31-baseline/lib/fnmatch_loop.c:41-982 | A pattern is matched as documented for every name if and only if: with `FNM_PATHNAME` and a star before a quoted slash, some token matches nothing; otherwise, no bracket gains a byte by the sign of `char`, or some token matches nothing whatever the sign |
| FnmatchExact.SignExact | coreutils-8.31-baseline/lib/fnmatch_loop.c:839-853 | The language the host gives to a pattern is the documented one under the latter condition, and only then |
| FnmatchExact.TellApart | coreutils-8.31-baseline/lib/fnmatch_loop.c:839-853 | A character that one host lets stand for a token and another does not shows in some name, whatever stars and brackets are around it |
| FnmatchExact.Inhabited | coreutils-8.31-baseline/lib/fnmatch_loop.c:41-982 | A pattern matches some name if and only if each of its tokens can match something |
| FnmatchExact.SameLanguage | coreutils-8.31-baseline/lib/fnmatch_loop.c:839-853 | Where the sign does not matter, the host's language is the documented one |
| FnmatchExact.RangeExact | coreutils-8.31-baseline/lib/fnmatch_loop.c:839-853 | A range covers what it is documented to cover if and only if `char` is unsigned or its lower bound is ASCII |
| FnmatchExact.BracketExact | coreutils-8.31-baseline/lib/fnmatch_loop.c:221-865 | A bracket, as a pattern, matches as documented if and only if the sign adds nothing that it does not cover anyway |
| FnmatchExact.SignedRangeMatches | coreutils-8.31-baseline/lib/fnmatch_loop.c:839-853 | Where `char` is signed, the range from 128 to 144 matches `A` and should not |
| Fnmatch.MatchStar | coreutils-8.31-baseline/lib/fnmatch_loop.c:80-197 | The branch for a star, with runs collapsed and places filtered, accepts the language of star and rest |
| Fnmatch.StarBefore | coreutils-8.31-baseline/lib/fnmatch_loop.c:147-194 | It is enough to try the rest of the pattern at the places before the next slash, or at that slash |
| Fnmatch.StarStar | coreutils-8.31-baseline/lib/fnmatch_loop.c:94-124 | A second star adds nothing |
| Fnmatch.StarAny | coreutils-8.31-baseline/lib/fnmatch_loop.c:107-123 | A question mark after a star can take its character at once |
| Fnmatch.StarAtEnd | coreutils-8.31-baseline/lib/fnmatch_loop.c:126-146 | A star at the end accepts everything that holds no slash, or any name with `FNM_LEADING_DIR` |
| Fnmatch.TryEach | coreutils-8.31-baseline/lib/fnmatch_loop.c:165-168 | Finds a place where the rest matches, if there is one |
| Fnmatch.TryFiltered | coreutils-8.31-baseline/lib/fnmatch_loop.c:185-192 | Filtering places by the first character misses none |
| Fnmatch.MatchItems | coreutils-8.31-baseline/lib/fnmatch_loop.c:221-865 | The scan of a bracket decides membership in its items, the lower bounds of ranges taken as plain `char`, and finds its end, though it stops at the first hit |
| Fnmatch.SkipItems | coreutils-8.31-baseline/lib/fnmatch_loop.c:867-935 | Skipping the rest of a bracket character by character finds the end that reading its items finds |
| FnmatchExact.QuotedSlashMissed | coreutils-8.31-baseline/lib/fnmatch_loop.c:185-192 | `*\/` does not match `a/` with `FNM_PATHNAME`, whatever the other flags but `FNM_NOESCAPE` |
| FnmatchText.ShownIsRead | coreutils-8.31-baseline/lib/fnmatch_loop.c:41-982 | Every token list there is text for is read back from its text: `?`, `*`, quoted characters, brackets with `!`, ranges, quoted characters and a leading `]` |
| FnmatchText.BangNegates | coreutils-8.31-baseline/lib/fnmatch_loop.c:221-223 | An exclamation mark in front of a bracket's inside, whatever it is, turns the answer around |
| FnmatchText.CaretNegates | coreutils-8.31-baseline/lib/fnmatch_loop.c:221-223 | A caret does so for all of them if and only if POSIXLY_CORRECT is not set |
| FnmatchExact.SlashesAreSpelled | coreutils-8.31-baseline/lib/fnmatch_loop.c:61-62 | With `FNM_PATHNAME` the matched part of a name has exactly as many slashes as the pattern spells out, so none is taken by a wildcard or a bracket |
| FnmatchExact.MatchesBelow | coreutils-8.31-baseline/lib/fnmatch_loop.c:977-979 | With `FNM_LEADING_DIR` what matches also matches everything below it |
| Exclude.CompilationExact | coreutils-8.31-baseline/lib/exclude.c:470-513 | For every list of options that meet the condition of `ExactPatterns` and every name without `//` the compiled list agrees with the rule "the last option that matches decides, else the opposite of the first" |
| Exclude.DecidedBy | coreutils-8.31-baseline/lib/exclude.c:480-512 | Option by option: one that matches decides unless a later one does; if none matches, names are excluded exactly if the first option is an inclusion; without options none is |
| Exclude.AnchoredAtBeginning | coreutils-8.31-baseline/lib/exclude.c:384-390 | An anchored option decides by a match from the beginning of the name alone |
| Exclude.UnanchoredBelow | coreutils-8.31-baseline/lib/exclude.c:387-390 | One that is not also decides for what it matches below any directory |
| Exclude.AddDecides | coreutils-8.31-baseline/lib/exclude.c:517-603 | A new option decides wherever it matches and changes nothing elsewhere, into whichever segment it goes |
| Exclude.AddKeepsFirst | coreutils-8.31-baseline/lib/exclude.c:498-508 | The last segment keeps the sense of the first option |
| Exclude.LiteralExact | coreutils-8.31-baseline/lib/exclude.c:425-465 | For such an option without wildcards, the hash lookup finds a name without `//` exactly when the pattern matches it |
| Exclude.LiteralMatch | coreutils-8.31-baseline/lib/exclude.c:179-186 | A pattern without wildcards matches exactly its unescaped text, and what lies below it with `FNM_LEADING_DIR` |
| Exclude.ExactNames | coreutils-8.31-baseline/lib/exclude.c:453-462 | A name has no `//` if and only if every list of such options treats it as the naive rule does |
| Exclude.DoubleSlashDiffers | coreutils-8.31-baseline/lib/exclude.c:453-462 | For every name with `//`, an option that is compiled to something else |
| Exclude.ExactPatterns | coreutils-8.31-baseline/lib/exclude.c:596-599 | An option is compiled exactly for every name without `//` if and only if it is not a literal pattern that ends in a lone backslash, or is one filed under a name with `//` |
| Exclude.NotPlainDiffers | coreutils-8.31-baseline/lib/exclude.c:182-186 | A literal pattern ending in a lone backslash excludes the name it is filed under, though it matches nothing |
| ExcludeList.PatternHasWildcards | coreutils-8.31-baseline/lib/exclude.c:142-177 | The scan finds an unquoted wildcard if there is one |
| ExcludeList.UnescapePattern | coreutils-8.31-baseline/lib/exclude.c:179-186 | Removes quoting backslashes in place |
| ExcludeList.ExcludeFnmatchAt | coreutils-8.31-baseline/lib/exclude.c:377-393 | An unanchored option matches if it does at the beginning or after a slash not followed by one |
| ExcludeList.LookUpPart | coreutils-8.31-baseline/lib/exclude.c:434-451 | Cutting the name at its slashes again and again looks up exactly the names that count |
| ExcludeList.FileNameMatches | coreutils-8.31-baseline/lib/exclude.c:425-465 | A hash segment matches if one of its names is found at some start |
| ExcludeList.FilePatternMatches | coreutils-8.31-baseline/lib/exclude.c:407-420 | A pattern segment matches if one of its patterns does |
| ExcludeList.ExclusionList.Add | coreutils-8.31-baseline/lib/exclude.c:517-603 | The segments are always the compilation of the options added, in their order |
| ExcludeList.ExclusionList.ExcludedFileName | coreutils-8.31-baseline/lib/exclude.c:469-513 | The first segment that matches decides, else the opposite of the last; for options and names that meet the conditions this is the naive rule on the options added |
| CycleCheck.CycleFoundFromStart | coreutils-8.31-baseline/lib/cycle-check.c:57-85 | A descent periodic with period L from call M on is reported in fewer than 3·max(M, L) calls |
| CycleCheck.CycleFound | coreutils-8.31-baseline/lib/cycle-check.c:57-85 | From any state of the counter it is reported by a call given in numbers |
| CycleCheck.Remembers | coreutils-8.31-baseline/lib/cycle-check.c:68-82 | Between one power of two and the next, the directory of the first is remembered |
| CycleCheck.BitTrick | coreutils-8.31-baseline/lib/cycle-check.c:36-40 | The bit trick tells exactly zero and the powers of two, in wrapped arithmetic |
| CycleWalks.StaysRemembered | coreutils-8.31-baseline/lib/cycle-check.h:38-50 | Whatever a walk does below the remembered directory, without a report, without leaving it and without a power of two, the directory stays remembered, and entering it again is reported |
| CycleWalks.TripSinks | coreutils-8.31-baseline/lib/cycle-check.h:44-48 | A side trip in which the counter comes to a power of two leaves the directory it started from remembered |
| CycleWalks.WalkCycleFound | coreutils-8.31-baseline/lib/fts-cycle.c:106-146 | A descent into a cycle, with side trips of any shape that enter fewer than S directories each, is reported within a given number of rounds, from any state of the counter |
| CycleWalks.WalkCycleFoundFromRoot | coreutils-8.31-baseline/lib/fts-cycle.c:106-146 | From a fresh state it takes at most 3·S·max(M, L) rounds |
| CycleCheck.ReportIsCycle | coreutils-8.31-baseline/lib/fts-cycle.c:106-117 | At any point of any walk, up and down, a directory reported is on the active path, so the table would report it too, short of the counter's coming round |
| CycleCheck.WalkOnPath | coreutils-8.31-baseline/lib/cycle-check.h:38-50 | Reflecting each return keeps the remembered directory on the active path |
| CycleCheck.NoFalseAlarm | coreutils-8.31-baseline/lib/fts-cycle.c:73-146 | A walk that enters no active directory again sees no report |
| CycleCheck.ShortWalkNeverWraps | coreutils-8.31-baseline/lib/cycle-check.c:70-78 | The counter comes round in no walk of fewer steps than it has values left |
| CycleCheck.Detector.CycleCheck | coreutils-8.31-baseline/lib/cycle-check.c:57-85 | Answer and new state of one call |
| CycleCheck.Detector.EnterDir | coreutils-8.31-baseline/lib/fts-cycle.c:73-120 | With the table the answer is exact and names the ancestor; without, it is that of the lazy check; a cycle is not entered |
| CycleCheck.Detector.LeaveDir | coreutils-8.31-baseline/lib/fts-cycle.c:124-146 | The directory leaves the path; the lazy state reflects the return unless it is a root |
| NumberedBackup.NextBackup | coreutils-8.31-baseline/lib/backupfile.c:206-305 | For any entries in any order the buffer ends up holding the file's name with one more than the largest version, of any number of digits, and the result is new, longer or of the same length as that version says |
| NumberedBackup.LongerMeansLonger | coreutils-8.31-baseline/lib/backupfile.c:272-274 | The result is "longer" exactly when the new name is one character longer than that of the largest version |
| NumberedBackup.LargestIsMaximum | coreutils-8.31-baseline/lib/backupfile.c:237-267 | The largest version is a version of some entry and bounds all of them |
| NumberedBackup.VersionOfName | coreutils-8.31-baseline/lib/backupfile.c:244-263 | The name FILE`.~N~` has version N |
| NumberedBackup.NameOfVersion | coreutils-8.31-baseline/lib/backupfile.c:244-263 | And is the only name that has it |
| NumberedBackup.NextIsNew | coreutils-8.31-baseline/lib/backupfile.c:297-300 | The name chosen is not among the entries |
| NumberedBackup.Beyond | coreutils-8.31-baseline/lib/backupfile.c:262-266 | Comparing lengths and then bytes compares the numbers |
| NumberedBackup.AddOne | coreutils-8.31-baseline/lib/backupfile.c:297-300 | Raising one digit and zeroing the nines behind it adds one |
| NumberedBackup.Increment | coreutils-8.31-baseline/lib/backupfile.c:295-300 | The digits in the buffer become the number that is one larger, in place, without a leading zero |
| NumberedBackup.ReadVersion | coreutils-8.31-baseline/lib/backupfile.c:244-263 | An entry is a version exactly if it is the base name, `.~`, a number without leading zero and `~`; whether it is all nines |
| NumberedBackup.Reaches | coreutils-8.31-baseline/lib/backupfile.c:262-266 | Whether a version has got to the number in the buffer |
| NumberedBackup.StoreNext | coreutils-8.31-baseline/lib/backupfile.c:268-300 | The buffer, grown if need be, holds the file's name with the number after the one read |
| Canonicalize.CanonicalizeFilename | coreutils-8.31-baseline/lib/canonicalize.c:101-346 | The buffer that is edited in place ends up holding the canonical form and a NUL, no more; no result exactly for the empty name |
| Canonicalize.CanonicalIsCanonical | coreutils-8.31-baseline/lib/canonicalize.c:91-96 | The canonical form begins with a slash, has no `//` and no trailing slash unless it is the root, no `.` and no `..`, and is nothing but its components |
| Canonicalize.Idempotent | coreutils-8.31-baseline/lib/canonicalize.c:91-96 | A canonical form is its own canonical form, from any directory |
| Canonicalize.ComponentsOfRender | coreutils-8.31-baseline/lib/canonicalize.c:182-232 | The name of a stack of components has just these components |
| Canonicalize.NeverAboveRoot | coreutils-8.31-baseline/lib/canonicalize.c:194-199 | Any number of `..` from the root stays at the root |
| Canonicalize.DownAndUp | coreutils-8.31-baseline/lib/canonicalize.c:192-199 | Going into any directory and up again leads back where it was, and `.` stays |
| Canonicalize.RelativeNames | coreutils-8.31-baseline/lib/canonicalize.c:129-148 | A relative name has the canonical form of the working directory, a slash and the name |
| Canonicalize.BackUp | coreutils-8.31-baseline/lib/canonicalize.c:194-199 | Backing up in the buffer removes the last component, or nothing at the root |
| Canonicalize.Reserve | coreutils-8.31-baseline/lib/canonicalize.c:211-226 | After growing there is room for the component and a NUL, and the contents are kept |
| Canonicalize.Append | coreutils-8.31-baseline/lib/canonicalize.c:208-232 | The buffer names the directory one component further down |
| Canonicalize.NextComponent | coreutils-8.31-baseline/lib/canonicalize.c:184-190 | The next component, after any number of slashes |
| Canonicalize.Scan | coreutils-8.31-baseline/lib/canonicalize.c:182-334 | The loop over the name is the walk over its components |
| Canonicalize.Finish | coreutils-8.31-baseline/lib/canonicalize.c:334-342 | A slash left by a back-up is dropped, except the root's |

## Left out

- The kernel's limits and failures: a full AIO context, failing system calls, `O_DIRECT` alignment and `mmap`; only successful calls are modelled. A transfer always has its full length, and submitting a size that wraps to a negative number is taken to fail.
- `mmap` of length zero fails, and the source compares its result with NULL instead of `MAP_FAILED`, so an empty file, or one whose size wraps to zero, is read and written through a bad pointer. The model lets these transfers of no bytes succeed; whether they do is up to the kernel.
- Threads are interleaved at lock boundaries with sequentially consistent memory; `req_count` is read without its lock, as in the source, but without the compiler's or the processor's reordering.
- The counters of the engine are unbounded integers; they count files, and would wrap only at 2^31 of them.
- Source trees that change during the copy, links, several names for one file, destinations that exist already or lie inside the source. A name is taken as spelled.
- Freeing memory, including the order of freeing and unlinking the queue node; the work list is a sequence. Failing allocations in all parts.
- CopyTheorems.NeverCrashes: the kernel carries out every transfer in full, so that short ones are excluded by the model.
- `strcmp` and `memcmp`: only the signs of their results, which is all the standard says.
- CopyProcess.Copy: decides under which schedule, not in which time; `readdir` gives each entry once, and a listing that is not one of the directory is passed over.
- CopyProcess.Process.OpenDestination: says what becomes of the file system, not of descriptors and modes.
- Shifts and masks of the codecs are written as division and remainder; characters are integers below 256.
- Fnmatch.Fct: ksh patterns, `FNM_PERIOD`, case folding, the wide-character matcher, character classes, collating symbols and unterminated brackets are not modelled: they depend on locale or library, or have no clear specification. Patterns with such brackets are excluded by a precondition.
- Fnmatch.MatchItems: the same, for one bracket.
- ExcludeList.ExcludeFnmatchAt: excludes those patterns by a precondition.
- ExcludeList.FilePatternMatches: likewise.
- ExcludeList.ExclusionList.Add: likewise, and options with regular expressions, case folding or ksh patterns are not modelled.
- ExcludeList.ExclusionList.ExcludedFileName: asks lists built of such options only.
- The hash function and the reading of exclusion files; a hash table is a set of strings.
- `fts` itself, and a walk that leaves a directory whose entry failed; the identity of a directory does not change during a walk. The check for the magic number.
- BaseAlloc.DecodeChunks: the block size, the filling of the input buffer and the option to skip garbage are not modelled, only the calls of the decoder.
- NumberedBackup.NextBackup: one fresh scan; names with a trailing slash and the rescan with an open directory are not modelled.
- `backupfile.c`: shortening of extensions, limits of the file system, renaming and the retry when another process was faster, the temporary change of the buffer to open the directory, and failing reads of it.
- Canonicalize.CanonicalizeFilename: the working directory is a parameter, assumed to be canonical and shorter than `PATH_MAX`; how a longer one is held is up to a helper that is not part of this model.
- `canonicalize.c`: modes that follow links or ask whether files exist, drive prefixes, and hosts where `//` is special.
- `di-set.c`, `file-set.c`, the floating-point routines, `argmatch.c` and the like: their substance is in modules not present here, or they would add only easy members.
- The remaining library files, `experiments` and `aio_tests`: portability shims and trials.
