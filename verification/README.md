# Verified models of five programs of this repository

The repository is a notebook of unrelated programs. This project models the five that compute something
with a provable meaning, each in its own modules, and proves what they compute for all inputs or all runs.

- **The pi spigot** (`benchmark/pi.c`). `PiProgram` is the program text with its globals as fields of 32-bit
  integers and the cells as an array overwritten in place. `PiSpigot` is one carry sweep and the run of sweeps
  as functions, with the rational value that the mixed-radix cells denote; `PiAccuracy` bounds what is lost by
  dropping 14 cells for every four digits. The constant 2800 = 14 * 200 is generalised to 14 * K.
- **Mox** (`mox.py`) and **StubOutForTesting** (`stubout.py`). `MoxLanguage` says which call traces a recorded
  queue describes, without mentioning replay, and `MoxStrikeOff` how a repeat group is found satisfied. `MoxReplay`,
  `MoxExactness` and `MoxGreedy` relate greedy replay to that language, `MoxRecording` says what recording makes of
  a list of calls, and `MoxMock` holds the classes: a mock with its deque, and the two kinds of groups, updated in
  place. `StubOut` models attribute lookup, the cache and its restoration.
- **Death tests** (`gtest-death-test.cc`). `DeathTestPipe` is the protocol of parent and child over a pipe of any
  capacity, as a state machine under every interleaving of their system calls. `DeathTestFlag` is the flag by
  which the re-executed program learns which test to run: printer, parser, and the counter that selects one test.
- **Four sieves**. `BitSieve` (`seive.c`: one bit per odd number, 32-bit arithmetic), `ArraySieves`
  (`prime_numpy.py` and `seive2.py`) and `SeivePy` (`seive.py`), all proved against `Primes`.
- **Text codecs** (`application.js`). `JsBits` has JavaScript's bitwise operators, `Utf8` the two encoders
  and the decoder, which work on UTF-16 code units one at a time (formats of section 3 of RFC 3629), `Base64`
  the encoder and decoder (section 4 of RFC 4648).

Check the whole project with `dafny verify dfyconfig.toml`.

## Where the code and its documentation differ

- `seive.c`: MAXN is 10^7 and the comments beside P1, P2 and P3 derive them from MAXN, but the values are those
  for 10^8. Everything is proved for all dimensions that fit; `ProgramConstants` shows that the actual ones do.
- `gtest.cc` promises that `String::Format` returns `<buffer exceeded>` when the text is too long. On Linux
  `vsnprintf` truncates and returns the untruncated length, so the text is cut at 4094 characters. The model
  truncates, and the round trip of the flag holds if and only if the text fits.
- `SplitString` ignores its delimiter and always splits at colons.
- `ParsePositiveInt` relies on `strtol` clamping to a `LONG_MAX` above `INT_MAX`; where `long` is as wide as
  `int`, a number that is too large is taken for `INT_MAX`.
- `MultipleTimes` is documented as "at least once" for each method. A method recorded twice in the same group is
  two elements of its set, and both have to be covered by different calls.
- The decoder of base64 turns the empty text into three NUL characters, so the empty string alone does not
  survive encoding and decoding.
- The class comment of `stubout.py` says that `UnsetAll` restores the original definition. That holds if and only
  if `getattr` hands the stubbed entry out as it is stored, or it is a staticmethod of a class.

## Model

For each program its main results come first, then the methods and lemmas that carry them.

| member | source | states |
|---|---|---|
| PiAccuracy.Accuracy | benchmark/pi.c:2 | for every K the number spelled by the K groups is at most 10000^(K-1) * 2000 * (any partial sum of the series with at least 14K-1 terms), and less than 1.6 below it |
| PiAccuracy.AccuracyInTheLimit | benchmark/pi.c:2 | the same with the limit of the series in place of the partial sum, and less than 2 below it |
| PiProgram.Program.Run | benchmark/pi.c:2 | the loops on 32-bit integers, for every K up to 3834, print exactly the groups of the K-fold iterated carry sweep; no assignment overflows and no index is out of bounds |
| PiSpigot.SweepConserves | benchmark/pi.c:2 | exact conservation: 10000 times the value of the cells before equals the emitted d plus the value of the cells after, for all cells and lengths |
| PiAccuracy.EmittedIsYields | benchmark/pi.c:2 | over all sweeps of a run, 10000 * printed + e is the base-10000 number of the d values that the sweeps yield |
| PiAccuracy.LostBound | benchmark/pi.c:2 | what a run has lost, seen from its end, is at most 56 times the sum of j*(10000/2^14)^j over the sweeps so far, and 2 more for the last one |
| PiAccuracy.TermsSmall | benchmark/pi.c:2 | 56 times that sum stays below 226 however many sweeps there are |
| PiSpigot.GroupBounds | benchmark/pi.c:2 | the first printed group is at most 3999 and every later one at most 10000 |
| PiSpigot.LaterSweepSmall | benchmark/pi.c:2 | a sweep over digits yields d below 20000 |
| PiAccuracy.DroppedCells | benchmark/pi.c:2 | cells m+1 to n, if they hold digits, are worth between 0 and 2*(m*w_m - n*w_n) |
| PiAccuracy.Telescope | benchmark/pi.c:2 | the telescoping identity (b-1)*w_b == (b-1)*w_(b-1) - b*w_b |
| PiProgram.UnderwayStep | benchmark/pi.c:2 | with bounded cells and carry, dividing out a cell never leaves 32 bits (in 2800 cells d stays below 112000000), keeps the bounds, and is one step of the sweep |
| PiProgram.Program.CarrySweep | benchmark/pi.c:2 | the inner loop, in place, ends with the cells and the d of one sweep |
| PiProgram.Program.SweepCell | benchmark/pi.c:2 | dividing out one cell and scaling the carry is one step of the sweep, and the last one leaves its outcome |
| MoxGreedy.ExactIffDisjoint | protobuf/trunk/protobuf/python/mox.py:1304-1314 | for recorded queues: replay accepts exactly the described traces if and only if no repeat group shares a call with the item after it |
| MoxExactness.ReplayExact | protobuf/trunk/protobuf/python/mox.py:581-613 | under that condition replay plus _Verify accept exactly the described traces |
| MoxExactness.EarliestFailure | protobuf/trunk/protobuf/python/mox.py:588-613 | under that condition a prefix replays without UnexpectedMethodCallError if and only if some continuation of it is described |
| MoxReplay.ReplaySound | protobuf/trunk/protobuf/python/mox.py:581-613 | for every pair of comparisons (`expected == call` for looking up, `call == expected` for IsSatisfied) and every set iteration order, an error-free replay that passes _Verify splits into segments that fulfil the recorded items |
| MoxReplay.FailureIsFinal | protobuf/trunk/protobuf/python/mox.py:581-613 | where no call satisfies two different expectations of a group, a trace that fails in one iteration order passes in none |
| MoxRecording.SelfReplay | protobuf/trunk/protobuf/python/mox.py:588-613 | replaying the recorded calls as they were recorded is accepted if and only if no call right after a MultipleTimes run repeats a call of that run |
| MoxRecording.RecordGroups | protobuf/trunk/protobuf/python/mox.py:664-684 | recording conserves the calls, in order and without gaps, in nonempty items; neighbouring groups never share class and name |
| MoxMock.MockAnything.ReplayAndVerify | protobuf/trunk/protobuf/python/mox.py:326-347 | _Replay, calls and _Verify on the objects: success is a replay and implies a described trace; failure ends at a refused call or with something still expected; with unambiguous groups success is exactly the existence of a replay, with plain equality exactly acceptance |
| MoxMock.MockAnything.RecordAll | protobuf/trunk/protobuf/python/mox.py:545-563 | a record phase leaves in the objects the queue that Record computes |
| MoxMock.MockAnything.VerifyMethodCall | protobuf/trunk/protobuf/python/mox.py:588-613 | for all comparisons: either the call is consumed and answered with an expectation that it meets, or it is refused, with every reason justified; the two exclude each other where no call satisfies two expectations of a group, and for plain equality are the function Step |
| MoxMock.MockAnything.Verify | protobuf/trunk/protobuf/python/mox.py:331-347 | passes an empty queue or a lone satisfied repeat group, and fails only if something is still expected |
| MoxMock.MockAnything.InAnyOrder | protobuf/trunk/protobuf/python/mox.py:686-702 | moves the call into the unordered group at the tail of that name, or into a new one |
| MoxMock.MockAnything.MultipleTimes | protobuf/trunk/protobuf/python/mox.py:704-716 | moves the call into the repeat group at the tail of that name, or into a new one |
| MoxMock.UnorderedGroup.MethodCalled | protobuf/trunk/protobuf/python/mox.py:1223-1255 | takes out the first expectation that matches, puts a nonempty group back at the head, and changes nothing when none matches |
| MoxMock.MultipleTimesGroup.MethodCalled | protobuf/trunk/protobuf/python/mox.py:1285-1316 | a call that some expectation equals is counted and the group goes back to the head; another call goes to the next entry only from a satisfied group, and is unexpected only for an unsatisfied group or at the end of the queue |
| MoxMock.MultipleTimesGroup.IsSatisfied | protobuf/trunk/protobuf/python/mox.py:1318-1331 | in any iteration order and with the call as left operand: true only if every expectation has a call of its own; false only for an empty group or a strike-off that no call can continue; where no call satisfies two different expectations, so with plain equality, exactly the assignability |
| MoxStrikeOff.StuckIsFinal | protobuf/trunk/protobuf/python/mox.py:1323-1331 | where no call satisfies two different expectations, a strike-off that is stuck means that there is no assignment at all, so the iteration order cannot matter |
| MoxStrikeOff.OneExpectation | protobuf/trunk/protobuf/python/mox.py:1318-1331 | a group of one expectation is of that kind, and is satisfied exactly if some call satisfies it |
| MoxGreedy.Overlap | protobuf/trunk/protobuf/python/mox.py:1304-1314 | whenever a repeat group shares a call with the item after it, there is a described trace that replay rejects |
| MoxExactness.CallComplete | protobuf/trunk/protobuf/python/mox.py:588-613 | when repeat groups are disjoint from what follows them, replay takes every call that some described trace begins with, and the rest of the trace stays described |
| MoxReplay.ConsumeSound | protobuf/trunk/protobuf/python/mox.py:588-613 | whatever completes the queue after a consumed call, that call followed by it completes the queue before |
| MoxReplay.ReplaysPlain | protobuf/trunk/protobuf/python/mox.py:331-347 | with plain equality, replaying and verifying is the function Accepted |
| MoxLanguage.AssignablePlain | protobuf/trunk/protobuf/python/mox.py:1318-1331 | with plain equality, one-to-one assignment of expectations to calls is multiset inclusion |
| MoxLanguage.DescribesPlain | protobuf/trunk/protobuf/python/mox.py:622-633 | with plain equality, the language by assignments is the language by multisets |
| StubOut.RestoredIff | protobuf/trunk/protobuf/python/stubout.py:109-140 | restoration holds if and only if each attribute named in a Set call is absent, or owned by its parent and saved as it is stored |
| StubOut.StubOutForTesting.StubAndUnset | protobuf/trunk/protobuf/python/stubout.py:109-140 | Set calls, UnsetAll and a second UnsetAll leave all namespaces as they were if and only if every stubbed attribute comes back |
| StubOut.StubsInstalled | protobuf/trunk/protobuf/python/stubout.py:119-127 | while the stubs of any run of Set calls are in place, each attribute that could be fetched at the start holds the child of its last stub, and everything else is as it was |
| StubOut.StubOutForTesting.Set | protobuf/trunk/protobuf/python/stubout.py:109-127 | if the attribute can be fetched, the child is installed in the parent, a fetch then gives the child as the parent hands it out, and one entry is added that holds what Python's lookup gives for the old attribute, owned or inherited; otherwise nothing changes |
| StubOut.SavedIsFrom | protobuf/trunk/protobuf/python/stubout.py:119-123 | what Set saves: an owned entry as a class or another parent hands it out, a staticmethod wrapped again; otherwise the entry of the nearest ancestor that owns the name, unwrapped and bound |
| StubOut.StubOutForTesting.UnsetAll | protobuf/trunk/protobuf/python/stubout.py:129-140 | reverses the cache in place and puts the entries back, so that the last Set is undone first; the cache ends empty |
| StubOut.SetAllFaithful | protobuf/trunk/protobuf/python/stubout.py:119-126 | during any run of Set calls unstubbed attributes stay as they were, and each oldest entry holds what was fetched at the start |
| StubOut.UndoneOldest | protobuf/trunk/protobuf/python/stubout.py:135-139 | an attribute that was stubbed repeatedly gets the value of its oldest entry |
| DeathTestPipe.OutcomeIsAbort | protobuf/trunk/protobuf/src/gtest/gtest-death-test.cc:430-439 | over whole runs, the outcome is LIVED or RETURNED if and only if the child called Abort with that reason and its write went through |
| DeathTestPipe.WaitConcludes | protobuf/trunk/protobuf/src/gtest/gtest-death-test.cc:315-358 | when Wait returns, the child has ended and its status is collected; LIVED or RETURNED exactly if it wrote that flag, DIED exactly if it wrote nothing |
| DeathTestPipe.OnlyReportedFailures | protobuf/trunk/protobuf/src/gtest/gtest-death-test.cc:290-310 | the parent ends in a fatal error only through an internal error of a re-executed child, whose bytes after the flag are its message |
| DeathTestPipe.FatalMessage | protobuf/trunk/protobuf/src/gtest/gtest-death-test.cc:164-185 | that message is the one that the child called DeathTestAbort with: all of it, or a beginning of it if the child was killed while it wrote |
| DeathTestPipe.PassedMeansDied | protobuf/trunk/protobuf/src/gtest/gtest-death-test.cc:380-424 | Passed holds exactly if the child ended silently with an acceptable status and the expected message |
| DeathTestPipe.NoDeadlock | protobuf/trunk/protobuf/src/gtest/gtest-death-test.cc:290-358 | however small the pipe, parent and child never wait for each other: when the code of neither can go on, the parent has its verdict or the error report |
| DeathTestPipe.ParentMovesOrWaits | protobuf/trunk/protobuf/src/gtest/gtest-death-test.cc:452-489 | an unfinished parent cannot move exactly when it waits for a live child, in read only if that child still holds the write end |
| DeathTestPipe.StepsAreFinite | protobuf/trunk/protobuf/src/gtest/gtest-death-test.cc:326-328 | every step other than a repeated interrupted system call decreases a well-founded measure |
| DeathTestPipe.RunKeepsInv | protobuf/trunk/protobuf/src/gtest/gtest-death-test.cc:315-489 | the invariant holds in every state of every interleaving |
| DeathTestPipe.FullPipeIsRead | protobuf/trunk/protobuf/src/gtest/gtest-death-test.cc:164-185 | while an error report waits for room in the pipe, the parent is still to read |
| DeathTestFlag.FlagRoundTrip | protobuf/trunk/protobuf/src/gtest/gtest-death-test.cc:611-618 | the child receives the very flag that the parent sent if and only if the file name has no colon, no number is negative and the text fits the buffer |
| DeathTestFlag.ParseFlagExact | protobuf/trunk/protobuf/src/gtest/gtest-death-test.cc:726-745 | a value parses to a flag exactly if it is the flag's file name, free of colons, and three fields for its numbers; only the empty value means no flag |
| DeathTestFlag.BodyFields | protobuf/trunk/protobuf/src/gtest/gtest-death-test.cc:615-618 | the printed value has the fields file, line, index and descriptor, in this order |
| DeathTestFlag.ChildRunsThatTest | protobuf/trunk/protobuf/src/gtest/gtest-death-test.cc:593-681 | a re-executed program that makes the parent's Create calls skips those before the flagged one, gets for that one alone the very test that the parent made, and is refused all later ones |
| DeathTestFlag.UnflaggedBody | protobuf/trunk/protobuf/src/gtest/gtest-death-test.cc:669-678 | in an unflagged program every call of a test body gets its own test, of the kind that the style names |
| DeathTestFlag.FlaggedBody | protobuf/trunk/protobuf/src/gtest/gtest-death-test.cc:654-667 | under any flag only the call that has its file, line and index gets a test |
| DeathTestFlag.NoWrongNumberIffLongIsWider | protobuf/trunk/protobuf/src/gtest/gtest-death-test.cc:713-717 | no digit string is parsed to a number other than its own if and only if long is wider than int |
| DeathTestFlag.ParseExact | protobuf/trunk/protobuf/src/gtest/gtest-death-test.cc:706-721 | exactly the nonempty digit strings whose clamped value fits an int are accepted |
| DeathTestFlag.SplitString | protobuf/trunk/protobuf/src/gtest/gtest-death-test.cc:686-701 | the fields are colon-free and their join is the input |
| DeathTestFlag.FieldsJoin | protobuf/trunk/protobuf/src/gtest/gtest-death-test.cc:686-701 | joining undoes splitting |
| DeathTestFlag.JoinFields | protobuf/trunk/protobuf/src/gtest/gtest-death-test.cc:686-701 | splitting undoes joining colon-free fields |
| DeathTestFlag.DeathTestFactory.Create | protobuf/trunk/protobuf/src/gtest/gtest-death-test.cc:645-681 | counts the death test; without a flag, or if file, line and index are all the flag's, makes an ExecDeathTest with this file and line exactly for "threadsafe" and a NoExecDeathTest exactly for "fast" and refuses any other style; before the flagged index skips, after it refuses |
| DeathTestFlag.DeathTestFactory.CreateAll | protobuf/trunk/protobuf/src/gtest/gtest-death-test.cc:645-681 | the calls of a whole test body are numbered from 1 and each gets the result for its number |
| Primes.PrimesListed | benchmark/seive2.py:5-14 | the list that the sieves are proved to return holds exactly the primes up to its bound, in increasing order |
| BitSieve.Make | benchmark/seive.c:17-23 | for all dimensions that fit 32 bits and reach the root, afterwards the bit of b is clear exactly if 2b+1 is prime; all indices are in bounds and nothing wraps around |
| BitSieve.IsPrimeDecides | benchmark/seive.c:25 | isprime decides primality for every int below 2 * P2, also for negative ones |
| SeivePy.Program.Sieve | benchmark/seive.py:21-37 | the list is exactly the increasing primes below n, unless the search runs off the list, which it does if and only if the largest odd prime below n has its square below n |
| ArraySieves.PrimesUpto2 | benchmark/prime_numpy.py:4-9 | returns the increasing primes up to the limit, for every limit |
| ArraySieves.Eratosthenes | benchmark/seive2.py:5-14 | returns 1 followed by the same list, and nothing for n below 1 |
| BitSieve.Strike | benchmark/seive.c:22 | the first index 2*k*(k+1) fits 32 bits and is that of the square; afterwards all products with a factor below 2k+3 are struck |
| BitSieve.StrikeFrom | benchmark/seive.c:22 | the inner loop strikes out exactly the odd multiples of 2k+1 from its square on |
| BitSieve.StruckNext | benchmark/seive.c:21-22 | striking out the multiples of 2k+1 leaves exactly the products with a factor below 2k+3 struck |
| ArraySieves.MarkOff | benchmark/seive2.py:7-9 | exactly the multiples from the given one on become false |
| SeivePy.Program.UseSurvivor | benchmark/seive.py:32-37 | one round of the outer loop leaves the next prime appended and its multiples struck out |
| SeivePy.Program.StrikeOut | benchmark/seive.py:32-37 | from index m*(m-1)/2 + index(m) in steps of m, exactly the odd multiples of m from its square on become 0, and then m |
| SeivePy.Program.NextNonZero | benchmark/seive.py:14-19 | returns the first survivor from fi on, or fails exactly if there is none |
| Base64.CodecRoundTrip | bluecherry/Bluecherry DVR » Version 2 beta signup information_files/application.js:96-100 | decoding the encoded string, with any foreign characters put in anywhere, gives its UTF-8 form if and only if the string is not empty, and UTF-8 decoding then gives the string with line ends normalised |
| Base64.ForeignSkipped | bluecherry/Bluecherry DVR » Version 2 beta signup information_files/application.js:96 | a character that is no letter, digit, plus, slash or equals sign makes no difference to the decoding of any text, wherever it stands |
| Base64.EncodeBase64 | bluecherry/Bluecherry DVR » Version 2 beta signup information_files/application.js:98-99 | the do-while loop and the final slicing give the base64 form, padding included, of the UTF-8 form; the empty string is returned as it is |
| Base64.DecodeBase64 | bluecherry/Bluecherry DVR » Version 2 beta signup information_files/application.js:96-97 | the do-while loop yields the characters of all groups of four, at least one group |
| Base64.GroupRoundTrip | bluecherry/Bluecherry DVR » Version 2 beta signup information_files/application.js:96-99 | a group of four characters decodes to the one to three octets it was made from |
| Base64.CutOffGroup | bluecherry/Bluecherry DVR » Version 2 beta signup information_files/application.js:96-97 | a filtered text that ends inside a group, and the empty one, decodes as if filled up with `A` |
| Base64.GroupArithmetic | bluecherry/Bluecherry DVR » Version 2 beta signup information_files/application.js:97 | the octets of any four positions, and that the second and the third are each left out exactly for padding in their own last position |
| Base64.QuartetNumber | bluecherry/Bluecherry DVR » Version 2 beta signup information_files/application.js:98 | the four characters are, in order, the digits to base 64 of the number that the three octets are to base 256 |
| Base64.InTableIffKept | bluecherry/Bluecherry DVR » Version 2 beta signup information_files/application.js:96 | the 65 characters of the table are exactly those of the regular expression that filters |
| Utf8.HblEncode | bluecherry/Bluecherry DVR » Version 2 beta signup information_files/application.js:100 | copying runs with two pending cursors gives the code-unit-by-code-unit UTF-8 form of the string with CRLF and CR turned into LF |
| Utf8.BrowserEncode | bluecherry/Bluecherry DVR » Version 2 beta signup information_files/application.js:455 | the UTF-8 form of the string with CRLF turned into LF; a lone CR stays |
| Utf8.BrowserLineEnds | bluecherry/Bluecherry DVR » Version 2 beta signup information_files/application.js:455 | the bytes of this encoder: CR-free text is encoded as it is; after it CRLF becomes the byte of LF, and a CR that no LF follows stays |
| Utf8.Decode | bluecherry/Bluecherry DVR » Version 2 beta signup information_files/application.js:455-456 | on any input the cursor loop yields the code units that the byte formats stand for, with missing bytes read as 0 |
| Utf8.DecodeInverts | bluecherry/Bluecherry DVR » Version 2 beta signup information_files/application.js:455-456 | decoding undoes encoding for every string of code units, surrogates included |
| Utf8.BytesOrdered | bluecherry/Bluecherry DVR » Version 2 beta signup information_files/application.js:100 | the byte forms of code units are in the order of the code units |
| Utf8.BytesShape | bluecherry/Bluecherry DVR » Version 2 beta signup information_files/application.js:100 | lengths and byte ranges of every form, none of them overlong; with the order this determines the forms |
| Utf8.DecodesFront | bluecherry/Bluecherry DVR » Version 2 beta signup information_files/application.js:455-456 | what the decoder makes of the front of any text, well-formed or not |
| Utf8.DecodesCutOff | bluecherry/Bluecherry DVR » Version 2 beta signup information_files/application.js:455-456 | a text that ends inside a character decodes as if zeros followed |
| Utf8.EncodersRoundTrip | bluecherry/Bluecherry DVR » Version 2 beta signup information_files/application.js:455-456 | what the output of each encoder decodes to |
| Utf8.LineEnds | bluecherry/Bluecherry DVR » Version 2 beta signup information_files/application.js:100 | CR-free text stays as it is; after it each CRLF, and each CR that no LF follows, becomes one LF |

## Left out

- PiAccuracy.AccuracyInTheLimit: speaks of whatever real number the partial sums approach; that this is pi/2 is not proved.
- The text that `printf("%.4d")` makes of a group; groups are numbers here, and one may be 10000.
- MoxMock.MockAnything.VerifyMethodCall: says nothing about the queue after UnexpectedMethodCallError, because the popped entry is not put back; where a call satisfies two different expectations of a group, set order decides between success and error, and both are then possible.
- MoxReplay.ReplaySound: is sound but not complete for comparators: an unordered group takes the first expectation that a call meets, and a repeat group keeps every call that it knows. Each of the two comparisons is a fixed relation between expectations and calls; an `__eq__` whose answers change from one evaluation to the next is not modelled.
- Mox.ReplayAll, VerifyAll and ResetAll, which loop over mocks that share nothing, and `_Reset`.
- Return values, exceptions and side effects of mocked methods, the attribute filtering of MockObject, and a MockMethod object that is kept and called twice.
- InAnyOrder and MultipleTimes on a call that is no longer the last one recorded, which is an AssertionError.
- The iteration order of Python sets is modelled by arbitrary picks from multisets.
- StubOut.RestoredIff: compares a restored staticmethod by the function inside; the wrapper object is a new one. Attributes whose assignment is intercepted (properties of a class set through an instance, custom `__setattr__`) are not modelled.
- SmartSet, which uses a module that the file never imports, SmartUnsetAll and `__del__`.
- DeathTestPipe.RunKeepsInv: Wait, Abort and AssumeRole are steps of a state machine on values rather than methods of a class, because they run concurrently; grandchildren that inherit the write end, and read or write errors other than EINTR and a closed descriptor, are not modelled.
- Capturing stderr, regular expressions (booleans here), clone and mmap, the exit-status predicates, and what the user does with the failure message.
- The increment of the death test count is not part of the file; it is taken to return the incremented count that is read later.
- ArraySieves.PrimesUpto2: takes the floating-point stop value as a parameter of which only the needed range is asked.
- SeivePy.Program.Sieve: does not exclude the IndexError, which needs a prime between m and m*m.
- BitSieve.Strike: `1<<31` is taken as setting the top bit, as every compiler in use does.
- `window.atob`, `eval`, the rest of `application.js`, and calling the codecs with something other than a string.
- All other files of the repository: wrappers, user interfaces, input and output, generated code.
