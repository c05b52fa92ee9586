# A verified model of the self-contained cores of fish-cpp

This project models, in Dafny 4.11, the parts of the repository whose behaviour is decided by code
that is present, and proves what they promise to their callers. `dafny verify dfyconfig.toml` checks
all of it.

**Condition variable** (`win32fixes.c`; `redis/win32fixes.c` holds the same code one line higher).
`CondVarModel` is an interleaved step system over any number of threads: a program counter per thread,
one step per lock operation, per load and store of `waiters`, per semaphore operation and per branch of
`pthread_cond_wait` and `pthread_cond_signal`, and client steps around them. `Init` is the state after
`pthread_cond_init`. A schedule is any sequence of (thread, action) pairs, so "for every schedule" below
is "for every interleaving". A client locks the mutex only when it does not hold it and calls wait only
when it does; it may signal with the mutex (`Signal`) or, against the comment at win32fixes.c:343-347,
without it (`BareSignal`). A release on a semaphore that holds 2147483647 tokens (LONG_MAX) fails, as
ReleaseSemaphore does.
`CondVarSafety` has the inductive invariant and its consequences, `CondVarWakeup` no lost wakeup,
`CondVarDrain` deadlock freedom, termination and what is left at the end, `CondVarLimits` runs that show
what is not promised: a signal without the mutex can be lost, and tokens can outlive their waiters.
`CondVarExact` closes the gap between the two: a signal without the mutex is kept in every run if and
only if it does not begin while a thread stands at the entry of wait and the tokens at hand are just as
many as the counted threads before the semaphore, fewer than 2147483647. Holding the mutex rules that out.

**Base64** (`header/base64.h`). `Base64` is the loop, with C's promotion, sign-keeping shift, masks and
conversion on bit vectors (`CChar`) and `int` positions that are checked not to overflow. `Base64Spec`
has the encoding of section 4 of RFC 4648, a strict decoder and the canonical strings of section 3.5,
with a two-sided inverse between them.

**Explode** (`header/explode.hpp`). `Explode` is the class with both constructors, the table of ten
slots and the copying pass. `ExplodeSpec` says what each scanner records, `ExplodeTheorems` what that
means: round trips, rejoining, the recursive split, agreement of the two constructors. The string
scanner never backs up after a partial match, and takes a partial match that the terminator cuts off as
a reason to step over the terminator. Exact results say where that does no harm. It stays inside every
text if and only if the delimiter has one character. For a delimiter that repeats one character, but for
its last one, it stays inside a text if and only if the run of that character at the end of the text is
a whole number of delimiter lengths. For every delimiter, the pieces are those of an automaton that
reads each character once; the scanner stays inside if and only if the automaton ends in its initial
state, and finds a delimiter if and only if the automaton is in its initial state in front of it. On the
texts inside which it stays it finds the leftmost occurrences if and only if the delimiter repeats a
single character. The call at main.cpp:61 is not safe: its text ends in five bars, the delimiter has
two, and the scan steps over the terminator.

**Smaller cores.** `Rio`: the stream of `redis/rio.h` with its running checksum. `Period`: the macro
`run_with_period` of `redis/redis.h`. `FileTime`: the two FILETIME conversions of `win32fixes.c` with
their 32- and 64-bit types. `AppendList`: the list of `source/link.hpp`.

Where code and comments disagree the model follows the code: redis/rio.h:41-42 promises "non zero on
complete success", but `rioRead` accepts only 1 (redis/rio.h:79; `Rio.CodeTwoIsLost` and
`Rio.UnreportedReadsShow`); redis/rio.h:46-47 calls the checksum one of the data "read or written so
far", but a failed write is in it as well (redis/rio.h:74-75; `Rio.FailedWritesShow`).

## Model

| member | source | states |
|---|---|---|
| CondVarSafety.InitInv | win32fixes.c:259-282 | the freshly initialised condition variable satisfies the invariant, for any number of threads |
| CondVarSafety.MoveLocks | win32fixes.c:294-353 | no move takes a held lock, gives up one it does not hold, or changes `waiters` without `waiters_lock` |
| CondVarSafety.MoveCounts | win32fixes.c:294-362 | every move changes waiters, passes, returns, releases and tokens in step with the position it leaves and reaches |
| CondVarSafety.StepInv | win32fixes.c:291-363 | every enabled step of every thread keeps the whole invariant |
| CondVarSafety.MutualExclusion | win32fixes.c:294-353 | in every reachable state mutex and `waiters_lock` have at most one holder, the one they name |
| CondVarSafety.WaitReturnsWithMutex | win32fixes.c:337-341 | a return from wait leaves the returning thread holding the mutex, which nobody held before |
| CondVarSafety.Conservation | win32fixes.c:294-362 | in every reachable state `waiters` is the number of threads between its increment and its decrement, releases are passes plus tokens, at most 2147483647 tokens, and returns never exceed releases |
| CondVarSafety.LastWaiterBranchIsDead | win32fixes.c:315-336 | `was_broadcast` stays 0, so no thread is ever the last waiter and `continue_broadcast` is never set |
| CondVarWakeup.CountedWaitersAreWoken | win32fixes.c:348-363 | with or without the mutex: once a signal has returned, in every later state passes since it began plus tokens left reach the smaller of the threads already counted then, or holding the lock to be counted, and the tokens then plus one (at most 2147483647) |
| CondVarWakeup.AtMostOneUncounted | win32fixes.c:294-304 | in every state of the invariant at most one thread is inside wait and not yet counted |
| CondVarWakeup.KeptUnlessLossy | win32fixes.c:343-363 | outside a lossy state (a thread at the entry of wait, and just as many tokens, below 2147483647, as counted threads before the semaphore) that bound holds for all threads anywhere in wait before the semaphore, with or without the mutex |
| CondVarWakeup.MutexMeansCounted | win32fixes.c:294-304 | while a client holds the mutex, every thread inside wait before the semaphore has been counted, and the state is not lossy |
| CondVarWakeup.NoLostWakeup | win32fixes.c:343-363 | a signal with the mutex held is not lost: the bound above holds for all threads anywhere in wait before the semaphore, and if there is one, ever after there is a token or some thread has passed |
| CondVarWakeup.SignalWithoutWaiters | win32fixes.c:351-362 | a signal under the mutex with nobody counted and no other signal in flight releases no token, whatever the other threads do meanwhile |
| CondVarDrain.LockHolderRuns | win32fixes.c:294-318 | a holder of `waiters_lock` always has an enabled step |
| CondVarDrain.DeadlockFree | win32fixes.c:291-363 | a reachable state is stuck if and only if every thread is outside or blocked on an empty semaphore |
| CondVarDrain.DrainTerminates | win32fixes.c:291-363 | if nothing new is started, every run is bounded by an explicit measure, and signals in flight release at most one token each |
| CondVarDrain.DrainOutcome | win32fixes.c:291-341 | when it ends, exactly max(0, b-s) of b waiters are blocked, all others have returned, and max(0, s-b) of s tokens are left; s counts the tokens at hand and those that signals in flight still release |
| CondVarDrain.DrainWithoutSignals | win32fixes.c:291-341 | the same with no signal in flight, where s is the tokens at hand when the drain begins |
| CondVarDrain.DrainExists | win32fixes.c:291-363 | from every state such a run to the end exists |
| CondVarDrain.SignalWakesOne | win32fixes.c:307-363 | one signal under the mutex, run to the end, leaves blocked exactly the waiters beyond the tokens at hand plus one, if fewer than 2147483647 tokens are at hand |
| CondVarLimits.SignalsWakeAsMany | win32fixes.c:351-362 | k signals in a row before any of b >= 1 waiters moves: run to the end in any order, exactly max(0, b-s-k) stay blocked and max(0, s+k-b) tokens are left, as long as s tokens plus k are at most 2147483647 |
| CondVarLimits.BareSignalCanBeLost | win32fixes.c:343-347 | the smallest witness: two threads, a lossy state, a signal without the mutex that returns and is not kept, and the waiter blocked for good |
| CondVarLimits.StaleTokensSurvive | win32fixes.c:351-362 | n signals before the only waiter wakes leave n-1 tokens with no waiter, for every n up to 2147483647: the semaphore is not bounded by `waiters` |
| CondVarExact.LossyRun | win32fixes.c:343-363 | from every lossy state, with any number of threads, a signal without the mutex has a run in which it returns and is not kept |
| CondVarExact.BareSignalExact | win32fixes.c:343-363 | from every reachable state a signal without the mutex is kept in every run if and only if the state is not lossy |
| CChar.ShiftsAndMasks | header/base64.h:7-32 | for signed and unsigned char alike, no bit that promotion or arithmetic shift drags in survives the masks |
| CChar.PromoteKeepsValue | header/base64.h:7-32 | promotion of a char keeps its value, which is negative from 128 on where char is signed |
| Base64Spec.AlphabetIsDigit | header/base64.h:4 | the 64-character table is the alphabet of RFC 4648, table 1 |
| Base64.FirstChar | header/base64.h:7-9 | the character of the first sextet of the group |
| Base64.SecondHigh | header/base64.h:11 | the low two bits of the first byte, shifted up, for either signedness |
| Base64.SecondCharAlone | header/base64.h:11-14 | the second character when the input ends after one byte |
| Base64.SecondChar | header/base64.h:11-20 | the second character, from the low bits of one byte and the high bits of the next |
| Base64.ThirdHigh | header/base64.h:22 | the low four bits of the second byte, shifted up, for either signedness |
| Base64.ThirdCharAlone | header/base64.h:22-25 | the third character when the input ends after two bytes |
| Base64.ThirdChar | header/base64.h:22-30 | the third character, from the low bits of the second and the high bits of the third byte |
| Base64.FourthChar | header/base64.h:32-33 | the fourth character, from the low bits of the third byte |
| Base64.Group | header/base64.h:7-33 | one pass writes the first four characters of the encoding of what is left, and breaks off with padding exactly when fewer than three bytes are left |
| Base64.Put | header/base64.h:9-33 | the characters of a group go to the next four positions and nothing else changes |
| Base64.Loop | header/base64.h:5-34 | the loop writes the encoding of the whole input, leaves the rest of the buffer alone, and no `int` overflows |
| Base64.Base64Encode | header/base64.h:1-37 | for a length n >= 0 the buffer holds the RFC 4648 encoding of all n bytes and a NUL, 4*ceil(n/3)+1 characters; for a negative one only the NUL; char may be signed or not |
| Base64.LongestIsExact | header/base64.h:2-5 | the last position written, the length of the encoding, fits an `int` if and only if the input has at most 1610612733 bytes |
| Base64Spec.SextetsOfGroup | header/base64.h:7-33 | the sextets are the 24-bit group divided by powers of 64 |
| Base64Spec.EncodeLength | header/base64.h:5-35 | the code has 4*ceil(n/3) characters |
| Base64Spec.TestVectors | header/base64.h:4-34 | the test vector "foobar" of RFC 4648, section 10, the digits + and /, and = in the padded places |
| Base64Spec.RoundTrip | header/base64.h:1-37 | decoding the encoding of any bytes gives them back |
| Base64Spec.Injective | header/base64.h:1-37 | different inputs have different encodings |
| Base64Spec.DecodeAccepts | header/base64.h:5-34 | the decoder accepts exactly the canonical strings, and encoding what it returns gives the string back |
| Base64Spec.ExactImage | header/base64.h:5-34 | a string is an output of the encoder if and only if it is canonical |
| ExplodeSpec.Matched | header/explode.hpp:54-62 | where the inner loop stops: the longest match, never beyond the terminator |
| ExplodeTheorems.NoCutOffInside | header/explode.hpp:53-74 | if no proper prefix of the delimiter ends the text, the scan never steps over the terminator |
| ExplodeTheorems.CutOffOverruns | header/explode.hpp:53-62 | a text that ends in a non-empty proper prefix of the delimiter, whose first character does not occur in front of it, always sends the scan over the terminator |
| ExplodeTheorems.ScannerIsAutomaton | header/explode.hpp:53-74 | for every text and delimiter the nested loops record exactly what an automaton records that reads each character once, and stay inside exactly when it ends in its initial state |
| ExplodeTheorems.FoundExactly | header/explode.hpp:53-74 | a piece is cut off at q if and only if the delimiter stands at q and the automaton arrives there in its initial state |
| ExplodeTheorems.NotOverlooked | header/explode.hpp:53-74 | a delimiter is overlooked only directly behind a proper prefix of itself or when an overlapping one in front of it is found |
| ExplodeTheorems.StringScan | header/explode.hpp:53-79 | for every text and delimiter the pieces are ordered with a true delimiter between neighbours; rejoining the kept ones gives the text, or with more than eight delimiters, closed with one, a prefix of it |
| ExplodeTheorems.StringRoundTrip | header/explode.hpp:44-82 | exploding a join of fields free of the delimiter's first character stays inside the text and gives the first nine fields |
| ExplodeTheorems.ConstructorsAgree | header/explode.hpp:23-79 | for a one-character delimiter both scanners record the same pieces |
| ExplodeTheorems.CharScan | header/explode.hpp:18-42 | the character scanner computes the recursive split: one piece more than delimiters, none containing it, rejoining to the text or a prefix |
| ExplodeTheorems.SafeDelimiters | header/explode.hpp:53-62 | the string scanner stays inside every text if and only if the delimiter has one character |
| ExplodeTheorems.SafeTexts | header/explode.hpp:53-74 | for a delimiter that repeats one character, its last one excepted, the scan stays inside exactly the texts whose final run of that character is a multiple of the delimiter length |
| ExplodeTheorems.MainOverruns | header/explode.hpp:53-74 | the only call in the repository, at main.cpp:61, sends the scan over the terminator |
| ExplodeTheorems.ExactDelimiters | header/explode.hpp:53-73 | the string scanner finds the leftmost occurrences in every text it stays inside if and only if the delimiter repeats one character |
| Explode.Explode.Char | header/explode.hpp:18-42 | first constructor: table and copies of the scan; for a missing or empty text the caller sees nothing: length 0, null at every index |
| Explode.Explode.String | header/explode.hpp:44-82 | second constructor, on all inputs: length 0 and null at every index for a missing or empty text or an empty delimiter; table and copies of the scan when it stays inside the text; otherwise exactly the overrun is recorded, with the table of the pieces in front of the last |
| Explode.Explode.ScanChar | header/explode.hpp:23-39 | the loop fills the table with the first nine pieces of the character scan |
| Explode.Explode.ScanString | header/explode.hpp:50-79 | the nested loops end at the terminator if and only if the scan stays inside, and fill the table with the first nine pieces, without the last one when it does not |
| Explode.Explode.Pass | header/explode.hpp:53-73 | one pass of the outer loop moves and records as specified |
| Explode.Explode.MatchHere | header/explode.hpp:55-62 | the inner loop stops behind the longest match and reports whether it is the whole delimiter |
| Explode.Explode.Record | header/explode.hpp:27-31 | a tenth piece and later ones leave the table as it is |
| Explode.Explode.ClearTable | header/explode.hpp:22 | the whole table is null |
| Explode.Explode.CopyPiece | header/explode.hpp:94-102 | a fresh buffer holds exactly the piece and a NUL |
| Explode.Explode.Copy | header/explode.hpp:84-104 | every entry of the array is initialised: null for an empty piece, else a fresh NUL-terminated copy |
| Explode.ExplodedReturns | header/explode.hpp:110-121 | the length is at most nine, slots are null exactly from it on, `operator[]` is null exactly there and for empty pieces |
| Explode.CharResult | header/explode.hpp:18-42 | the caller sees the first nine fields of the recursive split |
| Explode.JoinResult | header/explode.hpp:44-82 | the caller sees the first nine joined fields |
| Rio.Rio.Write | redis/rio.h:73-76 | the hook is handed exactly the bytes of the block, in order, then the backend, whose code is returned as it is: a failed write still changes the checksum |
| Rio.Rio.Read | redis/rio.h:78-84 | returns 1, and hands the hook exactly the bytes delivered, when the backend delivers with code 1; with any other non-zero code the bytes are delivered and the position moves, but 0 is returned and the checksum stays |
| Rio.WriterState | redis/rio.h:73-76 | after any writes the checksum covers all bytes attempted, the buffer holds those accepted, and the position is behind them |
| Rio.ReaderState | redis/rio.h:78-84 | after any reads with any return codes the bytes delivered are the next ones of the buffer, and the checksum covers exactly those whose read returned 1 |
| Rio.HookSees | redis/rio.h:73-84 | over whole sessions the hook folds exactly the bytes of the attempted writes, or of the reads that returned 1, one by one and in order; without a hook the checksum never changes |
| Rio.ChunkingIndependent | redis/rio.h:46-53 | after successful writes, a reader that received as many bytes as were written, whatever reads and codes, received those bytes and has the writer's checksum |
| Rio.RechunkedReads | redis/rio.h:73-84 | so do reads of any lengths with the same total, each with code 1 |
| Rio.FailedWritesShow | redis/rio.h:73-76 | the writer's checksum fits the stored bytes for every hook and start value if and only if every failed write was empty |
| Rio.NoLossFits | redis/rio.h:73-76 | if every failed write was empty it fits, for checksums of any type |
| Rio.UnreportedReadsShow | redis/rio.h:78-84 | the reader's checksum fits the bytes delivered for every hook and start value if and only if the backend returned 1 for every delivery that was not empty |
| Rio.AllReportedFits | redis/rio.h:78-84 | if it did, the checksum fits, for checksums of any type |
| Rio.OneReadExact | redis/rio.h:79-81 | a delivering read is reported if and only if the code is 1, and enters the checksum of every hook if and only if the code is 1 or the block is empty |
| Rio.CodeTwoIsLost | redis/rio.h:79-83 | with code 2 the bytes are delivered, the position moves, 0 is returned and the checksum is untouched |
| Period.TicksPerPeriod | redis/redis.h:312 | for a period longer than a tick the second divisor is positive and k ticks lie in (ms - tick, ms] |
| Period.Tick | redis/redis.h:312 | the tick is at least two milliseconds for every valid hz, and hz ticks fit a second but hz ticks of one millisecond more do not |
| Period.RunsAlways | redis/redis.h:312 | the body runs in every loop if and only if the period is shorter than two ticks, not only up to one |
| Period.OncePerWindow | redis/redis.h:312 | a longer one runs exactly once in every window of k loops and again exactly k loops later, loop 0 included |
| FileTime.GetTimeOfDaySecs | win32fixes.c:430-446 | shift-and-or glues the halves; the result is the signed 64-bit computation on the whole FILETIME, right exactly in the range stated below |
| FileTime.GetTimeOfDay | win32fixes.c:456-466 | the same for the unsigned computation |
| FileTime.EpochIsDelta | win32fixes.c:422 | the constant is the number of microseconds from 1601 to 1970 in the Gregorian calendar, its leap years counted by their rule |
| FileTime.SignedRanges | win32fixes.c:430-466 | the conversions to signed 32- and 64-bit integers stay in range and congruent |
| FileTime.ShiftAndOr | win32fixes.c:437-439 | the glued value is hi * 2^32 + lo |
| FileTime.UnsignedTimeIsExact | win32fixes.c:463-466 | `gettimeofday` gives the microseconds since 1970 if and only if they are not negative and their seconds fit a 32-bit long |
| FileTime.SignedTimeIsExact | win32fixes.c:442-445 | `gettimeofdaysecs` is right if and only if the FILETIME is below 2^63 and either from 1970 on or at a whole second |
| FileTime.SignedTimeOutside | win32fixes.c:437-445 | otherwise its seconds are rounded toward zero and a negative remainder is wrapped around to 32 bits; a FILETIME from 2^63 on counts as negative |
| FileTime.TheyAgree | win32fixes.c:430-466 | both give the same result if and only if `gettimeofday` is right |
| FileTime.Monotone | win32fixes.c:448-467 | where it is right, `gettimeofday` is monotone in the FILETIME, lexicographically |
| AppendList.Link.Init | source/link.hpp:27-31 | an empty chain, whatever was linked before |
| AppendList.Link.Add | source/link.hpp:44-53 | appends a fresh node, links nothing else, counts one up; `prev` is always null |
| AppendList.Link.Total | source/link.hpp:33-36 | what the never initialised counter held at `init`, plus the number of nodes added since |
| AppendList.Link.GetLink | source/link.hpp:38-42 | the first node added since `init`, or null |
| AppendList.Link.WalkVisitsNodes | source/link.hpp:44-53 | following `next` visits exactly the added nodes in call order and ends in null |
| AppendList.WalkIsUnique | source/link.hpp:44-53 | there is only one such walk, so the chain is acyclic |

## Left out

- The condition variable's steps are transitions on values, not methods on a class, because interleaving
  has no counterpart in sequential Dafny code; the shared fields are those of `pthread_cond_t`.
- The return code of `pthread_cond_signal` is not modelled; a failed release is.
- WaitForSingleObject is taken to return only with a token (its result is ignored by the code too), and
  critical sections are not acquired recursively. `pthread_cond_destroy` and the failure of
  CreateSemaphore or CreateEvent are not modelled.
- `waiters` is unbounded; `Conservation` bounds it by the number of threads.
- Broadcast: no function that sets `was_broadcast` is part of the repository.
- `bindata` is a sequence of octets that the encoder only reads, so it cannot overlap the output buffer.
  The four characters of a group are computed before they are stored; the source stores each at once.
- Base64Encode: requires at most 1610612733 bytes, beyond which the source's `int` positions overflow.
- Explode: a scan that steps over the terminator goes on in the memory behind the text; the model stops
  there with `overran` set and does not follow it. Pointers are indices into the text; `getInt` (atoi),
  the debug output of `copy`, malloc failure and the destructor are left out.
- The file backend of the stream and the backend functions themselves are not defined in the repository;
  the buffer backend is the one the comment in redis/rio.h describes.
- Rio.Rio.BufferWrite, Rio.Rio.BufferRead: the backend's return code is a parameter; code 0 transfers
  nothing, any other code everything, and a read of more than is left returns 0.
- Period: `cronloops` is unbounded; the window that contains the overflow of the source's `int` is not
  modelled.
- FileTime: the FILETIME delivered by the system is a parameter; the time zone half of `gettimeofday` is
  left out.
- AppendList.Link.Add: claims only the forward chain; the source never stores the value, declares the
  method const although it assigns members, and never initialises `_total`.
- The Redis structures that are only declared (dict, intset, ziplist, sds and the like), the database
  clients, the remaining Win32 wrappers, the JSON and WebSocket code, the memory pool and the game logic.
