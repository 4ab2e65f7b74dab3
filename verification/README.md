# gitbruteforce core in Dafny

gitbruteforce rewrites the message of a git commit until the commit's SHA-1
starts with a hex prefix the user chose. It appends a newline and 60
lowercase hex characters (30 random bytes) to the original message. It hashes
each candidate as a git loose object, `"commit <len>\0" + header + "\n" +
message`. Eight threads search in parallel. They share one mutex-guarded
record: the number of attempts made so far and the result slot.

The model covers four parts of that search:

- **Object framing.** `compute_commit_hash` lays out the bytes it hashes in
  a `calloc`ed buffer. The model simulates `sprintf`, `strncpy` and `strlen`
  on that buffer with C-string semantics (module `CStrings`). For an
  allocation of any size it proves that the bytes measured for hashing
  are defined exactly when the loose-object encoding (`CommitObject.Frame`)
  is shorter than the allocation, and are then that encoding. With the
  allocation as written this holds for contents under 1000 bytes (see
  "## Findings"); with one byte more, for contents under 10000 bytes. The
  encoding parses back to its content.
- **Hex rendering.** `byte_to_hex_string` writes two lowercase hex digits
  and a terminator. Hex encoding of the 30 suffix bytes round-trips with
  its decoding.
- **Candidate mutation.** The loop body rewrites the bytes after the base
  message: a newline, then 30 hex pairs. The result, read as a C string,
  is the base message followed by `"\n"` and the hex of the random bytes.
  Every string of that shape is such a candidate, and different bytes give
  different candidates.
- **The search protocol.** A state machine over all workers, with three
  kinds of atomic step:
  - `Attempt`: a whole loop iteration, taken at its passing loop test: the
    mutation, the hash, and the count with its locked in-loop flush;
  - `Exit`: the failing loop test;
  - `Claim`: the final flush-and-claim critical section.

  An invariant holds on every schedule. It implies the following:
  - every attempt is counted exactly once;
  - the result slot is written once and never overwritten;
  - at most one worker wins, and once the slot is set exactly one
    worker has won and holds the claimed pair;
  - the claimed digest starts with the target;
  - for a non-empty target, the claimed message is a well-formed
    candidate whose digest is SHA-1 of its object encoding (an empty
    target claims the base message, see below).

  Nothing is proved about whether a claim is ever made: a target longer
  than 40 characters is never claimed on any schedule.

SHA-1 is a parameter of the search configuration (`Search.Config.sha1`). It
is constrained only to return 40 lowercase hex characters. The random bytes
are an input of each `Attempt` event.

Edge cases the code leaves open, as the model keeps them:
- The length of the target prefix is not checked. An empty target makes
  every worker leave its loop at once, so the base message is claimed with
  an empty digest string (`Search.EmptyTargetClaimsBase`). A target longer
  than 40 characters is never matched (`Search.OverlongTargetNeverClaims`).
- The length field is the content's actual byte count: 26 content bytes
  frame as `commit 26\0…` (`CommitObject.FrameExample`).

## Model

| member | source | states |
|---|---|---|
| CStrings.Strlen | src/gitbruteforce.c:27 | `strlen` from an offset returns the distance to the first NUL in the allocation, with no NUL before it; it is undefined (None) when the allocation holds no NUL from that offset, i.e. the read runs off the buffer |
| CStrings.StrlenOf | src/gitbruteforce.c:21 | a NUL at distance k with none before it makes `strlen` return exactly k |
| CStrings.CStr | src/gitbruteforce.c:15-16 | the C string read from a buffer position is the NUL-free run up to the first terminator |
| CStrings.Strncpy | src/gitbruteforce.c:23-25 | `strncpy(&buf[off], src, n)` (also the copies at :61 and :65) keeps the allocation's size, stores the first n characters of `src` at `off` and pads the rest of the n with NULs, and changes nothing before `off` or after `off + n` |
| CStrings.Strncmp | src/gitbruteforce.c:63 | `strncmp(a, b, n)` on C strings is 0 exactly when the first n characters (stopping at the terminators) agree |
| CStrings.HeadsDiffer | src/gitbruteforce.c:63 | when the first characters `strncmp` sees differ (a terminator standing for an empty string), the first n characters differ |
| CStrings.TailsAgree | src/gitbruteforce.c:63 | past a common non-NUL first character, the first n characters agree exactly when the first n - 1 of the tails do |
| CStrings.StrncmpPrefix | src/gitbruteforce.c:63 | `strncmp(hash, target, strlen(target)) == 0` holds exactly when the target is a prefix of the digest |
| Decimal.Render | src/gitbruteforce.c:20 | `%zu` prints a canonical decimal (digits only, no leading zero) of `NumDigits(n)` characters |
| Decimal.NumDigitsBound | src/gitbruteforce.c:19 | a length fits in k decimal digits exactly when it is below 10^k, so the 4 reserved digits hold exactly the lengths below 10000 |
| Decimal.ParseRender | src/gitbruteforce.c:20 | the printed length reads back as the same number |
| Decimal.RenderParse | src/gitbruteforce.c:20 | every canonical digit string is what `%zu` prints for its value |
| Hex.HexDigit | src/tools.c:19-20 | the conditional `v > 9 ? v-10+'a' : v+'0'` yields a lowercase hex character whose value is v |
| Hex.ByteHex | src/tools.c:17-20 | a byte becomes two lowercase hex characters, the quotient by 16 first, whose value is the byte |
| Hex.ByteToHexString | src/tools.c:13-24 | writes the byte's two hex digits at the pointer and a terminator after them, returns the same pointer, and leaves every other position of the buffer unchanged |
| Hex.Encode | src/gitbruteforce.c:66-69 | the 30 bytes become 60 lowercase hex characters |
| Hex.Decode | src/gitbruteforce.c:66-69 | reading hex text two characters per byte yields half as many bytes |
| Hex.PairValue | src/tools.c:17-18 | two hex digits, the quotient digit first, stand for a value in 0..255 |
| Hex.EncodeSnoc | src/gitbruteforce.c:66-68 | encoding one more byte appends exactly that byte's two hex characters |
| Hex.DecodeSnoc | src/gitbruteforce.c:66-68 | decoding two more hex characters appends exactly their byte |
| Hex.ByteHexOfPair | src/tools.c:17-20 | rendering the value of a hex pair gives back that pair |
| Hex.DecodeEncode | src/gitbruteforce.c:66-69 | decoding the hex text of bytes gives back the bytes |
| Hex.EncodeDecode | src/gitbruteforce.c:66-69 | every even-length lowercase hex text is the encoding of the bytes it decodes to |
| Hex.HexDigitsUnique | src/tools.c:17-20 | two hex pairs with the same value are the same pair, so the rendering is injective |
| CommitObject.Content | src/gitbruteforce.c:17 | the hashed content is `header_length` = header + 1 + message bytes long |
| CommitObject.Prefix | src/gitbruteforce.c:20-21 | `"commit <len>"` plus its terminator: NUL-free up to one final NUL, 7 + digits + 1 bytes |
| CommitObject.Frame | src/gitbruteforce.c:27-31 | the hashed byte count is 7 + digits of the length + 1 + content length |
| CommitObject.ParseFrame | src/gitbruteforce.c:17-27 | the loose-object encoding of any content parses back to that content |
| CommitObject.ParseObjectSound | src/gitbruteforce.c:17-27 | whatever parses as a commit object is exactly the encoding of the content it yields |
| CommitObject.FrameExample | src/gitbruteforce.c:20-25 | a two-line header and the message "hello" encode as `"commit 26\0tree abc\nparent def\n\nhello"` |
| CommitObject.WriteFraming | src/gitbruteforce.c:19-20 | `sprintf` into the zeroed allocation leaves the framing followed by zeros |
| CommitObject.FramingMeasured | src/gitbruteforce.c:21 | `strlen(data) + 1` is the framing's length including its terminator |
| CommitObject.CopyIntoZeros | src/gitbruteforce.c:23 | `strncpy` of a NUL-free string with its own length into zeros appends exactly that string |
| CommitObject.NewlineIntoZeros | src/gitbruteforce.c:24 | `strncpy(.., "\n", 2)` appends the newline and one padding NUL |
| CommitObject.OverwriteZeros | src/gitbruteforce.c:23-25 | a write at the end of the written part of a zeroed buffer appends the bytes written |
| CommitObject.CopyString | src/gitbruteforce.c:23 | copying a C string with its own length after the written part of a zeroed buffer appends exactly that string and leaves the rest zero |
| CommitObject.CopyNewline | src/gitbruteforce.c:24 | copying `"\n"` with length 2 appends the newline and writes its padding NUL over a zero |
| CommitObject.CopyParts | src/gitbruteforce.c:23-25 | when the three copies fit, they leave framing, content and the remaining zeros in the buffer |
| CommitObject.MeasureContent | src/gitbruteforce.c:27 | with at least one zero after the content, `strlen` from the content start is the content length and the measured bytes are the encoding |
| CommitObject.MeasureOverruns | src/gitbruteforce.c:27 | with no zero after the content, `strlen` runs off the allocation |
| CommitObject.MeasureFinal | src/gitbruteforce.c:27 | both cases of the final measurement in one statement |
| CommitObject.ContentNulFree | src/gitbruteforce.c:15-17 | a header and message that are C strings make NUL-free content |
| CommitObject.CopyAndMeasure | src/gitbruteforce.c:23-27 | after the framing, the copies and the measurement are defined exactly when a byte is left after the content, and then yield the loose-object encoding |
| CommitObject.HashedBytesIn | src/gitbruteforce.c:19-31 | for an allocation of any size, the bytes handed to SHA-1 are defined exactly when the encoding is shorter than the allocation, and then are the loose-object encoding |
| CommitObject.SourceAlloc | src/gitbruteforce.c:19 | the `calloc` size reserves four length digits: framing and content fit it for every content under 10000 bytes |
| CommitObject.SourceAllocFull | src/gitbruteforce.c:19 | for every content length with four digits, the encoding exactly fills the allocation, leaving no terminator |
| CommitObject.HashedBytesAsWritten | src/gitbruteforce.c:13-35 | with the allocation as written, the hashed bytes are defined exactly when the content is under 1000 bytes |
| CommitObject.HashedBytes | src/gitbruteforce.c:13-35 | with one more byte allocated, every content under 10000 bytes hashes as its loose-object encoding `"commit <len>\0" + header + "\n" + message`, which parses back to the content |
| Candidate.Candidate | src/gitbruteforce.c:65-69 | the message one iteration builds is well formed: the base, a newline and 60 lowercase hex characters (base + 61 characters) |
| Candidate.WellFormedIsCandidate | src/gitbruteforce.c:65-69 | every string of that shape is the candidate of the 30 bytes its hex decodes to |
| Candidate.CandidateInjective | src/gitbruteforce.c:66-69 | different random bytes give different candidates |
| Candidate.InitialBuffer | src/gitbruteforce.c:60-61 | the candidate buffer is base + 62 bytes, begins with the base, and reads as the base message before the first iteration |
| Candidate.NewlineStarts | src/gitbruteforce.c:65 | the newline write starts the suffix over the base's terminator |
| Candidate.HexStep | src/gitbruteforce.c:68 | each `byte_to_hex_string` call extends the written hex by one pair and re-terminates it |
| Candidate.Completed | src/gitbruteforce.c:66-69 | after 30 pairs the buffer's C string is the full candidate |
| Candidate.Mutate | src/gitbruteforce.c:65-69 | the mutation keeps the buffer size and the base, and leaves the C string base + "\n" + hex of the 30 bytes |
| Search.Init | src/gitbruteforce.c:57-61 | the start state (with the shared record zeroed at :115-117): n searching workers with empty batches, nothing counted and nothing claimed, each holding buffers consistent with zero attempts |
| Search.Digest | src/gitbruteforce.c:70 | the digest a worker computes for its candidate is 40 lowercase hex characters when SHA-1 is |
| Search.Enabled | src/gitbruteforce.c:63 | the loop test routes a searching worker: with C-string buffers it may take another `Attempt` exactly while nothing is claimed and the target does not prefix its digest, and it may `Exit` exactly when one of those fails |
| Search.Step | src/gitbruteforce.c:63-95 | one event of one worker (`Attempt` = one iteration :65-82, `Exit` = the failing test :63, `Claim` = :85-95) changes no other worker, never lowers the counter, writes the result slot only on a `Claim` into an empty slot, gives an `Attempt` the candidate of its bytes with that candidate's digest and one more hash, and lets `Exit` and `Claim` keep the buffers and count; a `Claim` adds the batch to the counter, empties it and wins exactly when the slot was empty |
| Search.ComputeCommitHash | src/gitbruteforce.c:70 | for a valid configuration, hashing a well-formed candidate through the buffer-level `compute_commit_hash` (corrected allocation) gives exactly the search's `Digest` of it |
| Search.Flush | src/gitbruteforce.c:73-76 | the in-loop critical section moves the whole batch into the shared counter, empties the batch, leaves the result slot alone, and reports exactly at multiples of 1000000 |
| Search.CountAttempt | src/gitbruteforce.c:72-82 | each attempt raises shared counter plus local batch by exactly one; the shared counter moves only by a whole batch of 10000 and the batch stays below 10000 |
| Search.FinalFlushAndClaim | src/gitbruteforce.c:85-95 | the final critical section adds the residual batch; the worker wins exactly when the slot was empty, and a taken slot is never overwritten |
| Search.LoopContinues | src/gitbruteforce.c:63 | the loop goes on exactly while nothing is claimed and the target is not a prefix of the last digest |
| Search.InitInv | src/gitbruteforce.c:115-117 | the start state (counter 0, nothing claimed, base messages, empty digests) satisfies the invariant |
| Search.SumUpdate | src/gitbruteforce.c:74 | replacing one worker changes the totals of batches and attempts by that worker's difference |
| Search.UpdateKeepsAccounted | src/gitbruteforce.c:72-82 | a counting step that adds its new attempts to counter plus batch keeps every attempt accounted for |
| Search.AttemptKeepsAccounted | src/gitbruteforce.c:63-82 | one loop iteration keeps the accounting |
| Search.AttemptKeepsBuffers | src/gitbruteforce.c:65-70 | after an iteration a worker holds a well-formed candidate and its digest |
| Search.AttemptKeepsClaims | src/gitbruteforce.c:63-82 | an iteration never touches the result slot or the winners |
| Search.ExitKeepsAccounted | src/gitbruteforce.c:63 | leaving the loop keeps the accounting |
| Search.ExitKeepsClaims | src/gitbruteforce.c:63 | a worker leaves its loop only when a result is claimed or its own digest matches |
| Search.ExitKeepsBuffers | src/gitbruteforce.c:63 | leaving the loop changes no worker's message, digest or count |
| Search.ClaimKeepsAccounted | src/gitbruteforce.c:85-86 | the final flush keeps the accounting and leaves the worker with an empty batch |
| Search.ClaimKeepsClaims | src/gitbruteforce.c:85-95 | the claim keeps a unique winner whose pair is the result and matches the target |
| Search.ClaimKeepsBuffers | src/gitbruteforce.c:85-95 | the final critical section changes no worker's message, digest or count |
| Search.StepKeepsInv | src/gitbruteforce.c:63-95 | every enabled step of any worker keeps the invariant |
| Search.RunKeepsInv | src/gitbruteforce.c:63-95 | every schedule keeps the invariant |
| Search.Reachable | src/gitbruteforce.c:115-133 | every state reachable from the start satisfies the invariant |
| Search.StepMonotone | src/gitbruteforce.c:72-95 | a step never overwrites a claimed result or lowers the counter |
| Search.RunMonotone | src/gitbruteforce.c:72-95 | on every schedule a claimed result stays claimed unchanged and the counter never decreases |
| Search.NoAttemptAfterClaim | src/gitbruteforce.c:63 | once a result is claimed no worker starts another iteration and every searching worker can leave |
| Search.SingleWinner | src/gitbruteforce.c:87-94 | without a result nobody has won; with one, exactly one worker won and holds it |
| Search.ResultMatches | src/gitbruteforce.c:63-89 | the claimed digest starts with the target; with a non-empty target the message is a well-formed candidate and the digest is SHA-1 of its object encoding |
| Search.EmptyTargetClaimsBase | src/gitbruteforce.c:59-63 | an empty target claims the base message with an empty digest string |
| Search.OverlongTargetNeverClaims | src/gitbruteforce.c:63 | a target longer than 40 characters is never matched, so nothing is ever claimed |
| Search.CompletedCount | src/gitbruteforce.c:86 | once every worker has claimed or discarded, the counter is exactly the number of digests computed, at least any one worker's count |
| Search.CounterInWholeBatches | src/gitbruteforce.c:72-75 | before any final flush the shared counter is a multiple of 10000 |
| Hex.HexNulFree | src/gitbruteforce.c:66-69 | hex text holds no terminator |
| Search.OutcomeNulFree | src/gitbruteforce.c:59 | a digest a worker holds is a C string, empty or 40 characters |
| Search.SumHashedBound | src/gitbruteforce.c:86 | one worker's digests are at most the total |
| Search.SumBatchZero | src/gitbruteforce.c:86 | when every batch is empty, the batch total is zero |
| Search.InitSums | src/gitbruteforce.c:57 | fresh workers have no batch and no digests in total |
| Search.SamePhases | src/gitbruteforce.c:72-82 | a step that changes no worker's phase leaves "no worker has claimed yet" as it was: it holds after the step exactly when it held before |
| Search.WholeBatch | src/gitbruteforce.c:74 | adding a whole batch of 10000 keeps the counter's remainder modulo 10000 |

## Left out

- SHA-1 itself (`sha1.h`) is not part of this model. It is a function parameter constrained to 40 lowercase hex characters.
- `rand() % 256` is replaced by the bytes of each `Attempt` event, any 30 values in 0..255.
- Threads, the mutex and `pthread_threadid_np` are modelled as an interleaving of atomic steps: a whole iteration (`Attempt`), the failing loop test (`Exit`) and the final critical section (`Claim`). The unsynchronized read of the result slot in the loop test is taken as an atomic read, so the data race it is in C is not modelled.
- Search.Step: an iteration is atomic from its loop test (src/gitbruteforce.c:63) through its in-loop flush (:72-81), so another worker's claim (:85-90) that falls between them in C is reordered after the whole iteration. No proved property changes: the flush only adds to `counter` and never reads `found`, and the claim writes `found` without reading `counter`. What does change is `Flush`'s progress-line test at :76, which is evaluated in the reordered order (without a residual another worker's claim would already have added).
- The worker count `THREADS` (8) is a parameter `n` of `Search.Init`. Every property holds for any count.
- `time_usec`, `srand`, `printf` and the hashes-per-second division at src/gitbruteforce.c:78-79 are left out (clock and output). Only the condition under which a progress line prints is kept.
- `forge_commit_message`'s thread creation and joining, its error exits, and the freeing of buffers are left out. `calloc` is modelled as a zeroed sequence that never fails.
- `main`, libgit2 and the amend/commit I/O are left out.
- Search: the shared counter is an unbounded natural number. The source's `int64_t` would only overflow after about 9.2e18 attempts.
- Search: the model proves safety only. It does not prove that the search terminates, since a match depends on SHA-1's output, which the model does not constrain.
- Hex.ByteToHexString: only `num` in 0..255 is modelled, the range the caller's `rand() % 256` produces. Negative or larger values, which C's truncating `/` and `%` would render as non-hex characters, are excluded by the precondition.
- CommitObject.HashedBytes: requires content under 10000 bytes. The corrected allocation still reserves only four length digits. `sprintf` always fits, but from 10000 bytes on the framing takes five or more digits, so no zero is left after the content. Then either a copy at src/gitbruteforce.c:23-25 writes past the allocation (for instance the 2-byte `"\n"` copy when the message is empty) or the `strlen` at :27 runs off it. `CommitObject.HashedBytesIn` covers every allocation size and is None in both cases, through `CommitObject.CopyAndMeasure`.
- Search.Digest: hashes the corrected encoding of `CommitObject.HashedBytes`. `Search.ValidConfig` admits contents of 1000 to 9999 bytes, on which the search as written reads past its buffer (see "## Findings"); the search model does not carry that overrun.

## Findings

| source | as written | input that shows it | evidently intended | confidence | as-written member | corrected member |
|---|---|---|---|---|---|---|
| src/gitbruteforce.c:19-27 | allocates `7 + 4 + 1 + header_length` bytes: room for four length digits and one NUL, but none for a terminator after the content | any header and message whose content (`header + 1 + message`) is 1000 to 9999 bytes: the encoding fills the buffer exactly, so `strlen(&data[sizer_length])` reads past the allocation; with an empty message the `"\n"` copy of 2 bytes also writes one byte past it | allocate one byte more, so every content with up to four length digits is terminated and measured correctly | not executed | CommitObject.HashedBytesAsWritten | CommitObject.HashedBytes |

`CommitObject.SourceAllocFull` shows that for every four-digit content
length the encoding fills the allocation as written exactly.
`CommitObject.HashedBytesAsWritten` shows the hashed bytes are defined
exactly when the content is under 1000 bytes. `CommitObject.HashedBytes`
proves that with one extra byte every content under 10000 bytes hashes
as its loose-object encoding. The search (`Search.Digest`) uses that
corrected encoding.
