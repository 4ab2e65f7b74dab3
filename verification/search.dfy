/** The search protocol of `forge_thread` (src/gitbruteforce.c).

    Eight threads share one record `{counter, found}` guarded by one mutex.
    The workers interleave three kinds of atomic step: `Attempt`, a whole
    loop iteration taken at its passing loop test (mutation, hash, and the
    count with its locked in-loop flush); `Exit`, the failing loop test;
    and `Claim`, the final flush-and-claim critical section.  The loop test
    reads `found` without the lock; it is modelled as an atomic read.  SHA-1 is a
    parameter of the configuration, constrained only to return 40 lowercase
    hex characters. */
module Search {
  import opened Wrappers
  import opened CStrings
  import opened Hex
  import CommitObject
  import Candidate

  /** A progress line is printed when the shared counter is a multiple of this. */
  const MAX_COUNTER: nat := 1000000
  /** Attempts a worker counts locally before flushing them. */
  const MAX_BUFFER_COUNTER: nat := 10000
  /** Hex characters in a SHA-1 digest. */
  const DIGEST_LEN: nat := 40

  /** The winning message and its digest. */
  datatype Found = Found(message: seq<char>, hash: seq<char>)

  /** The mutex-guarded record the workers share. */
  datatype Shared = Shared(counter: nat, found: Option<Found>)

  /** The shared record and a worker's local batch after one counting step,
      and whether that step prints a progress line. */
  datatype Counted = Counted(shared: Shared, batch: nat, report: bool)

  /** The in-loop critical section: add the whole local batch to the shared
      counter and reset the batch.  A progress line is printed when the new
      counter is a multiple of `MAX_COUNTER`. */
  function Flush(s: Shared, batch: nat): (r: Counted)
    ensures r.batch == 0 && r.shared.found == s.found
    ensures r.shared.counter - s.counter == batch
    ensures r.report <==> r.shared.counter % MAX_COUNTER == 0
  {
    var counter := s.counter + batch;
    Counted(s.(counter := counter), 0, counter % MAX_COUNTER == 0)
  }

  /** `++buffer_counter` after a hash, flushing when it reaches
      `MAX_BUFFER_COUNTER`.  No attempt is lost or counted twice: the shared
      counter plus the local batch grows by exactly one.  The shared counter
      never decreases, moves only in whole batches, and `found` is not
      touched. */
  function CountAttempt(s: Shared, batch: nat): (r: Counted)
    ensures r.shared.counter + r.batch == s.counter + batch + 1
    ensures r.shared.found == s.found
    ensures r.shared.counter == s.counter || r.shared.counter == s.counter + MAX_BUFFER_COUNTER
    ensures r.shared.counter != s.counter ==> r.batch == 0
    ensures batch < MAX_BUFFER_COUNTER ==> r.batch < MAX_BUFFER_COUNTER
    ensures r.report ==> r.shared.counter % MAX_COUNTER == 0
  {
    var b := batch + 1;
    if b == MAX_BUFFER_COUNTER then Flush(s, b) else Counted(s, b, false)
  }

  /** The shared record after the final critical section, and whether this
      worker's candidate was kept. */
  datatype Claimed = Claimed(shared: Shared, won: bool)

  /** The final critical section: flush the residual batch, then claim the
      result slot only if no one has.  A worker that finds the slot taken
      discards its candidate and leaves the earlier claim untouched. */
  function FinalFlushAndClaim(s: Shared, batch: nat, message: seq<char>, hash: seq<char>): (r: Claimed)
    ensures r.shared.counter == s.counter + batch
    ensures r.won <==> s.found.None?
    ensures s.found.Some? ==> r.shared.found == s.found
    ensures s.found.None? ==> r.shared.found == Some(Found(message, hash))
  {
    var counter := s.counter + batch;
    if s.found.None? then Claimed(Shared(counter, Some(Found(message, hash))), true)
    else Claimed(s.(counter := counter), false)
  }

  /** The `while` test: no result claimed yet, and the first
      `strlen(target)` characters of the last digest differ from the
      target.  For C strings that means the target is not a prefix of the
      digest. */
  function LoopContinues(found: Option<Found>, hash: seq<char>, target: seq<char>): (r: bool)
    ensures NulFree(hash) && NulFree(target) ==> (r <==> found.None? && !(target <= hash))
  {
    if NulFree(hash) && NulFree(target) then
      StrncmpPrefix(hash, target);
      found.None? && Strncmp(hash, target, |target|) != 0
    else
      found.None? && Strncmp(hash, target, |target|) != 0
  }

  /** What the search is given: the commit's raw header and message, the
      hex prefix wanted, and the digest function. */
  datatype Config = Config(header: seq<char>, base: seq<char>, target: seq<char>, sha1: seq<char> -> seq<char>)

  /** SHA-1 rendered as 40 lowercase hex characters. */
  ghost predicate ValidSha1(sha1: seq<char> -> seq<char>) {
    forall b :: |sha1(b)| == DIGEST_LEN && IsLowerHex(sha1(b))
  }

  /** The inputs are C strings, the candidate's content fits the four
      length digits the framing reserves, and the digest is SHA-1 shaped. */
  ghost predicate ValidConfig(cfg: Config) {
    && NulFree(cfg.header) && NulFree(cfg.base) && NulFree(cfg.target)
    && |cfg.header| + 1 + |cfg.base| + 1 + 2 * Candidate.SUFFIX_BYTES < 10000
    && ValidSha1(cfg.sha1)
  }

  /** The digest of a candidate: SHA-1 of its loose-object encoding. This
      is the encoding the corrected allocation hashes
      (`CommitObject.HashedBytes`); with the allocation as written, contents
      of 1000 to 9999 bytes read past the buffer instead. */
  function Digest(cfg: Config, message: seq<char>): (d: seq<char>)
    ensures ValidSha1(cfg.sha1) ==> |d| == DIGEST_LEN && IsLowerHex(d)
  {
    cfg.sha1(CommitObject.Frame(CommitObject.Content(cfg.header, message)))
  }

  /** The `compute_commit_hash` call at the end of an iteration: the bytes
      the buffer-level model measures (with the corrected allocation) are
      hashed, and that is the digest the search records for the message. */
  method ComputeCommitHash(cfg: Config, message: seq<char>) returns (d: seq<char>)
    requires ValidConfig(cfg) && Candidate.WellFormed(cfg.base, message)
    ensures d == Digest(cfg, message)
  {
    HexNulFree(message[|cfg.base| + 1..]);
    assert message == cfg.base + [message[|cfg.base|]] + message[|cfg.base| + 1..];
    var b := CommitObject.HashedBytes(cfg.header, message);
    d := cfg.sha1(b);
  }

  datatype Phase = Searching | Exited | Done(won: bool)

  /** One worker: where it is in `forge_thread`, its local batch, how many
      digests it has computed, and its candidate buffer and digest buffer
      as C strings. */
  datatype Worker = Worker(phase: Phase, batch: nat, hashed: nat, message: seq<char>, hash: seq<char>)

  datatype System = System(shared: Shared, workers: seq<Worker>)

  /** `Attempt`: one loop iteration (mutate, hash, count).  `Exit`: the loop
      test fails.  `Claim`: the final critical section. */
  datatype Event = Attempt(w: nat, rnd: seq<int>) | Exit(w: nat) | Claim(w: nat)

  /** The state `forge_commit_message` starts `n` workers in: counter 0, no
      result, each worker with the base message in its buffer and an empty
      (`calloc`ed) digest string, so every worker's buffers are consistent
      with its zero attempts. */
  function Init(cfg: Config, n: nat): (r: System)
    ensures r.shared == Shared(0, None) && |r.workers| == n
    ensures forall i :: 0 <= i < n ==>
      && r.workers[i].phase == Searching && r.workers[i].batch == 0
      && Consistent(cfg, r.workers[i].hashed, r.workers[i].message, r.workers[i].hash)
      && r.workers[i].hashed == 0
  {
    System(Shared(0, None), seq(n, _ => Worker(Searching, 0, 0, cfg.base, "")))
  }

  /** Which event worker `e.w` takes next.  A searching worker runs the
      loop test: with C-string buffers it takes another `Attempt` exactly
      while nothing is claimed and the target does not prefix its digest,
      and otherwise `Exit`s; an exited worker can only `Claim`. */
  predicate Enabled(cfg: Config, sys: System, e: Event): (r: bool)
    ensures r ==> e.w < |sys.workers|
    ensures e.w < |sys.workers| && e.Exit? && NulFree(cfg.target) && NulFree(sys.workers[e.w].hash) ==>
      (r <==> sys.workers[e.w].phase == Searching && (sys.shared.found.Some? || cfg.target <= sys.workers[e.w].hash))
    ensures e.w < |sys.workers| && e.Attempt? && NulFree(cfg.target) && NulFree(sys.workers[e.w].hash) ==>
      (r <==> && sys.workers[e.w].phase == Searching && sys.shared.found.None?
              && !(cfg.target <= sys.workers[e.w].hash) && Candidate.IsSuffixBytes(e.rnd))
  {
    && e.w < |sys.workers|
    && var wk := sys.workers[e.w];
    match e
    case Attempt(_, rnd) =>
      wk.phase == Searching && LoopContinues(sys.shared.found, wk.hash, cfg.target)
      && Candidate.IsSuffixBytes(rnd)
    case Exit(_) =>
      wk.phase == Searching && !LoopContinues(sys.shared.found, wk.hash, cfg.target)
    case Claim(_) =>
      wk.phase == Exited
  }

  /** One event of worker `e.w`.  No other worker changes; the counter
      never decreases; `found` is written only by a `Claim`, and only when
      it was empty.  An `Attempt` replaces the message by the candidate for
      its random bytes together with that candidate's digest and counts
      one more hash; `Exit` and `Claim` keep the buffers and the count. */
  function Step(cfg: Config, sys: System, e: Event): (r: System)
    requires Enabled(cfg, sys, e)
    ensures |r.workers| == |sys.workers|
    ensures forall i :: 0 <= i < |sys.workers| && i != e.w ==> r.workers[i] == sys.workers[i]
    ensures r.shared.counter >= sys.shared.counter
    ensures !e.Claim? || sys.shared.found.Some? ==> r.shared.found == sys.shared.found
    ensures e.Attempt? ==>
      && r.workers[e.w].phase == Searching
      && r.workers[e.w].message == Candidate.Candidate(cfg.base, e.rnd)
      && r.workers[e.w].hash == Digest(cfg, r.workers[e.w].message)
      && r.workers[e.w].hashed == sys.workers[e.w].hashed + 1
    ensures !e.Attempt? ==>
      && r.workers[e.w].message == sys.workers[e.w].message
      && r.workers[e.w].hash == sys.workers[e.w].hash
      && r.workers[e.w].hashed == sys.workers[e.w].hashed
    ensures e.Exit? ==> r.workers[e.w].phase == Exited && r.shared == sys.shared
    ensures e.Claim? ==>
      && r.workers[e.w].phase == Done(sys.shared.found.None?) && r.workers[e.w].batch == 0
      && r.shared.counter == sys.shared.counter + sys.workers[e.w].batch
      && (sys.shared.found.None? ==>
            r.shared.found == Some(Found(sys.workers[e.w].message, sys.workers[e.w].hash)))
  {
    var wk := sys.workers[e.w];
    match e
    case Attempt(w, rnd) =>
      var message := Candidate.Candidate(cfg.base, rnd);
      var c := CountAttempt(sys.shared, wk.batch);
      var wk' := Worker(Searching, c.batch, wk.hashed + 1, message, Digest(cfg, message));
      System(c.shared, sys.workers[w := wk'])
    case Exit(w) =>
      System(sys.shared, sys.workers[w := wk.(phase := Exited)])
    case Claim(w) =>
      var c := FinalFlushAndClaim(sys.shared, wk.batch, wk.message, wk.hash);
      System(c.shared, sys.workers[w := wk.(phase := Done(c.won), batch := 0)])
  }

  /** Runs a schedule; None when some event is not enabled when its turn comes. */
  function Run(cfg: Config, sys: System, es: seq<Event>): Option<System>
    decreases |es|
  {
    if |es| == 0 then Some(sys)
    else if Enabled(cfg, sys, es[0]) then Run(cfg, Step(cfg, sys, es[0]), es[1..])
    else None
  }

  // ---------------------------------------------------------------------
  // Sums over the workers

  function SumBatch(ws: seq<Worker>): nat {
    if |ws| == 0 then 0 else SumBatch(ws[..|ws| - 1]) + ws[|ws| - 1].batch
  }

  function SumHashed(ws: seq<Worker>): nat {
    if |ws| == 0 then 0 else SumHashed(ws[..|ws| - 1]) + ws[|ws| - 1].hashed
  }

  lemma {:induction false} SumUpdate(ws: seq<Worker>, i: nat, x: Worker)
    requires i < |ws|
    ensures SumBatch(ws[i := x]) == SumBatch(ws) - ws[i].batch + x.batch
    ensures SumHashed(ws[i := x]) == SumHashed(ws) - ws[i].hashed + x.hashed
    decreases |ws|
  {
    var ws' := ws[i := x];
    var n := |ws| - 1;
    if i < n {
      assert ws'[..n] == ws[..n][i := x];
      SumUpdate(ws[..n], i, x);
    } else {
      assert ws'[..n] == ws[..n];
    }
  }

  lemma {:induction false} SumHashedBound(ws: seq<Worker>, i: nat)
    requires i < |ws|
    ensures SumHashed(ws) >= ws[i].hashed
    decreases |ws|
  {
    if i < |ws| - 1 {
      SumHashedBound(ws[..|ws| - 1], i);
    }
  }

  lemma {:induction false} SumBatchZero(ws: seq<Worker>)
    requires forall i :: 0 <= i < |ws| ==> ws[i].batch == 0
    ensures SumBatch(ws) == 0
    decreases |ws|
  {
    if |ws| > 0 {
      SumBatchZero(ws[..|ws| - 1]);
    }
  }

  lemma {:induction false} InitSums(ws: seq<Worker>)
    requires forall i :: 0 <= i < |ws| ==> ws[i].batch == 0 && ws[i].hashed == 0
    ensures SumBatch(ws) == 0 && SumHashed(ws) == 0
    decreases |ws|
  {
    if |ws| > 0 {
      InitSums(ws[..|ws| - 1]);
    }
  }

  // ---------------------------------------------------------------------
  // The invariant

  /** The pairs a worker can hold: the base message with the empty digest
      string, or a well-formed candidate with its digest. */
  predicate Outcome(cfg: Config, message: seq<char>, hash: seq<char>) {
    || (message == cfg.base && hash == "")
    || (Candidate.WellFormed(cfg.base, message) && hash == Digest(cfg, message))
  }

  /** A worker's buffers: the untouched base message before its first
      iteration, afterwards a candidate, each with its matching digest. */
  predicate Consistent(cfg: Config, hashed: nat, message: seq<char>, hash: seq<char>) {
    Outcome(cfg, message, hash) && (hashed == 0 <==> message == cfg.base)
  }

  predicate Won(wk: Worker) {
    wk.phase == Done(true)
  }

  /** Every attempt is either in the shared counter or in exactly one
      worker's unflushed batch. */
  ghost predicate Accounted(sys: System) {
    && sys.shared.counter + SumBatch(sys.workers) == SumHashed(sys.workers)
    && (forall i :: 0 <= i < |sys.workers| ==> sys.workers[i].batch < MAX_BUFFER_COUNTER)
    && (forall i :: 0 <= i < |sys.workers| && sys.workers[i].phase.Done? ==> sys.workers[i].batch == 0)
    && ((forall i :: 0 <= i < |sys.workers| ==> !sys.workers[i].phase.Done?) ==>
          sys.shared.counter % MAX_BUFFER_COUNTER == 0)
  }

  /** Every worker's buffers are consistent; with an empty target no worker
      has hashed anything. */
  ghost predicate Buffers(cfg: Config, sys: System) {
    && (forall i :: 0 <= i < |sys.workers| ==>
          Consistent(cfg, sys.workers[i].hashed, sys.workers[i].message, sys.workers[i].hash))
    && (cfg.target == [] ==> forall i :: 0 <= i < |sys.workers| ==> sys.workers[i].hashed == 0)
  }

  /** A worker leaves its loop only once a result is claimed or its own
      digest matches; the claimed result is a consistent matching pair
      held by exactly one winner. */
  ghost predicate Claims(cfg: Config, sys: System) {
    && (forall i :: 0 <= i < |sys.workers| && sys.workers[i].phase == Exited ==>
          sys.shared.found.Some? || cfg.target <= sys.workers[i].hash)
    && (forall i :: 0 <= i < |sys.workers| && Won(sys.workers[i]) ==>
          sys.shared.found == Some(Found(sys.workers[i].message, sys.workers[i].hash)))
    && (forall i, j ::
          (0 <= i < |sys.workers| && 0 <= j < |sys.workers| && Won(sys.workers[i]) && Won(sys.workers[j]))
          ==> i == j)
    && (sys.shared.found.Some? ==> exists i :: 0 <= i < |sys.workers| && Won(sys.workers[i]))
    && (sys.shared.found.Some? ==>
          && cfg.target <= sys.shared.found.value.hash
          && Outcome(cfg, sys.shared.found.value.message, sys.shared.found.value.hash))
  }

  ghost predicate Inv(cfg: Config, sys: System) {
    Accounted(sys) && Buffers(cfg, sys) && Claims(cfg, sys)
  }

  // ---------------------------------------------------------------------
  // The invariant holds initially and is kept by every step

  /** The digest buffers a worker holds are C strings. */
  lemma OutcomeNulFree(cfg: Config, message: seq<char>, hash: seq<char>)
    requires ValidConfig(cfg) && Outcome(cfg, message, hash)
    ensures NulFree(hash)
    ensures hash == [] || |hash| == DIGEST_LEN
  {
    if hash != [] {
      HexNulFree(hash);
    }
  }

  lemma InitInv(cfg: Config, n: nat)
    requires ValidConfig(cfg)
    ensures Inv(cfg, Init(cfg, n))
  {
    InitSums(Init(cfg, n).workers);
  }

  /** Replacing one searching worker, where the shared counter plus that
      worker's batch grows by exactly its new attempts, keeps the
      accounting. */
  lemma UpdateKeepsAccounted(sys: System, w: nat, x: Worker, shared': Shared)
    requires Accounted(sys) && w < |sys.workers|
    requires sys.workers[w].phase == Searching && x.phase == Searching
    requires x.hashed >= sys.workers[w].hashed && x.batch < MAX_BUFFER_COUNTER
    requires shared'.counter + x.batch == sys.shared.counter + sys.workers[w].batch + (x.hashed - sys.workers[w].hashed)
    requires shared'.counter == sys.shared.counter || shared'.counter == sys.shared.counter + MAX_BUFFER_COUNTER
    ensures Accounted(System(shared', sys.workers[w := x]))
  {
    var sys' := System(shared', sys.workers[w := x]);
    SumUpdate(sys.workers, w, x);
    SamePhases(sys, sys');
    if shared'.counter != sys.shared.counter {
      WholeBatch(sys.shared.counter);
    }
  }

  /** Adding one whole batch keeps the counter's remainder. */
  lemma WholeBatch(n: nat)
    ensures (n + MAX_BUFFER_COUNTER) % MAX_BUFFER_COUNTER == n % MAX_BUFFER_COUNTER
  {
  }

  lemma AttemptKeepsAccounted(cfg: Config, sys: System, w: nat, rnd: seq<int>)
    requires Accounted(sys)
    requires Enabled(cfg, sys, Attempt(w, rnd))
    ensures Accounted(Step(cfg, sys, Attempt(w, rnd)))
  {
    var wk := sys.workers[w];
    var message := Candidate.Candidate(cfg.base, rnd);
    var c := CountAttempt(sys.shared, wk.batch);
    var x := Worker(Searching, c.batch, wk.hashed + 1, message, Digest(cfg, message));
    assert Step(cfg, sys, Attempt(w, rnd)) == System(c.shared, sys.workers[w := x]);
    UpdateKeepsAccounted(sys, w, x, c.shared);
  }

  /** When a step changes no worker's phase, "no worker has claimed yet"
      holds after it exactly when it held before. */
  lemma SamePhases(sys: System, sys': System)
    requires |sys'.workers| == |sys.workers|
    requires forall i :: 0 <= i < |sys.workers| ==> sys'.workers[i].phase == sys.workers[i].phase
    ensures (forall i :: 0 <= i < |sys'.workers| ==> !sys'.workers[i].phase.Done?)
        <==> (forall i :: 0 <= i < |sys.workers| ==> !sys.workers[i].phase.Done?)
  {
  }

  lemma AttemptKeepsBuffers(cfg: Config, sys: System, w: nat, rnd: seq<int>)
    requires ValidConfig(cfg) && Buffers(cfg, sys)
    requires Enabled(cfg, sys, Attempt(w, rnd))
    ensures Buffers(cfg, Step(cfg, sys, Attempt(w, rnd)))
  {
  }

  lemma AttemptKeepsClaims(cfg: Config, sys: System, w: nat, rnd: seq<int>)
    requires Claims(cfg, sys)
    requires Enabled(cfg, sys, Attempt(w, rnd))
    ensures Claims(cfg, Step(cfg, sys, Attempt(w, rnd)))
  {
  }

  lemma ExitKeepsAccounted(cfg: Config, sys: System, w: nat)
    requires Accounted(sys)
    requires Enabled(cfg, sys, Exit(w))
    ensures Accounted(Step(cfg, sys, Exit(w)))
  {
    SumUpdate(sys.workers, w, sys.workers[w].(phase := Exited));
    var sys' := Step(cfg, sys, Exit(w));
    if forall i :: 0 <= i < |sys'.workers| ==> !sys'.workers[i].phase.Done? {
      assert forall i :: 0 <= i < |sys.workers| ==> !sys.workers[i].phase.Done? by {
        forall i | 0 <= i < |sys.workers|
          ensures !sys.workers[i].phase.Done?
        {
          assert !sys'.workers[i].phase.Done?;
        }
      }
    }
  }

  lemma ExitKeepsClaims(cfg: Config, sys: System, w: nat)
    requires ValidConfig(cfg) && Buffers(cfg, sys) && Claims(cfg, sys)
    requires Enabled(cfg, sys, Exit(w))
    ensures Claims(cfg, Step(cfg, sys, Exit(w)))
  {
    var wk := sys.workers[w];
    var sys' := Step(cfg, sys, Exit(w));
    assert Outcome(cfg, wk.message, wk.hash);
    OutcomeNulFree(cfg, wk.message, wk.hash);
    if sys.shared.found.Some? {
      var i :| 0 <= i < |sys.workers| && Won(sys.workers[i]);
      assert Won(sys'.workers[i]);
    }
  }

  lemma ExitKeepsBuffers(cfg: Config, sys: System, w: nat)
    requires Buffers(cfg, sys)
    requires Enabled(cfg, sys, Exit(w))
    ensures Buffers(cfg, Step(cfg, sys, Exit(w)))
  {
    var sys' := Step(cfg, sys, Exit(w));
    assert forall i :: 0 <= i < |sys.workers| ==>
      sys'.workers[i].hashed == sys.workers[i].hashed
      && sys'.workers[i].message == sys.workers[i].message
      && sys'.workers[i].hash == sys.workers[i].hash;
  }

  lemma ClaimKeepsBuffers(cfg: Config, sys: System, w: nat)
    requires Buffers(cfg, sys)
    requires Enabled(cfg, sys, Claim(w))
    ensures Buffers(cfg, Step(cfg, sys, Claim(w)))
  {
    var sys' := Step(cfg, sys, Claim(w));
    assert forall i :: 0 <= i < |sys.workers| ==>
      sys'.workers[i].hashed == sys.workers[i].hashed
      && sys'.workers[i].message == sys.workers[i].message
      && sys'.workers[i].hash == sys.workers[i].hash;
  }

  lemma ClaimKeepsAccounted(cfg: Config, sys: System, w: nat)
    requires Accounted(sys)
    requires Enabled(cfg, sys, Claim(w))
    ensures Accounted(Step(cfg, sys, Claim(w)))
  {
    var wk := sys.workers[w];
    var c := FinalFlushAndClaim(sys.shared, wk.batch, wk.message, wk.hash);
    var sys' := Step(cfg, sys, Claim(w));
    SumUpdate(sys.workers, w, wk.(phase := Done(c.won), batch := 0));
    assert sys'.workers[w].phase.Done?;
  }

  lemma ClaimKeepsClaims(cfg: Config, sys: System, w: nat)
    requires Buffers(cfg, sys) && Claims(cfg, sys)
    requires Enabled(cfg, sys, Claim(w))
    ensures Claims(cfg, Step(cfg, sys, Claim(w)))
  {
    var wk := sys.workers[w];
    var sys' := Step(cfg, sys, Claim(w));
    assert Outcome(cfg, wk.message, wk.hash);
    if sys.shared.found.Some? {
      var i :| 0 <= i < |sys.workers| && Won(sys.workers[i]);
      assert Won(sys'.workers[i]);
    } else {
      assert Won(sys'.workers[w]);
    }
  }

  lemma StepKeepsInv(cfg: Config, sys: System, e: Event)
    requires ValidConfig(cfg) && Inv(cfg, sys)
    requires Enabled(cfg, sys, e)
    ensures Inv(cfg, Step(cfg, sys, e))
  {
    match e
    case Attempt(w, rnd) =>
      AttemptKeepsAccounted(cfg, sys, w, rnd);
      AttemptKeepsBuffers(cfg, sys, w, rnd);
      AttemptKeepsClaims(cfg, sys, w, rnd);
    case Exit(w) =>
      ExitKeepsAccounted(cfg, sys, w);
      ExitKeepsBuffers(cfg, sys, w);
      ExitKeepsClaims(cfg, sys, w);
    case Claim(w) =>
      ClaimKeepsAccounted(cfg, sys, w);
      ClaimKeepsBuffers(cfg, sys, w);
      ClaimKeepsClaims(cfg, sys, w);
  }

  /** Every schedule of the workers keeps the invariant. */
  lemma {:induction false} RunKeepsInv(cfg: Config, sys: System, es: seq<Event>)
    requires ValidConfig(cfg) && Inv(cfg, sys)
    ensures Run(cfg, sys, es).Some? ==> Inv(cfg, Run(cfg, sys, es).value)
    decreases |es|
  {
    if |es| > 0 && Enabled(cfg, sys, es[0]) {
      StepKeepsInv(cfg, sys, es[0]);
      RunKeepsInv(cfg, Step(cfg, sys, es[0]), es[1..]);
    }
  }

  /** Every state reachable from the start satisfies the invariant. */
  lemma Reachable(cfg: Config, n: nat, es: seq<Event>)
    requires ValidConfig(cfg)
    ensures Run(cfg, Init(cfg, n), es).Some? ==> Inv(cfg, Run(cfg, Init(cfg, n), es).value)
  {
    InitInv(cfg, n);
    RunKeepsInv(cfg, Init(cfg, n), es);
  }

  // ---------------------------------------------------------------------
  // Properties of every run

  /** One step never overwrites a claimed result and never lowers the
      shared counter. */
  lemma StepMonotone(cfg: Config, sys: System, e: Event)
    requires Enabled(cfg, sys, e)
    ensures sys.shared.found.Some? ==> Step(cfg, sys, e).shared.found == sys.shared.found
    ensures Step(cfg, sys, e).shared.counter >= sys.shared.counter
  {
  }

  /** Once a result is claimed it is never overwritten, and the shared
      counter never decreases, whatever the schedule. */
  lemma {:induction false} RunMonotone(cfg: Config, sys: System, es: seq<Event>)
    ensures Run(cfg, sys, es).Some? && sys.shared.found.Some? ==>
      Run(cfg, sys, es).value.shared.found == sys.shared.found
    ensures Run(cfg, sys, es).Some? ==> Run(cfg, sys, es).value.shared.counter >= sys.shared.counter
    decreases |es|
  {
    if |es| > 0 && Enabled(cfg, sys, es[0]) {
      StepMonotone(cfg, sys, es[0]);
      RunMonotone(cfg, Step(cfg, sys, es[0]), es[1..]);
    }
  }

  /** Once a result is claimed no worker starts another iteration: each
      one can only leave its loop. */
  lemma NoAttemptAfterClaim(cfg: Config, sys: System, w: nat, rnd: seq<int>)
    requires sys.shared.found.Some?
    ensures !Enabled(cfg, sys, Attempt(w, rnd))
    ensures w < |sys.workers| && sys.workers[w].phase == Searching ==> Enabled(cfg, sys, Exit(w))
  {
  }

  /** The claimed result is held by exactly one worker, and while nothing
      is claimed no worker has won. */
  lemma SingleWinner(cfg: Config, sys: System)
    requires Inv(cfg, sys)
    ensures sys.shared.found.None? ==> forall i :: 0 <= i < |sys.workers| ==> !Won(sys.workers[i])
    ensures sys.shared.found.Some? ==>
      exists i :: && 0 <= i < |sys.workers| && Won(sys.workers[i])
                  && sys.shared.found == Some(Found(sys.workers[i].message, sys.workers[i].hash))
                  && forall j :: 0 <= j < |sys.workers| && Won(sys.workers[j]) ==> j == i
  {
    if sys.shared.found.Some? {
      var i :| 0 <= i < |sys.workers| && Won(sys.workers[i]);
      assert forall j :: 0 <= j < |sys.workers| && Won(sys.workers[j]) ==> j == i;
    }
  }

  /** The claimed result matches: the target is a prefix of its digest.
      With a non-empty target it is a well-formed candidate and its digest
      is SHA-1 of the candidate's loose-object encoding. */
  lemma ResultMatches(cfg: Config, sys: System)
    requires ValidConfig(cfg) && Inv(cfg, sys)
    requires sys.shared.found.Some?
    ensures cfg.target <= sys.shared.found.value.hash
    ensures cfg.target != [] ==>
      && Candidate.WellFormed(cfg.base, sys.shared.found.value.message)
      && sys.shared.found.value.hash == Digest(cfg, sys.shared.found.value.message)
  {
  }

  /** With an empty target no worker ever hashes: the loop test fails at
      once and the base message, with the empty digest string, is what
      gets claimed. */
  lemma EmptyTargetClaimsBase(cfg: Config, sys: System)
    requires ValidConfig(cfg) && Inv(cfg, sys)
    requires cfg.target == [] && sys.shared.found.Some?
    ensures sys.shared.found.value == Found(cfg.base, "")
  {
    var i :| 0 <= i < |sys.workers| && Won(sys.workers[i]);
    assert sys.workers[i].hashed == 0;
  }

  /** A target longer than a digest can never match: nothing is ever
      claimed, so the search does not end. */
  lemma OverlongTargetNeverClaims(cfg: Config, sys: System)
    requires ValidConfig(cfg) && Inv(cfg, sys)
    requires |cfg.target| > DIGEST_LEN
    ensures sys.shared.found.None?
  {
    if sys.shared.found.Some? {
      var f := sys.shared.found.value;
      OutcomeNulFree(cfg, f.message, f.hash);
    }
  }

  /** Once every worker has passed its final critical section, the shared
      counter is exactly the number of digests computed, so at least as
      many as any single worker (the winner included) computed. */
  lemma CompletedCount(cfg: Config, sys: System)
    requires Inv(cfg, sys)
    requires forall i :: 0 <= i < |sys.workers| ==> sys.workers[i].phase.Done?
    ensures sys.shared.counter == SumHashed(sys.workers)
    ensures forall i :: 0 <= i < |sys.workers| ==> sys.shared.counter >= sys.workers[i].hashed
  {
    SumBatchZero(sys.workers);
    forall i | 0 <= i < |sys.workers|
      ensures sys.shared.counter >= sys.workers[i].hashed
    {
      SumHashedBound(sys.workers, i);
    }
  }

  /** Before any worker has claimed, the shared counter moves only in whole
      batches of `MAX_BUFFER_COUNTER`. */
  lemma CounterInWholeBatches(cfg: Config, sys: System)
    requires Inv(cfg, sys)
    requires forall i :: 0 <= i < |sys.workers| ==> !sys.workers[i].phase.Done?
    ensures sys.shared.counter % MAX_BUFFER_COUNTER == 0
  {
  }
}
