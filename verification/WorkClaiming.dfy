/**
 The work-claiming protocol of native/src/ParallelRange.h as interleaved atomic steps: workers claim
 chunks from one shared counter, an exception stops further claims, and the calling thread joins every
 worker before it returns or rethrows.
 */
module WorkClaiming {
  import opened Arithmetic
  import opened Wrappers

  /** The range of `std::size_t`; the counter and the chunk computation wrap at it. */
  const SIZE_LIMIT: nat := 0x1_0000_0000_0000_0000

  datatype Config = Config(count: nat, grain: nat, workers: nat)

  /** ParallelRange's own setup: at least one item per chunk, at most one worker per chunk. */
  function Setup(count: nat, threads: nat, grain: nat): Config {
    var g := if grain < 1 then 1 else grain;
    var chunks := ((count + g - 1) % SIZE_LIMIT) / g;
    var wanted := if threads < chunks then threads else chunks;
    Config(count, g, if wanted < 1 then 1 else wanted)
  }

  /** A configuration that reaches the shared counter: one worker alone calls the function directly. */
  predicate Parallel(c: Config) {
    && 1 <= c.grain < SIZE_LIMIT && 1 <= c.count < SIZE_LIMIT
    && c.count + c.grain - 1 < SIZE_LIMIT
    && 2 <= c.workers <= Chunks(c)
  }

  function Chunks(c: Config): nat
    requires 1 <= c.grain
  {
    (c.count + c.grain - 1) / c.grain
  }

  /** Setup yields either one worker or a parallel configuration; overflow of the sum falls back to one. */
  lemma SetupIsParallel(count: nat, threads: nat, grain: nat)
    requires 0 < count < SIZE_LIMIT && grain < SIZE_LIMIT
    ensures Setup(count, threads, grain).workers == 1 || Parallel(Setup(count, threads, grain))
  {
    var g := if grain < 1 then 1 else grain;
    var total := count + g - 1;
    SizeModulo(total);
    if total >= SIZE_LIMIT {
      DivideSmall(total - SIZE_LIMIT, g);
    } else {
      WantedWorkers(threads, total / g, Setup(count, threads, grain).workers);
    }
  }

  /** What a sum of two sizes is modulo the limit. */
  lemma SizeModulo(total: nat)
    requires total < 2 * SIZE_LIMIT
    ensures total % SIZE_LIMIT == if total < SIZE_LIMIT then total else total - SIZE_LIMIT
  {}

  lemma WantedWorkers(threads: nat, chunks: nat, workers: nat)
    requires var wanted := if threads < chunks then threads else chunks; workers == if wanted < 1 then 1 else wanted
    ensures workers == 1 || 2 <= workers <= chunks
  {}

  lemma DivideSmall(a: nat, g: nat)
    requires a < g
    ensures a / g == 0
  {}

  lemma ChunkCount(count: nat, g: nat, workers: nat)
    requires 0 < g && 0 < count && 0 < workers
    ensures workers <= (count + g - 1) / g <==> (workers - 1) * g < count
  {
    CeilDiv(count, g, workers - 1);
    assert workers <= (count + g - 1) / g <==> !(workers - 1 >= (count + g - 1) / g);
  }

  /**
   The most workers that may start: no more than threads, and each with a first chunk of its own; one alone when the
   chunk arithmetic leaves the range of `size_t`.
   */
  lemma MostWorkers(count: nat, threads: nat, grain: nat)
    requires 0 < count < SIZE_LIMIT && grain < SIZE_LIMIT
    ensures var c := Setup(count, threads, grain);
        && c.count == count && (if grain == 0 then c.grain == 1 else c.grain == grain) && c.workers >= 1
        && (count + c.grain > SIZE_LIMIT ==> c.workers == 1)
        && (c.workers > 1 ==> c.workers <= threads && (c.workers - 1) * c.grain < count)
        && (count + c.grain <= SIZE_LIMIT && c.workers < threads ==> c.workers * c.grain >= count)
  {
    var g := if grain < 1 then 1 else grain;
    var total := count + g - 1;
    SizeModulo(total);
    var workers := Setup(count, threads, grain).workers;
    if total >= SIZE_LIMIT {
      DivideSmall(total - SIZE_LIMIT, g);
    } else {
      assert workers == (var wanted := if threads < total / g then threads else total / g;
                           if wanted < 1 then 1 else wanted);
      ChunkCount(count, g, workers);
      ChunkCount(count, g, workers + 1);
    }
  }

  /** Where one worker stands: before a claim, inside the function, after a caught exception, returned. */
  datatype Pc = Claiming | Running(begin: nat, end: nat) | Storing | Finished

  datatype Outcome = Pending | Returned | Rethrown(worker: nat)

  /**
   The shared counter, the workers, their error slots, the calls made so far in claim order, and the
   calling thread's progress: workers started, workers joined, and how the call ended.
   */
  datatype State = State(next: nat, pc: seq<Pc>, errors: seq<bool>, calls: seq<(nat, nat)>,
                         started: nat, joined: nat, outcome: Outcome)

  function Init(c: Config): State {
    State(0, seq(c.workers, _ => Claiming), seq(c.workers, _ => false), [], 1, 1, Pending)
  }

  /** Worker 0 is the calling thread, which drains only after it has started all the others. */
  predicate Active(c: Config, s: State, w: nat) {
    w < |s.pc| == c.workers && if w == 0 then s.started == c.workers else w < s.started
  }

  function MinNat(a: nat, b: nat): nat { if a < b then a else b }

  datatype Step = Start | Claim(w: nat) | Complete(w: nat) | Throw(w: nat) | Store(w: nat) | Join | End

  predicate Enabled(c: Config, s: State, t: Step) {
    s.outcome.Pending? && |s.pc| == |s.errors| == c.workers > 0 &&
    match t
    case Start => s.started < c.workers
    case Claim(w) => Active(c, s, w) && s.pc[w].Claiming?
    case Complete(w) => Active(c, s, w) && s.pc[w].Running?
    case Throw(w) => Active(c, s, w) && s.pc[w].Running?
    case Store(w) => Active(c, s, w) && s.pc[w].Storing?
    case Join => s.started == c.workers && s.pc[0].Finished? && s.joined < c.workers && s.pc[s.joined].Finished?
    case End => s.started == c.workers && s.pc[0].Finished? && s.joined == c.workers
  }

  /** The first worker whose error slot is set, as the final loop finds it. */
  function FirstError(errors: seq<bool>, from: nat): (r: Option<nat>)
    requires from <= |errors|
    ensures r.Some? ==> from <= r.value < |errors| && errors[r.value]
    ensures r.Some? ==> forall w :: from <= w < r.value ==> !errors[w]
    ensures r.None? ==> forall w :: from <= w < |errors| ==> !errors[w]
    decreases |errors| - from
  {
    if from == |errors| then None
    else if errors[from] then Some(from)
    else FirstError(errors, from + 1)
  }

  function Apply(c: Config, s: State, t: Step): State
    requires Enabled(c, s, t)
  {
    match t
    case Start => s.(started := s.started + 1)
    case Claim(w) =>
      var begin := s.next;
      var next := (s.next + c.grain) % SIZE_LIMIT;
      if begin >= c.count then
        s.(next := next, pc := s.pc[w := Finished])
      else
        var end := MinNat(c.count, begin + c.grain);
        s.(next := next, pc := s.pc[w := Running(begin, end)], calls := s.calls + [(begin, end)])
    case Complete(w) => s.(pc := s.pc[w := Claiming])
    case Throw(w) => s.(pc := s.pc[w := Storing], errors := s.errors[w := true])
    case Store(w) => s.(pc := s.pc[w := Finished], next := c.count)
    case Join => s.(joined := s.joined + 1)
    case End =>
      var e := FirstError(s.errors, 0);
      s.(outcome := if e.Some? then Rethrown(e.value) else Returned)
  }

  /** The state after the steps of `run`, in this order whoever takes them; None if one is not enabled. */
  function Exec(c: Config, run: seq<Step>): Option<State>
    decreases |run|
  {
    if run == [] then Some(Init(c))
    else
      var n := |run| - 1;
      var p := Exec(c, run[..n]);
      if p.Some? && Enabled(c, p.value, run[n]) then Some(Apply(c, p.value, run[n])) else None
  }

  // ----- the invariant -----

  function FinishedCount(pc: seq<Pc>): (n: nat)
    ensures n <= |pc|
  {
    if pc == [] then 0 else FinishedCount(pc[..|pc| - 1]) + if pc[|pc| - 1].Finished? then 1 else 0
  }

  lemma {:induction false} FinishedUpdate(pc: seq<Pc>, w: nat, p: Pc)
    requires w < |pc|
    ensures FinishedCount(pc[w := p])
         == FinishedCount(pc) - (if pc[w].Finished? then 1 else 0) + if p.Finished? then 1 else 0
  {
    var n := |pc| - 1;
    if w == n {
      assert pc[w := p][..n] == pc[..n];
    } else {
      assert pc[w := p][..n] == pc[..n][w := p];
      FinishedUpdate(pc[..n], w, p);
    }
  }

  lemma {:induction false} NotAllFinished(pc: seq<Pc>, w: nat)
    requires w < |pc| && !pc[w].Finished?
    ensures FinishedCount(pc) < |pc|
  {
    if w < |pc| - 1 {
      NotAllFinished(pc[..|pc| - 1], w);
    }
  }

  lemma {:induction false} SomeFinished(pc: seq<Pc>, w: nat)
    requires w < |pc| && pc[w].Finished?
    ensures FinishedCount(pc) > 0
  {
    if w < |pc| - 1 {
      SomeFinished(pc[..|pc| - 1], w);
    }
  }

  lemma {:induction false} AllFinished(pc: seq<Pc>)
    requires forall w :: 0 <= w < |pc| ==> pc[w].Finished?
    ensures FinishedCount(pc) == |pc|
  {
    if pc != [] {
      AllFinished(pc[..|pc| - 1]);
    }
  }

  function Chunk(c: Config, j: nat): (nat, nat)
    requires 1 <= c.grain
  {
    (j * c.grain, MinNat(c.count, j * c.grain + c.grain))
  }

  /** The counter values that can still be claimed stay below the limit. */
  predicate NoWrap(c: Config)
    requires 1 <= c.grain
  {
    (Chunks(c) + c.workers - 1) * c.grain < SIZE_LIMIT
  }

  ghost predicate NoErrors(s: State) {
    forall w :: 0 <= w < |s.errors| ==> !s.errors[w]
  }

  /** The claim log against the shared counter, when `finished` workers have returned. */
  ghost predicate CounterInv(c: Config, next: nat, calls: seq<(nat, nat)>, finished: nat, noErrors: bool)
    requires Parallel(c)
  {
    // calls are the first chunks, in order
    && |calls| <= Chunks(c)
    && (forall j :: 0 <= j < |calls| ==> calls[j] == Chunk(c, j))
    // until the last worker returns, the counter is exact and bounded
    && (finished < c.workers ==>
          && next <= (Chunks(c) + finished) * c.grain
          && (next < c.count ==> next == |calls| * c.grain))
    // without an error the counter reaches the end only when every chunk is out
    && (noErrors && ((finished < c.workers && next >= c.count) || finished > 0) ==> |calls| == Chunks(c))
  }

  ghost predicate Inv(c: Config, s: State)
    requires Parallel(c)
  {
    Progress(c, s) && CounterInv(c, s.next, s.calls, FinishedCount(s.pc), NoErrors(s))
  }

  /** Where the workers and the calling thread stand. */
  ghost predicate Progress(c: Config, s: State) {
    && |s.pc| == |s.errors| == c.workers
    && 1 <= s.started <= c.workers && 1 <= s.joined <= c.workers
    && (forall w :: 0 <= w < c.workers && s.pc[w].Storing? ==> s.errors[w])
    // inactive workers have done nothing, joined workers have returned
    && (forall w :: s.started <= w < c.workers ==> s.pc[w] == Claiming)
    && (s.started < c.workers ==> s.pc[0] == Claiming && s.joined == 1)
    && (s.joined > 1 ==> s.pc[0].Finished?)
    && (forall w :: 1 <= w < s.joined ==> s.pc[w].Finished?)
    && (!s.outcome.Pending? ==> s.joined == c.workers && s.pc[0].Finished?)
    && (s.outcome.Returned? ==> NoErrors(s))
    && (s.outcome.Rethrown? ==> s.outcome.worker < c.workers && s.errors[s.outcome.worker]
                                && forall w :: 0 <= w < s.outcome.worker ==> !s.errors[w])
  }

  /** The chunks cover the items: j * grain is inside the range exactly for the first Chunks(c) indices. */
  lemma ChunkCover(c: Config, j: nat)
    requires 1 <= c.grain
    ensures j * c.grain < c.count <==> j < Chunks(c)
    ensures Chunks(c) * c.grain <= c.count + c.grain - 1
  {
    var k := Chunks(c);
    assert k * c.grain <= c.count + c.grain - 1 < k * c.grain + c.grain;
    if j < k {
      MulMonotone(j, k, c.grain);
    } else {
      MulMonotone(k, j, c.grain);
    }
  }

  lemma InitInv(c: Config)
    requires Parallel(c)
    ensures Inv(c, Init(c))
  {
    NoneFinished(Init(c).pc);
  }

  lemma {:induction false} NoneFinished(pc: seq<Pc>)
    requires forall w :: 0 <= w < |pc| ==> !pc[w].Finished?
    ensures FinishedCount(pc) == 0
  {
    if pc != [] {
      NoneFinished(pc[..|pc| - 1]);
    }
  }

  /** A claim past the end: the worker returns, the counter has moved once more. */
  lemma LateClaim(c: Config, next: nat, calls: seq<(nat, nat)>, f: nat, noErrors: bool)
    requires Parallel(c) && NoWrap(c) && CounterInv(c, next, calls, f, noErrors) && f < c.workers && c.count <= next
    ensures CounterInv(c, (next + c.grain) % SIZE_LIMIT, calls, f + 1, noErrors)
  {
    hide Chunk, Chunks;
    if f + 1 < c.workers {
      LateRoom(Chunks(c), f, c.workers, c.grain, next);
      SizeModulo(next + c.grain);
    }
  }

  /** One more late claim stays below the limit that all of them stay below. */
  lemma LateRoom(k: nat, f: nat, workers: nat, g: nat, next: nat)
    requires f + 1 < workers && next <= (k + f) * g && (k + workers - 1) * g < SIZE_LIMIT
    ensures next + g <= (k + (f + 1)) * g < SIZE_LIMIT
  {
    MulMonotone(k + f + 1, k + workers - 1, g);
    MulMonotone(k + f, k + f + 1, g);
  }

  /** A claim inside the range: the next chunk is out. */
  lemma ChunkClaim(c: Config, next: nat, calls: seq<(nat, nat)>, f: nat, noErrors: bool)
    requires Parallel(c) && NoWrap(c) && CounterInv(c, next, calls, f, noErrors) && f < c.workers && next < c.count
    ensures CounterInv(c, (next + c.grain) % SIZE_LIMIT, calls + [(next, MinNat(c.count, next + c.grain))], f, noErrors)
  {
    var k, n := Chunks(c), |calls|;
    ChunkCover(c, n);
    ChunkCover(c, n + 1);
    NextChunk(k, n, c.workers, c.grain, next, f);
    SizeModulo(next + c.grain);
    hide Chunks;
  }

  /** Chunk n leaves the counter at n + 1 grains, within the bound of the claims. */
  lemma NextChunk(k: nat, n: nat, workers: nat, g: nat, next: nat, f: nat)
    requires n < k && next == n * g && workers > 0 && (k + workers - 1) * g < SIZE_LIMIT
    ensures next + g == (n + 1) * g <= (k + f) * g && (n + 1) * g < SIZE_LIMIT
  {
    MulMonotone(n + 1, k + workers - 1, g);
    MulMonotone(n + 1, k + f, g);
  }

  /** The counter half of a claim, in terms of the state. */
  lemma ClaimCounter(c: Config, s: State, w: nat)
    requires Parallel(c) && NoWrap(c) && Enabled(c, s, Claim(w))
    requires CounterInv(c, s.next, s.calls, FinishedCount(s.pc), NoErrors(s))
    ensures var s' := Apply(c, s, Claim(w)); CounterInv(c, s'.next, s'.calls, FinishedCount(s'.pc), NoErrors(s))
  {
    hide CounterInv, FinishedCount, NoErrors, NoWrap, Chunks;
    var s' := Apply(c, s, Claim(w));
    NotAllFinished(s.pc, w);
    FinishedUpdate(s.pc, w, s'.pc[w]);
    if s.next >= c.count {
      LateClaim(c, s.next, s.calls, FinishedCount(s.pc), NoErrors(s));
      assert s' == s.(next := (s.next + c.grain) % SIZE_LIMIT, pc := s'.pc);
    } else {
      ChunkClaim(c, s.next, s.calls, FinishedCount(s.pc), NoErrors(s));
    }
  }

  lemma ClaimInv(c: Config, s: State, w: nat)
    requires Parallel(c) && NoWrap(c) && Inv(c, s) && Enabled(c, s, Claim(w))
    ensures Inv(c, Apply(c, s, Claim(w)))
  {
    StepProgress(c, s, Claim(w));
    ClaimCounter(c, s, w);
    assert NoErrors(Apply(c, s, Claim(w))) == NoErrors(s);
  }

  lemma StoreInv(c: Config, s: State, w: nat)
    requires Parallel(c) && Inv(c, s) && Enabled(c, s, Store(w))
    ensures Inv(c, Apply(c, s, Store(w)))
  {
    StepProgress(c, s, Store(w));
    var f := FinishedCount(Apply(c, s, Store(w)).pc);
    FinishedUpdate(s.pc, w, Finished);
    ChunkCover(c, Chunks(c));
    MulMonotone(Chunks(c), Chunks(c) + f, c.grain);
  }

  lemma StepProgress(c: Config, s: State, t: Step)
    requires Progress(c, s) && Enabled(c, s, t)
    ensures Progress(c, Apply(c, s, t))
  {
    if t.Throw? {
      assert Apply(c, s, t).errors[t.w];
    }
  }

  lemma StepInv(c: Config, s: State, t: Step)
    requires Parallel(c) && NoWrap(c) && Inv(c, s) && Enabled(c, s, t)
    ensures Inv(c, Apply(c, s, t))
  {
    StepProgress(c, s, t);
    match t {
      case Claim(w) => ClaimInv(c, s, w);
      case Store(w) => StoreInv(c, s, w);
      case Complete(w) => FinishedUpdate(s.pc, w, Claiming);
      case Throw(w) =>
        FinishedUpdate(s.pc, w, Storing);
        assert Apply(c, s, t).errors[w];
      case Start =>
      case Join =>
      case End =>
    }
  }

  lemma {:induction false} ExecInv(c: Config, run: seq<Step>)
    requires Parallel(c) && NoWrap(c) && Exec(c, run).Some?
    ensures Inv(c, Exec(c, run).value)
    decreases |run|
  {
    if run == [] {
      InitInv(c);
    } else {
      var n := |run| - 1;
      ExecInv(c, run[..n]);
      StepInv(c, Exec(c, run[..n]).value, run[n]);
    }
  }

  // ----- what every run guarantees -----

  /** How often item i has been passed to the function. */
  function TimesPassed(calls: seq<(nat, nat)>, i: nat): nat {
    if calls == [] then 0
    else
      var n := |calls| - 1;
      TimesPassed(calls[..n], i) + if calls[n].0 <= i < calls[n].1 then 1 else 0
  }

  lemma {:induction false} ChunkTimes(c: Config, calls: seq<(nat, nat)>, i: nat)
    requires 1 <= c.grain && forall j :: 0 <= j < |calls| ==> calls[j] == Chunk(c, j)
    ensures TimesPassed(calls, i) == if i < c.count && i < |calls| * c.grain then 1 else 0
  {
    hide Chunk;
    if calls != [] {
      var n := |calls| - 1;
      ChunkTimes(c, calls[..n], i);
      assert calls[n] == Chunk(c, n);
      ChunkItems(c, n, i);
    }
  }

  /** The items of chunk n are those of the first n + 1 chunks that are not in the first n. */
  lemma ChunkItems(c: Config, n: nat, i: nat)
    requires 1 <= c.grain
    ensures Chunk(c, n).0 <= i < Chunk(c, n).1 <==> i < c.count && n * c.grain <= i < (n + 1) * c.grain
    ensures n * c.grain <= (n + 1) * c.grain
  {
    assert (n + 1) * c.grain == n * c.grain + c.grain;
  }

  /** No interleaving passes an item twice, or an item outside the range, whatever the workers throw. */
  lemma AtMostOnce(c: Config, run: seq<Step>, i: nat)
    requires Parallel(c) && NoWrap(c) && Exec(c, run).Some?
    ensures TimesPassed(Exec(c, run).value.calls, i) <= if i < c.count then 1 else 0
  {
    ExecInv(c, run);
    ChunkTimes(c, Exec(c, run).value.calls, i);
  }

  /**
   When the call has ended every worker has returned; it rethrows exactly when some worker threw,
   and when none did, every item of the range was passed exactly once.
   */
  lemma EndedCall(c: Config, run: seq<Step>)
    requires Parallel(c) && NoWrap(c) && Exec(c, run).Some? && !Exec(c, run).value.outcome.Pending?
    ensures var s := Exec(c, run).value;
        && (forall w :: 0 <= w < c.workers ==> s.pc[w].Finished?)
        && (s.outcome.Returned? <==> NoErrors(s))
        && (s.outcome.Returned? ==> forall i: nat :: i < c.count ==> TimesPassed(s.calls, i) == 1)
  {
    ExecInv(c, run);
    var s := Exec(c, run).value;
    SomeFinished(s.pc, 0);
    if s.outcome.Returned? {
      ChunkCover(c, Chunks(c));
      forall i: nat | i < c.count
        ensures TimesPassed(s.calls, i) == 1
      {
        ChunkTimes(c, s.calls, i);
      }
    }
  }

  /** A worker's error slot is set exactly when the function has thrown in that worker. */
  lemma {:induction false} SlotIffThrown(c: Config, run: seq<Step>, w: nat)
    requires Exec(c, run).Some? && w < c.workers
    ensures |Exec(c, run).value.errors| == c.workers
    ensures Exec(c, run).value.errors[w] <==> Throw(w) in run
    decreases |run|
  {
    if run != [] {
      var n := |run| - 1;
      SlotIffThrown(c, run[..n], w);
      assert run == run[..n] + [run[n]];
    }
  }

  /**
   How an ended call ends, in terms of the run alone: it returns exactly when the function never threw, and
   otherwise rethrows what the first worker that threw has stored.
   */
  lemma EndedByThrows(c: Config, run: seq<Step>)
    requires Parallel(c) && NoWrap(c) && Exec(c, run).Some? && !Exec(c, run).value.outcome.Pending?
    ensures var outcome := Exec(c, run).value.outcome;
        && (outcome.Returned? <==> forall w: nat :: w < c.workers ==> Throw(w) !in run)
        && (outcome.Rethrown? ==> outcome.worker < c.workers && Throw(outcome.worker) in run
                                  && forall w: nat :: w < outcome.worker ==> Throw(w) !in run)
  {
    EndedCall(c, run);
    ExecInv(c, run);
    hide Exec, Inv, CounterInv;
    forall w: nat | w < c.workers
      ensures |Exec(c, run).value.errors| == c.workers && (Exec(c, run).value.errors[w] <==> Throw(w) in run)
    {
      SlotIffThrown(c, run, w);
    }
  }

  /** While a worker may still claim, the counter has not passed the end by more than a chunk per returned worker. */
  lemma CounterBound(c: Config, run: seq<Step>)
    requires Parallel(c) && NoWrap(c) && Exec(c, run).Some?
    ensures var s := Exec(c, run).value;
        FinishedCount(s.pc) < c.workers ==>
          s.next <= c.count + c.grain - 1 + FinishedCount(s.pc) * c.grain
  {
    hide *;
    ExecInv(c, run);
    InvBound(c, Exec(c, run).value);
    BoundSplit(c, FinishedCount(Exec(c, run).value.pc));
  }

  lemma InvBound(c: Config, s: State)
    requires Parallel(c) && Inv(c, s)
    ensures 1 <= c.grain && |s.calls| <= Chunks(c)
    ensures FinishedCount(s.pc) < c.workers ==> s.next <= (Chunks(c) + FinishedCount(s.pc)) * c.grain
  {
    hide Chunks, Chunk, Progress, FinishedCount, NoErrors;
  }

  lemma BoundSplit(c: Config, f: nat)
    requires 1 <= c.grain
    ensures (Chunks(c) + f) * c.grain <= c.count + c.grain - 1 + f * c.grain
  {
    ChunkCover(c, 0);
    assert (Chunks(c) + f) * c.grain == Chunks(c) * c.grain + f * c.grain;
  }

  // ----- termination -----

  function Rank(p: Pc): nat {
    match p
    case Claiming => 2
    case Running(_, _) => 4
    case Storing => 1
    case Finished => 0
  }

  function RankSum(pc: seq<Pc>): nat {
    if pc == [] then 0 else RankSum(pc[..|pc| - 1]) + Rank(pc[|pc| - 1])
  }

  lemma {:induction false} RankUpdate(pc: seq<Pc>, w: nat, p: Pc)
    requires w < |pc|
    ensures RankSum(pc[w := p]) == RankSum(pc) - Rank(pc[w]) + Rank(p)
  {
    var n := |pc| - 1;
    if w == n {
      assert pc[w := p][..n] == pc[..n];
    } else {
      assert pc[w := p][..n] == pc[..n][w := p];
      RankUpdate(pc[..n], w, p);
    }
  }

  function Measure(c: Config, s: State): int
    requires 1 <= c.grain
  {
    3 * (Chunks(c) - |s.calls|) + RankSum(s.pc) + (c.workers - s.started) + (c.workers - s.joined)
    + if s.outcome.Pending? then 1 else 0
  }

  lemma StepDecreases(c: Config, s: State, t: Step)
    requires Parallel(c) && NoWrap(c) && Inv(c, s) && Enabled(c, s, t)
    ensures 0 <= Measure(c, Apply(c, s, t)) < Measure(c, s)
  {
    hide Chunks, CounterInv, NoWrap, NoErrors, FinishedCount, FirstError;
    StepInv(c, s, t);
    var s' := Apply(c, s, t);
    InvBound(c, s');
    InvProgress(c, s');
    hide Progress, Inv;
    if t.Claim? || t.Complete? || t.Throw? || t.Store? {
      RankUpdate(s.pc, t.w, s'.pc[t.w]);
    }
  }

  lemma InvProgress(c: Config, s: State)
    requires Parallel(c) && Inv(c, s)
    ensures s.started <= c.workers && s.joined <= c.workers && |s.pc| == |s.errors| == c.workers
  {
    hide CounterInv, NoErrors, FinishedCount;
  }

  /** Every run is finite: at most three steps a chunk and four a worker. */
  lemma {:induction false} RunsEnd(c: Config, run: seq<Step>)
    requires Parallel(c) && NoWrap(c) && Exec(c, run).Some?
    ensures |run| + Measure(c, Exec(c, run).value) <= 3 * Chunks(c) + 4 * c.workers - 1
    ensures Measure(c, Exec(c, run).value) >= 0
    decreases |run|
  {
    if run == [] {
      InitRank(c.workers);
    } else {
      var n := |run| - 1;
      RunsEnd(c, run[..n]);
      ExecInv(c, run[..n]);
      StepDecreases(c, Exec(c, run[..n]).value, run[n]);
    }
  }

  lemma {:induction false} InitRank(n: nat)
    ensures RankSum(seq(n, _ => Claiming)) == 2 * n
  {
    if n > 0 {
      assert seq(n, _ => Claiming)[..n - 1] == seq(n - 1, _ => Claiming);
      InitRank(n - 1);
    }
  }

  /** And no run gets stuck: until the call has ended some step is enabled. */
  lemma NoDeadlock(c: Config, run: seq<Step>)
    requires Parallel(c) && NoWrap(c) && Exec(c, run).Some? && Exec(c, run).value.outcome.Pending?
    ensures exists t :: Exec(c, run + [t]).Some?
  {
    ExecInv(c, run);
    var s := Exec(c, run).value;
    var w := if s.pc[0].Finished? && s.joined < c.workers then s.joined else 0;
    var t :=
      if s.started < c.workers then Start
      else match s.pc[w]
        case Claiming => Claim(w)
        case Running(_, _) => Complete(w)
        case Storing => Store(w)
        case Finished => if s.joined < c.workers then Join else End;
    assert Enabled(c, s, t);
    assert (run + [t])[..|run|] == run;
    assert Exec(c, run + [t]).Some?;
  }

  // ----- what happens when the counter can wrap -----

  lemma Extend(c: Config, run: seq<Step>, t: Step)
    requires Exec(c, run).Some? && Enabled(c, Exec(c, run).value, t)
    ensures Exec(c, run + [t]) == Some(Apply(c, Exec(c, run).value, t))
  {
    assert (run + [t])[..|run|] == run;
  }

  function FirstChunks(c: Config, j: nat): seq<(nat, nat)>
    requires 1 <= c.grain
  {
    seq(j, i requires 0 <= i < j => Chunk(c, i))
  }

  /** `j` workers have returned; everyone else waits to claim. */
  function Waiting(c: Config, next: nat, j: nat, calls: seq<(nat, nat)>): State {
    State(next, seq(c.workers, w => if w < j then Finished else Claiming), seq(c.workers, _ => false), calls,
          c.workers, 1, Pending)
  }

  lemma {:induction false} StartAll(c: Config, k: nat) returns (run: seq<Step>)
    requires Parallel(c) && k < c.workers
    ensures Exec(c, run) == Some(Init(c).(started := k + 1))
  {
    if k == 0 {
      run := [];
    } else {
      run := StartAll(c, k - 1);
      Extend(c, run, Start);
      run := run + [Start];
    }
  }

  function AfterChunks(c: Config, j: nat): State
    requires 1 <= c.grain
  {
    Waiting(c, j * c.grain, 0, FirstChunks(c, j))
  }

  /** The counter after chunk j, and the chunks handed out. */
  lemma ChunkNext(c: Config, j: nat)
    requires Parallel(c) && j < Chunks(c)
    ensures j * c.grain < c.count && (j * c.grain + c.grain) % SIZE_LIMIT == (j + 1) * c.grain
    ensures FirstChunks(c, j + 1) == FirstChunks(c, j) + [Chunk(c, j)]
  {
    ChunkCover(c, j);
    MulMonotone(j + 1, Chunks(c), c.grain);
    hide Chunks, Chunk;
    var next := j * c.grain + c.grain;
    assert (j + 1) * c.grain == next;
    SizeModulo(next);
  }

  /** Worker 0 claims and completes one chunk. */
  lemma ClaimAndComplete(c: Config, s: State, end: nat, next: nat)
    requires s.outcome.Pending? && |s.pc| == |s.errors| == c.workers == s.started > 0 && s.pc[0] == Claiming
    requires s.next < c.count && end == MinNat(c.count, s.next + c.grain) && next == (s.next + c.grain) % SIZE_LIMIT
    ensures Enabled(c, s, Claim(0)) && Enabled(c, Apply(c, s, Claim(0)), Complete(0))
    ensures Apply(c, Apply(c, s, Claim(0)), Complete(0)) == s.(next := next, calls := s.calls + [(s.next, end)])
  {
    var s' := Apply(c, Apply(c, s, Claim(0)), Complete(0));
    assert s'.pc == s.pc;
  }

  lemma ChunkStep(c: Config, j: nat)
    requires Parallel(c) && j < Chunks(c)
    ensures var s := AfterChunks(c, j);
        && Enabled(c, s, Claim(0)) && Enabled(c, Apply(c, s, Claim(0)), Complete(0))
        && Apply(c, Apply(c, s, Claim(0)), Complete(0)) == AfterChunks(c, j + 1)
  {
    hide Chunks, FirstChunks, Enabled, Apply, MinNat;
    var s := AfterChunks(c, j);
    ChunkNext(c, j);
    assert s.pc[0] == Claiming;
    ClaimAndComplete(c, s, Chunk(c, j).1, (j + 1) * c.grain);
  }

  /** Worker 0 alone runs the first j chunks. */
  lemma {:induction false} RunChunks(c: Config, j: nat) returns (run: seq<Step>)
    requires Parallel(c) && j <= Chunks(c)
    ensures Exec(c, run) == Some(AfterChunks(c, j))
  {
    if j == 0 {
      run := StartAll(c, c.workers - 1);
      assert Init(c).(started := c.workers) == AfterChunks(c, 0);
    } else {
      run := RunChunks(c, j - 1);
      ChunkStep(c, j - 1);
      Extend(c, run, Claim(0));
      Extend(c, run + [Claim(0)], Complete(0));
      run := run + [Claim(0)] + [Complete(0)];
    }
  }

  /** The first j workers have found the range exhausted. */
  function AfterReturns(c: Config, j: nat): State
    requires 1 <= c.grain
  {
    Waiting(c, (Chunks(c) + j) * c.grain, j, FirstChunks(c, Chunks(c)))
  }

  lemma ReturnStep(c: Config, j: nat)
    requires Parallel(c) && j < c.workers && (Chunks(c) + j + 1) * c.grain < SIZE_LIMIT
    ensures Enabled(c, AfterReturns(c, j), Claim(j))
    ensures Apply(c, AfterReturns(c, j), Claim(j)) == AfterReturns(c, j + 1)
  {
    ChunkCover(c, Chunks(c) + j);
    assert (Chunks(c) + j) * c.grain + c.grain == (Chunks(c) + (j + 1)) * c.grain;
    assert Apply(c, AfterReturns(c, j), Claim(j)).pc == AfterReturns(c, j + 1).pc;
  }

  /** After the chunks, the first j workers return. */
  lemma {:induction false} ReturnWorkers(c: Config, j: nat) returns (run: seq<Step>)
    requires Parallel(c) && j < c.workers && (Chunks(c) + j) * c.grain < SIZE_LIMIT
    ensures Exec(c, run) == Some(AfterReturns(c, j))
  {
    if j == 0 {
      run := RunChunks(c, Chunks(c));
    } else {
      MulMonotone(Chunks(c) + j - 1, Chunks(c) + j, c.grain);
      run := ReturnWorkers(c, j - 1);
      ReturnStep(c, j - 1);
      Extend(c, run, Claim(j - 1));
      run := run + [Claim(j - 1)];
    }
  }

  /** How many workers return before the counter wraps. */
  lemma {:induction false} FirstWrap(c: Config, w: nat) returns (j: nat)
    requires Parallel(c) && 0 < w < c.workers && (Chunks(c) + w) * c.grain >= SIZE_LIMIT
    ensures j < w && (Chunks(c) + j) * c.grain < SIZE_LIMIT <= (Chunks(c) + j + 1) * c.grain
  {
    ChunkCover(c, 0);
    if (Chunks(c) + w - 1) * c.grain < SIZE_LIMIT {
      j := w - 1;
    } else {
      j := FirstWrap(c, w - 1);
    }
  }

  lemma {:induction false} TimesAppend(calls: seq<(nat, nat)>, call: (nat, nat), i: nat)
    ensures TimesPassed(calls + [call], i) == TimesPassed(calls, i) + if call.0 <= i < call.1 then 1 else 0
  {
    assert (calls + [call])[..|calls|] == calls;
  }

  /** The claim that wraps the counter, and the claim after it. */
  lemma WrappingClaims(c: Config, j: nat) returns (i: nat)
    requires Parallel(c) && j + 1 < c.workers
    requires (Chunks(c) + j) * c.grain < SIZE_LIMIT <= (Chunks(c) + j + 1) * c.grain
    ensures i < c.grain < c.count
    ensures var s := AfterReturns(c, j);
        && Enabled(c, s, Claim(j)) && Enabled(c, Apply(c, s, Claim(j)), Claim(j + 1))
        && Apply(c, Apply(c, s, Claim(j)), Claim(j + 1)).calls == s.calls + [(i, MinNat(c.count, i + c.grain))]
  {
    ChunkCover(c, Chunks(c) + j);
    ChunkCover(c, 1);
    hide Chunks, FirstChunks, MinNat;
    i := Wrapped(Chunks(c) + j, c.grain);
    var s := AfterReturns(c, j);
    assert s.pc[j] == Claiming && s.pc[j + 1] == Claiming;
  }

  /** The value the counter wraps to. */
  lemma Wrapped(k: nat, g: nat) returns (i: nat)
    requires 0 < g < SIZE_LIMIT && k * g < SIZE_LIMIT <= (k + 1) * g
    ensures i < g && i == (k * g + g) % SIZE_LIMIT
  {
    assert (k + 1) * g == k * g + g;
    i := k * g + g - SIZE_LIMIT;
    SizeModulo(k * g + g);
  }

  /** Without room for the late claims the counter wraps to a small value and a chunk is handed out again. */
  lemma WrapRepeats(c: Config) returns (run: seq<Step>, i: nat)
    requires Parallel(c) && !NoWrap(c)
    ensures Exec(c, run).Some? && i < c.count && TimesPassed(Exec(c, run).value.calls, i) == 2
  {
    var j := FirstWrap(c, c.workers - 1);
    run := ReturnWorkers(c, j);
    i := WrappingClaims(c, j);
    Extend(c, run, Claim(j));
    Extend(c, run + [Claim(j)], Claim(j + 1));
    run := run + [Claim(j)] + [Claim(j + 1)];
    ChunkCover(c, Chunks(c));
    ChunkTimes(c, FirstChunks(c, Chunks(c)), i);
    TimesAppend(FirstChunks(c, Chunks(c)), (i, MinNat(c.count, i + c.grain)), i);
  }

  /** The protocol hands every item out at most once, in every interleaving, exactly when the counter has room. */
  lemma AtMostOnceIffNoWrap(c: Config)
    requires Parallel(c)
    ensures NoWrap(c) <==>
      forall run, i: nat :: Exec(c, run).Some? ==> TimesPassed(Exec(c, run).value.calls, i) <= 1
  {
    if NoWrap(c) {
      forall run, i: nat | Exec(c, run).Some?
        ensures TimesPassed(Exec(c, run).value.calls, i) <= 1
      {
        AtMostOnce(c, run, i);
      }
    } else {
      var run, i := WrapRepeats(c);
    }
  }

  /** One call that ParallelRange accepts and in which an item can be passed twice: three chunks, three threads. */
  lemma HugeChunksRepeat() returns (run: seq<Step>, i: nat)
    ensures var c := Setup(3 * 0x4000_0000_0000_0000, 3, 0x4000_0000_0000_0000);
      Parallel(c) && Exec(c, run).Some? && i < c.count && TimesPassed(Exec(c, run).value.calls, i) == 2
  {
    var c := Setup(3 * 0x4000_0000_0000_0000, 3, 0x4000_0000_0000_0000);
    assert c == Config(3 * 0x4000_0000_0000_0000, 0x4000_0000_0000_0000, 3);
    assert !NoWrap(c);
    run, i := WrapRepeats(c);
  }
}
