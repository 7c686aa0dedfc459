/** dbbench/main.go: workers draw tickets from a shared atomic counter, operate on the store, keep
    per-thread statistics that are merged after the join, while background writers may linger. A state
    machine over the steps of all goroutines and over the whole list of benchmarks. */
module Dbbench {
  import opened Keys
  import opened Digests
  import opened BenchStats

  datatype Kind =
    | FillSeq | FillRandom | FillBatch   // overwrite runs FillRandom
    | ReadSeq | ReadRandom | ReadMissing | ReadWhileWriting
    | DeleteSeq | DeleteRandom
  {
    predicate Reads() { ReadSeq? || ReadRandom? || ReadMissing? || ReadWhileWriting? }
    predicate Deletes() { DeleteSeq? || DeleteRandom? }
    predicate Sequential() { FillSeq? || ReadSeq? || DeleteSeq? }
  }

  /** Where a worker is in its loop. */
  datatype Pc =
    | Drawing                    // about to take a ticket
    | Working(ticket: nat)       // about to operate for a ticket below the limit
    | Classifying(found: bool)   // operation recorded, found or notFound not yet
    | Done

  datatype Worker = Worker(pc: Pc, claimed: set<nat>, tally: Tally)

  /** owners is the history of the counter: which worker drew each ticket. before and after are what is
      stored when the benchmark starts and ends, quiet whether it starts without lingering writers, touched
      the indices its operations have put or deleted by its end. */
  datatype Bench = Bench(kind: Kind, counter: nat, owners: seq<nat>, workers: seq<Worker>,
                         before: set<string>, after: set<string>, quiet: bool, touched: set<nat>)

  datatype Config = Config(num: nat, threads: nat, batchSize: nat, timed: bool)

  /** touched: the indices put or deleted by the operations of the running benchmark. */
  datatype State = State(store: set<string>, writers: nat, touched: set<nat>, running: seq<Bench>, finished: seq<Bench>)

  datatype Step =
    | Start(kind: Kind)
    | Draw(w: nat, late: bool)
    | Operate(w: nat, index: nat, failed: bool, applied: bool, ns: int, payload: int)
    | PutBatch(w: nat, stored: set<nat>, failed: bool, ok: nat, ns: int, payload: int)
    | Classify(w: nat)
    | Finish
    | WriterPut(index: nat)
    | WriterStop

  predicate AllDone(ws: seq<Worker>) {
    forall w :: 0 <= w < |ws| ==> ws[w].pc.Done?
  }

  predicate ValidConfig(c: Config) {
    c.batchSize > 0
  }

  function Key(index: nat): string { FormatKey("key", index) }

  function KeysOf(indices: set<nat>): set<string> { set i <- indices :: Key(i) }

  /** Tickets below the limit are operations; for fillbatch a ticket is a whole batch. */
  function Limit(c: Config, kind: Kind): nat
    requires ValidConfig(c)
  {
    if kind.FillBatch? then (c.num + c.batchSize - 1) / c.batchSize else c.num
  }

  /** readwhilewriting reads with one thread less, but at least one. */
  function WorkerCount(c: Config, kind: Kind): nat {
    if kind.ReadWhileWriting? then (if c.threads > 1 then c.threads - 1 else 1) else c.threads
  }

  /** The key indices an operation for a ticket may use. */
  predicate InSpace(c: Config, kind: Kind, ticket: nat, index: nat) {
    if kind.Sequential() then index == ticket
    else if kind.ReadMissing? then c.num <= index < 2 * c.num
    else index < c.num
  }

  function Idle(): Worker { Worker(Drawing, {}, NoTally()) }

  predicate At(s: State, w: nat) {
    |s.running| == 1 && w < |s.running[0].workers|
  }

  predicate Enabled(c: Config, s: State, step: Step) {
    match step
    case Start(_) => s.running == []
    case Draw(w, _) => At(s, w) && s.running[0].workers[w].pc.Drawing?
    case Operate(w, index, failed, applied, _, _) =>
      && At(s, w) && s.running[0].workers[w].pc.Working?
      && !s.running[0].kind.FillBatch?
      && InSpace(c, s.running[0].kind, s.running[0].workers[w].pc.ticket, index)
      && (!failed ==> applied)
    case PutBatch(w, stored, _, ok, _, _) =>
      && At(s, w) && s.running[0].workers[w].pc.Working?
      && s.running[0].kind.FillBatch?
      && (forall i <- stored :: i < c.num) && ok <= c.batchSize
    case Classify(w) => At(s, w) && s.running[0].workers[w].pc.Classifying?
    case Finish => |s.running| == 1 && AllDone(s.running[0].workers)
    case WriterPut(index) => s.writers > 0 && index < c.num
    case WriterStop => s.writers > if |s.running| == 1 && s.running[0].kind.ReadWhileWriting? then 1 else 0
  }

  function Repeat(v: Tally, ns: int, payload: int, times: nat): Tally {
    if times == 0 then v else OpRecorded(Repeat(v, ns, payload, times - 1), ns, payload)
  }

  function DrawStep(c: Config, b: Bench, w: nat, late: bool): Bench
    requires ValidConfig(c) && w < |b.workers|
  {
    var v, worker := b.counter, b.workers[w];
    var worker' := if v >= Limit(c, b.kind) || (c.timed && late) then worker.(pc := Done)
                   else worker.(pc := Working(v), claimed := worker.claimed + {v});
    b.(counter := v + 1, owners := b.owners + [w], workers := b.workers[w := worker'])
  }

  /** The worker after one operation: error, or recorded and (for reads) still to be classified. */
  function Operated(kind: Kind, worker: Worker, found: bool, failed: bool, ns: int, payload: int): Worker {
    if failed then worker.(pc := Drawing, tally := worker.tally.(errors := worker.tally.errors + 1))
    else worker.(pc := if kind.Reads() then Classifying(found) else Drawing,
                 tally := OpRecorded(worker.tally, ns, payload))
  }

  function Batched(worker: Worker, failed: bool, ok: nat, ns: int, payload: int): Worker {
    if failed then worker.(pc := Drawing, tally := worker.tally.(errors := worker.tally.errors + 1))
    else worker.(pc := Drawing, tally := Repeat(worker.tally, ns, payload, ok))
  }

  function Classified(worker: Worker, found: bool): Worker {
    worker.(pc := Drawing,
            tally := if found then worker.tally.(found := worker.tally.found + 1)
                     else worker.tally.(notFound := worker.tally.notFound + 1))
  }

  function StoreAfter(kind: Kind, store: set<string>, index: nat, applied: bool): set<string> {
    if !applied || kind.Reads() then store
    else if kind.Deletes() then store - {Key(index)} else store + {Key(index)}
  }

  function WithWorker(s: State, w: nat, worker: Worker): State
    requires At(s, w)
  {
    s.(running := [s.running[0].(workers := s.running[0].workers[w := worker])])
  }

  function NewBench(c: Config, kind: Kind, s: State): Bench {
    Bench(kind, 0, [], seq(WorkerCount(c, kind), _ => Idle()), s.store, {}, s.writers == 0, {})
  }

  function Apply(c: Config, s: State, step: Step): State
    requires ValidConfig(c) && Enabled(c, s, step)
  {
    match step
    case Start(kind) =>
      s.(running := [NewBench(c, kind, s)], touched := {},
         writers := if kind.ReadWhileWriting? then s.writers + 1 else s.writers)
    case Draw(w, late) => s.(running := [DrawStep(c, s.running[0], w, late)])
    case Operate(w, index, failed, applied, ns, payload) =>
      var b := s.running[0];
      WithWorker(s, w, Operated(b.kind, b.workers[w], Key(index) in s.store, failed, ns, payload))
        .(store := StoreAfter(b.kind, s.store, index, applied),
          touched := if applied && !b.kind.Reads() then s.touched + {index} else s.touched)
    case PutBatch(w, stored, failed, ok, ns, payload) =>
      WithWorker(s, w, Batched(s.running[0].workers[w], failed, ok, ns, payload))
        .(store := s.store + KeysOf(stored), touched := s.touched + stored)
    case Classify(w) =>
      WithWorker(s, w, Classified(s.running[0].workers[w], s.running[0].workers[w].pc.found))
    case Finish => s.(running := [], finished := s.finished + [s.running[0].(after := s.store, touched := s.touched)])
    case WriterPut(index) => s.(store := s.store + {Key(index)})
    case WriterStop => s.(writers := s.writers - 1)
  }

  predicate Init(s: State) {
    s.store == {} && s.writers == 0 && s.running == [] && s.finished == []
  }

  ghost predicate Next(c: Config, s: State, s': State)
    requires ValidConfig(c)
  {
    exists step :: Enabled(c, s, step) && s' == Apply(c, s, step)
  }

  ghost predicate StepAt(c: Config, run: seq<State>, i: nat)
    requires ValidConfig(c)
  {
    0 < i < |run| ==> Next(c, run[i - 1], run[i])
  }

  ghost predicate IsRun(c: Config, run: seq<State>)
    requires ValidConfig(c)
  {
    run != [] && Init(run[0]) && forall i: nat :: StepAt(c, run, i)
  }

  // ---------- Sums over workers ----------

  /** Tickets a worker has used up or holds: operations, errors, the one being worked on, the last one. */
  function Used(worker: Worker): int {
    worker.tally.ops + worker.tally.errors + (if worker.pc.Working? || worker.pc.Done? then 1 else 0)
  }

  function UsedAll(ws: seq<Worker>): int {
    if ws == [] then 0 else UsedAll(ws[..|ws| - 1]) + Used(ws[|ws| - 1])
  }

  function DoneCount(ws: seq<Worker>): nat {
    if ws == [] then 0 else DoneCount(ws[..|ws| - 1]) + if ws[|ws| - 1].pc.Done? then 1 else 0
  }

  lemma {:induction false} SumsUpdate(ws: seq<Worker>, w: nat, worker: Worker)
    requires w < |ws|
    ensures UsedAll(ws[w := worker]) == UsedAll(ws) - Used(ws[w]) + Used(worker)
    ensures DoneCount(ws[w := worker])
         == DoneCount(ws) - (if ws[w].pc.Done? then 1 else 0) + (if worker.pc.Done? then 1 else 0)
  {
    var n := |ws| - 1;
    if w < n {
      SumsUpdate(ws[..n], w, worker);
      assert ws[w := worker][..n] == ws[..n][w := worker];
    } else {
      assert ws[w := worker][..n] == ws[..n];
    }
  }

  lemma {:induction false} SumsAtStart(n: nat)
    ensures UsedAll(seq(n, _ => Idle())) == 0 && DoneCount(seq(n, _ => Idle())) == 0
  {
    if n > 0 {
      assert seq(n, _ => Idle())[..n - 1] == seq(n - 1, _ => Idle());
      SumsAtStart(n - 1);
    }
  }

  function TalliesOf(ws: seq<Worker>): seq<Tally> {
    if ws == [] then [] else TalliesOf(ws[..|ws| - 1]) + [ws[|ws| - 1].tally]
  }

  /** The statistics runParallel returns. */
  function Report(b: Bench): Tally { TallyAll(TalliesOf(b.workers)) }

  // ---------- Invariants ----------

  /** A worker's own bookkeeping. */
  predicate WorkerOk(kind: Kind, worker: Worker) {
    var v := worker.tally;
    && v.ops == |v.samples| && v.errors >= 0
    && v.found + v.notFound + (if worker.pc.Classifying? then 1 else 0) == (if kind.Reads() then v.ops else 0)
    && (worker.pc.Classifying? ==> kind.Reads())
    && (worker.pc.Working? ==> worker.pc.ticket in worker.claimed)
    && (kind.ReadMissing? ==> v.found == 0 && (worker.pc.Classifying? ==> !worker.pc.found))
  }

  predicate Claims(b: Bench, w: nat, ticket: nat) {
    w < |b.workers| && ticket in b.workers[w].claimed
  }

  /** Tickets belong to whoever drew them. */
  ghost predicate ClaimsOk(c: Config, b: Bench)
    requires ValidConfig(c)
  {
    && |b.owners| == b.counter
    && (forall i :: 0 <= i < b.counter ==> b.owners[i] < |b.workers|)
    && (forall w: nat, i: nat :: Claims(b, w, i) ==> i < b.counter && i < Limit(c, b.kind) && b.owners[i] == w)
    && (!c.timed ==> forall i :: 0 <= i < b.counter && i < Limit(c, b.kind) ==> Claims(b, b.owners[i], i))
  }

  function Least(a: nat, b: nat): nat { if a < b then a else b }

  predicate CountsOk(c: Config, b: Bench)
    requires ValidConfig(c)
  {
    && (!b.kind.FillBatch? ==> UsedAll(b.workers) == b.counter)
    && (!c.timed ==> DoneCount(b.workers) == b.counter - Least(b.counter, Limit(c, b.kind)))
  }

  ghost predicate BenchOk(c: Config, b: Bench)
    requires ValidConfig(c)
  {
    && |b.workers| == WorkerCount(c, b.kind)
    && (forall w :: 0 <= w < |b.workers| ==> WorkerOk(b.kind, b.workers[w]))
    && ClaimsOk(c, b)
    && CountsOk(c, b)
  }

  /** Only keys with an index below num are ever stored. */
  ghost predicate StoreOk(c: Config, store: set<string>) {
    forall k <- store :: exists j: nat :: j < c.num && k == Key(j)
  }

  ghost predicate Inv(c: Config, s: State)
    requires ValidConfig(c)
  {
    && |s.running| <= 1
    && StoreOk(c, s.store)
    && (s.running != [] ==> BenchOk(c, s.running[0]))
    && (forall b <- s.finished :: BenchOk(c, b) && AllDone(b.workers))
  }

  lemma MissingIsMissing(c: Config, store: set<string>, index: nat)
    requires StoreOk(c, store) && index >= c.num
    ensures Key(index) !in store
  {
    if Key(index) in store {
      var j: nat :| j < c.num && Key(index) == Key(j);
      FormatKeyInjective("key", index, j);
    }
  }

  lemma {:induction false} RepeatKeeps(v: Tally, ns: int, payload: int, times: nat)
    requires v.ops == |v.samples|
    ensures var r := Repeat(v, ns, payload, times);
            r.ops == |r.samples| && r.found == v.found && r.notFound == v.notFound && r.errors == v.errors
  {
    if times > 0 {
      RepeatKeeps(v, ns, payload, times - 1);
    }
  }

  /** Replacing a worker by one that has used as many tickets and claimed the same keeps the bench. */
  lemma WorkerStep(c: Config, b: Bench, w: nat, worker: Worker)
    requires ValidConfig(c) && BenchOk(c, b) && w < |b.workers|
    requires WorkerOk(b.kind, worker) && worker.claimed == b.workers[w].claimed
    requires !worker.pc.Done? && !b.workers[w].pc.Done?
    requires !b.kind.FillBatch? ==> Used(worker) == Used(b.workers[w])
    ensures BenchOk(c, b.(workers := b.workers[w := worker]))
  {
    SumsUpdate(b.workers, w, worker);
    var b' := b.(workers := b.workers[w := worker]);
    assert forall u: nat, i: nat :: Claims(b', u, i) <==> Claims(b, u, i);
  }

  lemma DrawKeepsBench(c: Config, b: Bench, w: nat, late: bool)
    requires ValidConfig(c) && BenchOk(c, b) && w < |b.workers| && b.workers[w].pc.Drawing?
    ensures BenchOk(c, DrawStep(c, b, w, late))
  {
    var b' := DrawStep(c, b, w, late);
    assert WorkerOk(b.kind, b.workers[w]);
    SumsUpdate(b.workers, w, b'.workers[w]);
    DrawKeepsClaims(c, b, w, late);
  }

  lemma DrawKeepsClaims(c: Config, b: Bench, w: nat, late: bool)
    requires ValidConfig(c) && ClaimsOk(c, b) && w < |b.workers|
    ensures ClaimsOk(c, DrawStep(c, b, w, late))
  {
    var b' := DrawStep(c, b, w, late);
    var claims := !(b.counter >= Limit(c, b.kind) || (c.timed && late));
    assert forall u: nat, i: nat :: Claims(b', u, i) <==> Claims(b, u, i) || (claims && u == w && i == b.counter);
  }

  lemma StartKeepsBench(c: Config, kind: Kind, s: State)
    requires ValidConfig(c)
    ensures BenchOk(c, NewBench(c, kind, s))
  {
    SumsAtStart(WorkerCount(c, kind));
  }

  lemma OperateKeepsBench(c: Config, s: State, step: Step)
    requires ValidConfig(c) && Inv(c, s) && Enabled(c, s, step) && step.Operate?
    ensures var s' := Apply(c, s, step); s'.running != [] ==> BenchOk(c, s'.running[0])
  {
    var b := s.running[0];
    var worker := b.workers[step.w];
    assert WorkerOk(b.kind, worker);
    if b.kind.ReadMissing? {
      MissingIsMissing(c, s.store, step.index);
    }
    WorkerStep(c, b, step.w, Operated(b.kind, worker, Key(step.index) in s.store, step.failed, step.ns, step.payload));
  }

  lemma BatchKeepsBench(c: Config, s: State, step: Step)
    requires ValidConfig(c) && Inv(c, s) && Enabled(c, s, step) && step.PutBatch?
    ensures var s' := Apply(c, s, step); s'.running != [] ==> BenchOk(c, s'.running[0])
  {
    var b := s.running[0];
    var worker := b.workers[step.w];
    assert WorkerOk(b.kind, worker);
    RepeatKeeps(worker.tally, step.ns, step.payload, step.ok);
    WorkerStep(c, b, step.w, Batched(worker, step.failed, step.ok, step.ns, step.payload));
  }

  lemma BenchKept(c: Config, s: State, step: Step)
    requires ValidConfig(c) && Inv(c, s) && Enabled(c, s, step)
    ensures var s' := Apply(c, s, step); s'.running != [] ==> BenchOk(c, s'.running[0])
  {
    match step
    case Start(kind) => StartKeepsBench(c, kind, s);
    case Draw(w, late) => DrawKeepsBench(c, s.running[0], w, late);
    case Operate(_, _, _, _, _, _) => OperateKeepsBench(c, s, step);
    case PutBatch(_, _, _, _, _, _) => BatchKeepsBench(c, s, step);
    case Classify(w) =>
      var b := s.running[0];
      assert WorkerOk(b.kind, b.workers[w]);
      WorkerStep(c, b, w, Classified(b.workers[w], b.workers[w].pc.found));
    case _ =>
  }

  lemma StoreKept(c: Config, s: State, step: Step)
    requires ValidConfig(c) && Inv(c, s) && Enabled(c, s, step)
    ensures StoreOk(c, Apply(c, s, step).store)
  {
    match step
    case Operate(w, index, _, _, _, _) =>
      var worker := s.running[0].workers[w];
      assert WorkerOk(s.running[0].kind, worker);
      assert Claims(s.running[0], w, worker.pc.ticket);
    case _ =>
  }

  lemma AfterIsHistory(c: Config, b: Bench, store: set<string>, touched: set<nat>)
    requires ValidConfig(c) && BenchOk(c, b)
    ensures BenchOk(c, b.(after := store, touched := touched))
  {
    var b' := b.(after := store, touched := touched);
    assert forall w: nat, i: nat :: Claims(b', w, i) <==> Claims(b, w, i);
  }

  /** Every step of every goroutine keeps the invariant. */
  lemma {:induction false} StepKeepsInv(c: Config, s: State, s': State)
    requires ValidConfig(c) && Inv(c, s) && Next(c, s, s')
    ensures Inv(c, s')
  {
    var step :| Enabled(c, s, step) && s' == Apply(c, s, step);
    BenchKept(c, s, step);
    StoreKept(c, s, step);
    if step.Finish? {
      AfterIsHistory(c, s.running[0], s.store, s.touched);
    }
  }

  lemma {:induction false} RunKeepsInv(c: Config, run: seq<State>, i: nat)
    requires ValidConfig(c) && IsRun(c, run) && i < |run|
    ensures Inv(c, run[i])
  {
    if i > 0 {
      RunKeepsInv(c, run, i - 1);
      assert StepAt(c, run, i);
      StepKeepsInv(c, run[i - 1], run[i]);
    }
  }

  // ---------- Finished benchmarks ----------

  lemma {:induction false} SumsAtEnd(ws: seq<Worker>, kind: Kind)
    requires AllDone(ws) && forall w :: 0 <= w < |ws| ==> WorkerOk(kind, ws[w])
    ensures DoneCount(ws) == |ws|
    ensures var r := TallyAll(TalliesOf(ws));
            && r.ops + r.errors == UsedAll(ws) - |ws|
            && r.ops == |r.samples|
            && r.found + r.notFound == (if kind.Reads() then r.ops else 0)
            && (kind.ReadMissing? ==> r.found == 0)
  {
    if ws != [] {
      var n := |ws| - 1;
      assert WorkerOk(kind, ws[n]);
      SumsAtEnd(ws[..n], kind);
    }
  }

  /** How many tickets there are to draw: num, or for fillbatch just enough batches for num operations;
      and how many workers draw them: threads, of which readwhilewriting leaves one to its writer. */
  lemma {:induction false} LimitIs(c: Config, kind: Kind)
    requires ValidConfig(c)
    ensures !kind.FillBatch? ==> Limit(c, kind) == c.num
    ensures kind.FillBatch? ==> c.num <= Limit(c, kind) * c.batchSize < c.num + c.batchSize
    ensures !kind.ReadWhileWriting? ==> WorkerCount(c, kind) == c.threads
    ensures kind.ReadWhileWriting? ==>
              WorkerCount(c, kind) >= 1 && (c.threads >= 2 ==> WorkerCount(c, kind) + 1 == c.threads)
              && (c.threads < 2 ==> WorkerCount(c, kind) == 1)
  {
    if kind.FillBatch? {
      CeilDiv(c.num, c.batchSize, (c.num + c.batchSize - 1) / c.batchSize);
    }
  }

  lemma CeilDiv(n: nat, d: nat, q: nat)
    requires d > 0 && q == (n + d - 1) / d
    ensures n <= q * d < n + d
  {
    var m := n + d - 1;
    assert m == d * (m / d) + m % d;
    assert q * d == d * (m / d);
  }

  /** The index an operation uses: the sequential benchmarks go through 0..num, each claimed ticket being its
      own index; readmissing stays in num..2*num, the others in 0..num. */
  lemma {:induction false} OperationIndex(c: Config, s: State, step: Step)
    requires ValidConfig(c) && Inv(c, s) && Enabled(c, s, step) && step.Operate?
    ensures var b := s.running[0];
            && (b.kind.ReadMissing? ==> c.num <= step.index < 2 * c.num)
            && (!b.kind.ReadMissing? ==> step.index < c.num)
            && (b.kind.FillSeq? || b.kind.ReadSeq? || b.kind.DeleteSeq? ==>
                  b.workers[step.w].pc == Working(step.index) && Claims(b, step.w, step.index))
  {
    var b := s.running[0];
    assert WorkerOk(b.kind, b.workers[step.w]);
    assert Claims(b, step.w, b.workers[step.w].pc.ticket);
  }

  /** Right after an operation that reached the store its key is stored exactly if it was a put, and no
      other key is affected; a read, or an operation that did not reach the store, affects none. */
  lemma {:induction false} OperationTakesEffect(c: Config, s: State, step: Step, j: nat)
    requires ValidConfig(c) && Enabled(c, s, step) && step.Operate?
    ensures var kind, s' := s.running[0].kind, Apply(c, s, step);
            Key(j) in s'.store <==>
              if j == step.index && step.applied && (kind.FillSeq? || kind.FillRandom?) then true
              else if j == step.index && step.applied && (kind.DeleteSeq? || kind.DeleteRandom?) then false
              else Key(j) in s.store
  {
    if Key(j) == Key(step.index) {
      FormatKeyInjective("key", j, step.index);
    }
  }

  ghost predicate ClaimedOnce(b: Bench, ticket: nat) {
    exists w: nat :: Claims(b, w, ticket) && forall u: nat :: Claims(b, u, ticket) ==> u == w
  }

  /** In count mode, with any worker at all, every ticket below the limit is claimed by exactly one
      worker, no other ticket is, and the counter ends at the limit plus one last ticket for each worker. */
  lemma {:induction false} EveryTicketOnce(c: Config, run: seq<State>, i: nat, b: Bench)
    requires ValidConfig(c) && IsRun(c, run) && i < |run| && b in run[i].finished && !c.timed
    requires WorkerCount(c, b.kind) > 0
    ensures b.counter == Limit(c, b.kind) + WorkerCount(c, b.kind)
    ensures forall ticket: nat :: ticket < Limit(c, b.kind) <==> ClaimedOnce(b, ticket)
    ensures forall ticket: nat, w: nat :: Claims(b, w, ticket) ==> ticket < Limit(c, b.kind)
  {
    RunKeepsInv(c, run, i);
    assert BenchOk(c, b);
    SumsAtEnd(b.workers, b.kind);
    forall ticket: nat | ticket < Limit(c, b.kind) ensures ClaimedOnce(b, ticket) {
      assert Claims(b, b.owners[ticket], ticket);
    }
  }

  /** Also when workers stop early, no ticket is claimed twice. */
  lemma {:induction false} NoTicketTwice(c: Config, run: seq<State>, i: nat, b: Bench, w: nat, u: nat, ticket: nat)
    requires ValidConfig(c) && IsRun(c, run) && i < |run| && b in run[i].running + run[i].finished
    requires Claims(b, w, ticket) && Claims(b, u, ticket)
    ensures w == u
  {
    RunKeepsInv(c, run, i);
    assert BenchOk(c, b);
  }

  lemma TicketsUsed(c: Config, b: Bench)
    requires ValidConfig(c) && BenchOk(c, b) && DoneCount(b.workers) == |b.workers|
    ensures !b.kind.FillBatch? ==> UsedAll(b.workers) == b.counter
    ensures !b.kind.FillBatch? && !c.timed ==>
              (b.counter == c.num + WorkerCount(c, b.kind) <==> WorkerCount(c, b.kind) > 0 || c.num == 0)
  {
    assert b.counter > 0 ==> b.owners[0] < |b.workers|;
  }

  /** The merged statistics of a finished benchmark: an operation or an error for each ticket used, in
      count mode exactly num of them unless there is no worker to do any; one histogram sample for each
      operation, spread over the buckets; each successful read found or not found. */
  lemma {:induction false} CountsAreConserved(c: Config, run: seq<State>, i: nat, b: Bench)
    requires ValidConfig(c) && IsRun(c, run) && i < |run| && b in run[i].finished
    ensures var r := Report(b);
            && (!b.kind.FillBatch? ==> r.ops + r.errors == b.counter - WorkerCount(c, b.kind))
            && (!b.kind.FillBatch? && !c.timed ==>
                  (r.ops + r.errors == c.num <==> WorkerCount(c, b.kind) > 0 || c.num == 0))
            && r.ops == |r.samples| == DigestOf(r.samples).total
            && r.ops == Cumulative(DigestOf(r.samples).counts, BUCKETS)
            && r.found + r.notFound == (if b.kind.Reads() then r.ops else 0)
  {
    RunKeepsInv(c, run, i);
    assert BenchOk(c, b);
    SumsAtEnd(b.workers, b.kind);
    TicketsUsed(c, b);
    CountsSumToTotal(Report(b).samples);
  }

  /** readmissing never finds a key, whatever ran before it and whatever writers linger. */
  lemma {:induction false} MissingNeverFound(c: Config, run: seq<State>, i: nat, b: Bench)
    requires ValidConfig(c) && IsRun(c, run) && i < |run| && b in run[i].running + run[i].finished
    requires b.kind.ReadMissing?
    ensures forall w :: 0 <= w < |b.workers| ==> b.workers[w].tally.found == 0
    ensures b in run[i].finished ==> Report(b).found == 0 && Report(b).notFound == Report(b).ops
  {
    RunKeepsInv(c, run, i);
    assert BenchOk(c, b);
    forall w | 0 <= w < |b.workers| ensures b.workers[w].tally.found == 0 {
      assert WorkerOk(b.kind, b.workers[w]);
    }
    if b in run[i].finished {
      SumsAtEnd(b.workers, b.kind);
    }
  }
}
