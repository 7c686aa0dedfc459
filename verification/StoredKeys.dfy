/** What dbbench benchmarks leave in the store: fillseq loads every key, deleteseq removes every key, and
    reads after a load find everything. */
module StoredKeys {
  import opened Keys
  import opened BenchStats
  import opened Dbbench

  predicate Full(c: Config, store: set<string>) {
    forall j: nat :: j < c.num ==> Key(j) in store
  }

  /** The ticket's operation is over, and no operation of its worker has failed. */
  predicate Completed(b: Bench, w: nat, ticket: nat) {
    Claims(b, w, ticket) && b.workers[w].tally.errors == 0 && b.workers[w].pc != Working(ticket)
  }

  predicate AllFound(worker: Worker) {
    worker.tally.notFound == 0 && (worker.pc.Classifying? ==> worker.pc.found)
  }

  predicate FindsAll(c: Config, b: Bench) {
    b.kind.Reads() && !b.kind.ReadMissing? && Full(c, b.before)
  }

  /** The store against the progress of a benchmark. */
  ghost predicate Tracks(c: Config, b: Bench, store: set<string>) {
    && (!b.kind.Deletes() ==> b.before <= store)
    && (b.kind.FillSeq? ==> forall w: nat, i: nat :: Completed(b, w, i) ==> Key(i) in store)
    && (b.kind.DeleteSeq? && b.quiet ==> forall w: nat, i: nat :: Completed(b, w, i) ==> Key(i) !in store)
    && (FindsAll(c, b) ==> forall w :: 0 <= w < |b.workers| ==> AllFound(b.workers[w]))
  }

  /** A benchmark that no background writer disturbs. */
  predicate Undisturbed(b: Bench) {
    b.quiet && !b.kind.ReadWhileWriting?
  }

  /** Undisturbed fills have added exactly the keys they touched, deletes removed exactly those, and reads
      touched nothing; a writer can only have put more keys. */
  predicate NetEffect(b: Bench, store: set<string>, touched: set<nat>) {
    && (Undisturbed(b) ==> store == if b.kind.Deletes() then b.before - KeysOf(touched) else b.before + KeysOf(touched))
    && (!b.kind.Deletes() ==> b.before + KeysOf(touched) <= store)
    && (b.kind.Deletes() ==> b.before - KeysOf(touched) <= store)
    && (b.kind.Reads() ==> touched == {})
  }

  /** Between two benchmarks nothing is deleted. */
  predicate Chained(finished: seq<Bench>, next: set<string>) {
    && (forall k :: 0 <= k < |finished| - 1 ==> finished[k].after <= finished[k + 1].before)
    && (finished != [] ==> finished[|finished| - 1].after <= next)
  }

  /** What is or was stored at the start of the benchmark after the finished ones. */
  function NextBefore(s: State): set<string> {
    if s.running == [] then s.store else s.running[0].before
  }

  ghost predicate StoreInv(c: Config, s: State)
    requires ValidConfig(c)
  {
    && Inv(c, s)
    && (s.running != [] ==>
          Tracks(c, s.running[0], s.store)
          && (s.running[0].quiet && !s.running[0].kind.ReadWhileWriting? ==> s.writers == 0))
    && (s.running != [] ==> NetEffect(s.running[0], s.store, s.touched))
    && (forall b <- s.finished :: Tracks(c, b, b.after) && StoreOk(c, b.after) && NetEffect(b, b.after, b.touched))
    && Chained(s.finished, NextBefore(s))
  }

  // ---------- Steps ----------

  /** A worker moves on without completing a ticket. */
  lemma MoveTracks(c: Config, b: Bench, b': Bench, w: nat, worker: Worker, store: set<string>)
    requires Tracks(c, b, store) && w < |b.workers|
    requires b' == b.(workers := b.workers[w := worker], counter := b'.counter, owners := b'.owners)
    requires forall i: nat :: Completed(b', w, i) ==> Completed(b, w, i)
    requires FindsAll(c, b) ==> AllFound(worker)
    ensures Tracks(c, b', store)
  {
    assert forall u: nat, i: nat :: Completed(b', u, i) ==> Completed(b, u, i);
  }

  /** More keys in the store, and in fillseq perhaps one more ticket completed. */
  lemma GrowTracks(c: Config, b: Bench, store: set<string>, store': set<string>)
    requires Tracks(c, b, store) && store <= store' && !(b.kind.DeleteSeq? && b.quiet)
    ensures Tracks(c, b, store')
  {
  }

  lemma DrawTracks(c: Config, b: Bench, w: nat, late: bool, store: set<string>)
    requires ValidConfig(c) && BenchOk(c, b) && Tracks(c, b, store) && w < |b.workers| && b.workers[w].pc.Drawing?
    ensures Tracks(c, DrawStep(c, b, w, late), store)
  {
    var b' := DrawStep(c, b, w, late);
    forall i: nat | Completed(b', w, i) ensures Completed(b, w, i) {
      assert Claims(b', w, i);
    }
    assert FindsAll(c, b) ==> AllFound(b.workers[w]);
    MoveTracks(c, b, b', w, b'.workers[w], store);
  }

  lemma ClassifyTracks(c: Config, b: Bench, w: nat, store: set<string>)
    requires Tracks(c, b, store) && w < |b.workers| && b.workers[w].pc.Classifying?
    ensures Tracks(c, b.(workers := b.workers[w := Classified(b.workers[w], b.workers[w].pc.found)]), store)
  {
    var worker := Classified(b.workers[w], b.workers[w].pc.found);
    assert FindsAll(c, b) ==> AllFound(b.workers[w]);
    MoveTracks(c, b, b.(workers := b.workers[w := worker]), w, worker, store);
  }

  lemma BatchTracks(c: Config, b: Bench, w: nat, worker: Worker, store: set<string>, store': set<string>)
    requires Tracks(c, b, store) && w < |b.workers| && b.kind.FillBatch? && store <= store'
    ensures Tracks(c, b.(workers := b.workers[w := worker]), store')
  {
  }

  /** The operation of a worker, the worker afterwards and the store afterwards. */
  lemma OperateTracks(c: Config, b: Bench, w: nat, index: nat, failed: bool, applied: bool, ns: int, payload: int,
                      store: set<string>)
    requires ValidConfig(c) && BenchOk(c, b) && Tracks(c, b, store)
    requires w < |b.workers| && b.workers[w].pc.Working? && !b.kind.FillBatch?
    requires InSpace(c, b.kind, b.workers[w].pc.ticket, index) && (!failed ==> applied)
    ensures var worker := Operated(b.kind, b.workers[w], Key(index) in store, failed, ns, payload);
            Tracks(c, b.(workers := b.workers[w := worker]), StoreAfter(b.kind, store, index, applied))
  {
    var ticket := b.workers[w].pc.ticket;
    var worker := Operated(b.kind, b.workers[w], Key(index) in store, failed, ns, payload);
    var b' := b.(workers := b.workers[w := worker]);
    var store' := StoreAfter(b.kind, store, index, applied);
    assert WorkerOk(b.kind, b.workers[w]);
    assert Claims(b, w, ticket);
    forall u: nat, i: nat | Completed(b', u, i)
      ensures Completed(b, u, i) || (u == w && i == ticket && !failed)
    {
      assert Claims(b, u, i);
    }
  }

  lemma RunningTracks(c: Config, s: State, step: Step)
    requires ValidConfig(c) && StoreInv(c, s) && Enabled(c, s, step)
    ensures var s' := Apply(c, s, step); s'.running != [] ==> Tracks(c, s'.running[0], s'.store)
  {
    var s' := Apply(c, s, step);
    match step
    case Start(kind) =>
    case Draw(w, late) => DrawTracks(c, s.running[0], w, late, s.store);
    case Operate(w, index, failed, applied, ns, payload) =>
      OperateTracks(c, s.running[0], w, index, failed, applied, ns, payload, s.store);
    case PutBatch(w, stored, failed, ok, ns, payload) =>
      BatchTracks(c, s.running[0], w, s'.running[0].workers[w], s.store, s'.store);
    case Classify(w) =>
      ClassifyTracks(c, s.running[0], w, s.store);
    case Finish =>
    case WriterPut(index) =>
      if s.running != [] {
        GrowTracks(c, s.running[0], s.store, s'.store);
      }
    case WriterStop =>
  }

  lemma KeysAdd(touched: set<nat>, more: set<nat>)
    ensures KeysOf(touched + more) == KeysOf(touched) + KeysOf(more)
  {
  }

  lemma OperateNet(b: Bench, b': Bench, store: set<string>, touched: set<nat>, index: nat, applied: bool)
    requires NetEffect(b, store, touched) && !b.kind.FillBatch?
    requires b'.kind == b.kind && b'.before == b.before && b'.quiet == b.quiet
    ensures NetEffect(b', StoreAfter(b.kind, store, index, applied),
                      if applied && !b.kind.Reads() then touched + {index} else touched)
  {
    KeysAdd(touched, {index});
    assert KeysOf({index}) == {Key(index)};
  }

  lemma NetKept(c: Config, s: State, step: Step)
    requires ValidConfig(c) && StoreInv(c, s) && Enabled(c, s, step)
    ensures var s' := Apply(c, s, step); s'.running != [] ==> NetEffect(s'.running[0], s'.store, s'.touched)
  {
    var s' := Apply(c, s, step);
    match step
    case Start(kind) => assert KeysOf({}) == {};
    case Operate(_, index, _, applied, _, _) =>
      OperateNet(s.running[0], s'.running[0], s.store, s.touched, index, applied);
    case PutBatch(_, stored, _, _, _, _) => KeysAdd(s.touched, stored);
    case _ =>
  }

  lemma AfterTracks(c: Config, b: Bench, store: set<string>, touched: set<nat>)
    requires Tracks(c, b, store)
    ensures Tracks(c, b.(after := store, touched := touched), store)
  {
    var b' := b.(after := store, touched := touched);
    assert forall w: nat, i: nat :: Completed(b', w, i) <==> Completed(b, w, i);
  }

  lemma ChainKept(c: Config, s: State, step: Step)
    requires ValidConfig(c) && StoreInv(c, s) && Enabled(c, s, step)
    ensures Chained(Apply(c, s, step).finished, NextBefore(Apply(c, s, step)))
  {
    var s' := Apply(c, s, step);
    if step.Finish? {
      ChainSnoc(s.finished, s'.finished[|s.finished|]);
    } else {
      ChainGrows(s.finished, NextBefore(s), NextBefore(s'));
    }
  }

  lemma ChainGrows(finished: seq<Bench>, next: set<string>, next': set<string>)
    requires Chained(finished, next) && next <= next'
    ensures Chained(finished, next')
  {
  }

  lemma ChainSnoc(finished: seq<Bench>, b: Bench)
    requires Chained(finished, b.before)
    ensures Chained(finished + [b], b.after)
  {
  }

  /** Every step keeps the store in line with the progress of the benchmarks. */
  lemma {:induction false} StepKeepsStoreInv(c: Config, s: State, s': State)
    requires ValidConfig(c) && StoreInv(c, s) && Next(c, s, s')
    ensures StoreInv(c, s')
  {
    var step :| Enabled(c, s, step) && s' == Apply(c, s, step);
    StepKeepsInv(c, s, s');
    RunningTracks(c, s, step);
    NetKept(c, s, step);
    ChainKept(c, s, step);
    if step.Finish? {
      AfterTracks(c, s.running[0], s.store, s.touched);
    }
  }

  lemma {:induction false} RunKeepsStoreInv(c: Config, run: seq<State>, i: nat)
    requires ValidConfig(c) && IsRun(c, run) && i < |run|
    ensures StoreInv(c, run[i])
  {
    if i > 0 {
      RunKeepsStoreInv(c, run, i - 1);
      assert StepAt(c, run, i);
      StepKeepsStoreInv(c, run[i - 1], run[i]);
    }
  }

  // ---------- Finished benchmarks ----------

  lemma {:induction false} ErrorsAddUp(ws: seq<Worker>)
    requires forall w :: 0 <= w < |ws| ==> ws[w].tally.errors >= 0
    ensures TallyAll(TalliesOf(ws)).errors >= 0
    ensures TallyAll(TalliesOf(ws)).errors == 0 ==> forall w :: 0 <= w < |ws| ==> ws[w].tally.errors == 0
  {
    if ws != [] {
      ErrorsAddUp(ws[..|ws| - 1]);
    }
  }

  lemma {:induction false} NothingMissing(ws: seq<Worker>)
    requires forall w :: 0 <= w < |ws| ==> ws[w].tally.notFound == 0
    ensures TallyAll(TalliesOf(ws)).notFound == 0
  {
    if ws != [] {
      NothingMissing(ws[..|ws| - 1]);
    }
  }

  /** In a finished, error-free benchmark in count mode every ticket below num is completed. */
  lemma AllCompleted(c: Config, run: seq<State>, i: nat, b: Bench, ticket: nat) returns (w: nat)
    requires ValidConfig(c) && IsRun(c, run) && i < |run| && b in run[i].finished && !c.timed
    requires WorkerCount(c, b.kind) > 0 && Report(b).errors == 0 && !b.kind.FillBatch? && ticket < c.num
    ensures Completed(b, w, ticket)
  {
    RunKeepsInv(c, run, i);
    EveryTicketOnce(c, run, i, b);
    assert BenchOk(c, b) && ClaimedOnce(b, ticket);
    w :| Claims(b, w, ticket);
    forall u | 0 <= u < |b.workers| ensures b.workers[u].tally.errors >= 0 {
      assert WorkerOk(b.kind, b.workers[u]);
    }
    ErrorsAddUp(b.workers);
  }

  /** fillseq in count mode without errors leaves exactly the num keys stored, whatever else ran before
      and whatever writers linger. */
  lemma {:induction false} FillSeqLoadsAll(c: Config, run: seq<State>, i: nat, b: Bench)
    requires ValidConfig(c) && IsRun(c, run) && i < |run| && b in run[i].finished && !c.timed
    requires b.kind.FillSeq? && c.threads > 0 && Report(b).errors == 0
    ensures forall key :: key in b.after <==> exists j: nat :: j < c.num && key == Key(j)
  {
    RunKeepsStoreInv(c, run, i);
    assert Tracks(c, b, b.after) && StoreOk(c, b.after);
    forall j: nat | j < c.num ensures Key(j) in b.after {
      var w := AllCompleted(c, run, i, b, j);
    }
  }

  lemma NothingStored(c: Config, store: set<string>)
    requires StoreOk(c, store) && forall j: nat :: j < c.num ==> Key(j) !in store
    ensures store == {}
  {
  }

  /** deleteseq in count mode without errors, with no writer lingering, leaves nothing. */
  lemma {:induction false} DeleteSeqRemovesAll(c: Config, run: seq<State>, i: nat, b: Bench)
    requires ValidConfig(c) && IsRun(c, run) && i < |run| && b in run[i].finished && !c.timed
    requires b.kind.DeleteSeq? && c.threads > 0 && Report(b).errors == 0 && b.quiet
    ensures b.after == {}
  {
    RunKeepsStoreInv(c, run, i);
    assert Tracks(c, b, b.after) && StoreOk(c, b.after);
    forall j: nat | j < c.num ensures Key(j) !in b.after {
      var w := AllCompleted(c, run, i, b, j);
    }
    NothingStored(c, b.after);
  }

  lemma FullGrows(c: Config, store: set<string>, store': set<string>)
    requires store <= store' && forall key :: key in store <==> exists j: nat :: j < c.num && key == Key(j)
    ensures Full(c, store')
  {
    forall j: nat | j < c.num ensures Key(j) in store' {
      assert Key(j) in store;
    }
  }

  /** As long as no benchmark deletes, what was loaded stays loaded. */
  lemma {:induction false} LoadLasts(c: Config, s: State, k: nat, l: nat)
    requires ValidConfig(c) && StoreInv(c, s) && k < l < |s.finished|
    requires forall m :: k < m < l ==> !s.finished[m].kind.Deletes()
    ensures s.finished[k].after <= s.finished[l].before
    decreases l - k
  {
    assert s.finished[k].after <= s.finished[k + 1].before;
    if k + 1 < l {
      assert Tracks(c, s.finished[k + 1], s.finished[k + 1].after);
      LoadLasts(c, s, k + 1, l);
    }
  }

  lemma AllFoundReport(c: Config, b: Bench)
    requires Tracks(c, b, b.after) && FindsAll(c, b)
    ensures Report(b).notFound == 0
  {
    forall w | 0 <= w < |b.workers| ensures b.workers[w].tally.notFound == 0 {
      assert AllFound(b.workers[w]);
    }
    NothingMissing(b.workers);
  }

  /** Reads after such a load, with no deleting benchmark in between, find every key they ask for, with
      num between them. */
  lemma {:induction false} ReadsAfterLoadFindAll(c: Config, run: seq<State>, i: nat, k: nat, l: nat)
    requires ValidConfig(c) && IsRun(c, run) && i < |run| && !c.timed && c.threads > 0
    requires k < l < |run[i].finished|
    requires run[i].finished[k].kind.FillSeq? && Report(run[i].finished[k]).errors == 0
    requires forall m :: k < m < l ==> !run[i].finished[m].kind.Deletes()
    requires var kind := run[i].finished[l].kind; kind.Reads() && !kind.ReadMissing?
    ensures var r := Report(run[i].finished[l]); r.notFound == 0 && r.found == r.ops == c.num - r.errors
  {
    var load, b := run[i].finished[k], run[i].finished[l];
    RunKeepsStoreInv(c, run, i);
    FillSeqLoadsAll(c, run, i, load);
    LoadLasts(c, run[i], k, l);
    FullGrows(c, load.after, b.before);
    AllFoundReport(c, b);
    CountsAreConserved(c, run, i, b);
  }

  /** An undisturbed fill, random or batched ones included, leaves what was there and the keys it put, a
      delete what was there but the keys it deleted, a read what was there. */
  lemma {:induction false} StoreIsNetEffect(c: Config, run: seq<State>, i: nat, b: Bench, j: nat)
    requires ValidConfig(c) && IsRun(c, run) && i < |run| && b in run[i].finished
    requires b.quiet && !b.kind.ReadWhileWriting?
    ensures Key(j) in b.after <==>
              if j in b.touched then !b.kind.Deletes() else Key(j) in b.before
    ensures b.kind.Reads() ==> b.touched == {}
  {
    RunKeepsStoreInv(c, run, i);
    assert NetEffect(b, b.after, b.touched);
    if Key(j) in KeysOf(b.touched) {
      var k: nat :| k in b.touched && Key(j) == Key(k);
      FormatKeyInjective("key", j, k);
    }
  }
}
