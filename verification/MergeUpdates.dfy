/** Concurrent clients of VeltrixDBYCSBClient.java: a merge update reads, then writes, and anything may
    happen in between. */
module MergeUpdates {
  import opened Bytes
  import opened Records
  import opened Ycsb

  /** A merge update between its read and its write: what it read and what it will patch in. */
  datatype Pending = Nothing | Pending(id: Id, values: Fields, snapshot: Option<bytes>)

  /** A write as one atomic change of the store: a whole merge update, or a blind write or delete. */
  datatype Change = Merge(id: Id, values: Fields) | Put(id: Id, data: bytes) | Remove(id: Id)

  datatype State = State(store: Store, threads: seq<Pending>, committed: seq<Change>)

  datatype Step =
    | Begin(t: nat, id: Id, values: Fields)   // the read of a merge update
    | Commit(t: nat)                          // its write
    | Abort(t: nat)                           // it fails without writing
    | Blind(change: Change)                   // another client's insert, overwrite update or delete

  predicate Enabled(s: State, step: Step) {
    match step
    case Begin(t, _, _) => t < |s.threads| && s.threads[t].Nothing?
    case Commit(t) => t < |s.threads| && s.threads[t].Pending?
    case Abort(t) => t < |s.threads| && s.threads[t].Pending?
    case Blind(change) => !change.Merge?
  }

  /** One change on its own, read and write together; a merge that raises changes nothing. */
  function Effect(store: Store, change: Change): Store {
    match change
    case Merge(id, values) =>
      (match MergedBytes(Lookup(store, id), values) case None => store case Some(b) => store[id := b])
    case Put(id, data) => store[id := data]
    case Remove(id) => store - {id}
  }

  /** An atomic change is what one uninterrupted call of the client does to the store. */
  lemma EffectIsCall(store: Store, id: Id, values: Fields)
    ensures Effect(store, Merge(id, values))
         == match OnBytes(store, Update(id, values, true)) case None => store case Some((after, _)) => after
    ensures Effect(store, Remove(id)) == OnBytes(store, Delete(id)).value.0
    ensures CopiedBytes(values).Some? ==>
              OnBytes(store, Insert(id, values))
              == Some((Effect(store, Put(id, CopiedBytes(values).value)), Response(OK, [])))
  {
  }

  function Serial(store: Store, changes: seq<Change>): Store {
    if changes == [] then store
    else Effect(Serial(store, changes[..|changes| - 1]), changes[|changes| - 1])
  }

  function Apply(s: State, step: Step): State
    requires Enabled(s, step)
  {
    match step
    case Begin(t, id, values) =>
      s.(threads := s.threads[t := Pending(id, values, Lookup(s.store, id))])
    case Commit(t) =>
      var p := s.threads[t];
      State(match MergedBytes(p.snapshot, p.values) case None => s.store case Some(b) => s.store[p.id := b],
            s.threads[t := Nothing], s.committed + [Merge(p.id, p.values)])
    case Abort(t) => s.(threads := s.threads[t := Nothing])
    case Blind(change) => s.(store := Effect(s.store, change), committed := s.committed + [change])
  }

  predicate Free(s: State, id: Id) {
    forall t :: 0 <= t < |s.threads| && s.threads[t].Pending? ==> s.threads[t].id != id
  }

  /** The step does not start on, or blindly write, a record some merge update is in the middle of. */
  predicate Apart(s: State, step: Step) {
    match step
    case Begin(_, id, _) => Free(s, id)
    case Blind(change) => Free(s, change.id)
    case _ => true
  }

  predicate Init(s: State) {
    s.committed == [] && forall t :: 0 <= t < |s.threads| ==> s.threads[t] == Nothing
  }

  predicate CanRun(s: State, steps: seq<Step>)
    decreases steps
  {
    steps == [] || (Enabled(s, steps[0]) && CanRun(Apply(s, steps[0]), steps[1..]))
  }

  function Run(s: State, steps: seq<Step>): State
    requires CanRun(s, steps)
    decreases steps
  {
    if steps == [] then s else Run(Apply(s, steps[0]), steps[1..])
  }

  predicate AllApart(s: State, steps: seq<Step>)
    requires CanRun(s, steps)
    decreases steps
  {
    steps == [] || (Apart(s, steps[0]) && AllApart(Apply(s, steps[0]), steps[1..]))
  }

  // ---------- Serializability ----------

  /** Updates in flight are on different records, and each would still read what it read. */
  ghost predicate Inv(initial: Store, s: State) {
    && s.store == Serial(initial, s.committed)
    && (forall t :: 0 <= t < |s.threads| && s.threads[t].Pending? ==>
          s.threads[t].snapshot == Lookup(s.store, s.threads[t].id))
    && (forall t, u :: 0 <= t < u < |s.threads| && s.threads[t].Pending? && s.threads[u].Pending? ==>
          s.threads[t].id != s.threads[u].id)
  }

  lemma SerialSnoc(store: Store, changes: seq<Change>, change: Change)
    ensures Serial(store, changes + [change]) == Effect(Serial(store, changes), change)
  {
    assert (changes + [change])[..|changes|] == changes;
  }

  /** A change touches no record but its own. */
  lemma EffectIsLocal(store: Store, change: Change, id: Id)
    requires id != change.id
    ensures Lookup(Effect(store, change), id) == Lookup(store, id)
  {
  }

  /** With the snapshot still current, the late write is the atomic change. */
  lemma StepKeepsInv(initial: Store, s: State, step: Step)
    requires Inv(initial, s) && Enabled(s, step) && Apart(s, step)
    ensures Inv(initial, Apply(s, step))
  {
    var s' := Apply(s, step);
    match step
    case Commit(t) =>
      var change := Merge(s.threads[t].id, s.threads[t].values);
      SerialSnoc(initial, s.committed, change);
      assert s'.store == Effect(s.store, change);
      forall u | 0 <= u < |s'.threads| && s'.threads[u].Pending?
        ensures s'.threads[u].snapshot == Lookup(s'.store, s'.threads[u].id)
      {
        EffectIsLocal(s.store, change, s'.threads[u].id);
      }
    case Blind(change) =>
      SerialSnoc(initial, s.committed, change);
      forall u | 0 <= u < |s'.threads| && s'.threads[u].Pending?
        ensures s'.threads[u].snapshot == Lookup(s'.store, s'.threads[u].id)
      {
        EffectIsLocal(s.store, change, s'.threads[u].id);
      }
    case _ =>
  }

  lemma {:induction false} RunKeepsInv(initial: Store, s: State, steps: seq<Step>)
    requires Inv(initial, s) && CanRun(s, steps) && AllApart(s, steps)
    ensures Inv(initial, Run(s, steps))
    decreases steps
  {
    if steps != [] {
      StepKeepsInv(initial, s, steps[0]);
      RunKeepsInv(initial, Apply(s, steps[0]), steps[1..]);
    }
  }

  /** If no two merge updates in flight share a record (and nobody blindly writes a record in flight),
      the store is the one the committed changes make one after another, in the order of their writes. */
  lemma {:induction false} RunsAreSerial(s: State, steps: seq<Step>)
    requires Init(s) && CanRun(s, steps) && AllApart(s, steps)
    ensures Run(s, steps).store == Serial(s.store, Run(s, steps).committed)
  {
    RunKeepsInv(s.store, s, steps);
  }

  // ---------- Exactly when ----------

  /** The record in these bytes, an absent one being empty; None if decoding raises. */
  function RecordIn(data: Option<bytes>): Option<Fields> {
    match data
    case None => Some([])
    case Some(b) => Decode(b, None, [])
  }

  /** The merge of thread t and the same merge on what is stored now both make records the format holds. */
  predicate CommitFits(s: State, t: nat)
    requires Enabled(s, Commit(t))
  {
    var p := s.threads[t];
    MergeFits(p.snapshot, p.values) && MergeFits(Lookup(s.store, p.id), p.values)
  }

  predicate MergeFits(data: Option<bytes>, values: Fields) {
    Distinct(values) && RecordIn(data).Some? && Fits(PutAll(RecordIn(data).value, values))
  }

  /** What thread t read and what is stored now agree on every field it does not supply, and lead to the
      same order of fields. */
  ghost predicate Harmless(s: State, t: nat)
    requires Enabled(s, Commit(t))
  {
    var p := s.threads[t];
    match (RecordIn(p.snapshot), RecordIn(Lookup(s.store, p.id)))
    case (Some(read), Some(now)) => MergesAgree(read, now, p.values)
    case _ => false
  }

  lemma MergedIs(data: Option<bytes>, values: Fields)
    requires MergeFits(data, values)
    ensures var m := PutAll(RecordIn(data).value, values);
            Distinct(RecordIn(data).value) && Distinct(m) && MergedBytes(data, values) == Some(Encode(m))
  {
    if data.Some? {
      DecodedShape(data.value);
    }
    PutAllDistinct(RecordIn(data).value, values);
  }

  lemma SameWrite(store: Store, id: Id, a: bytes, b: bytes)
    ensures store[id := a] == store[id := b] <==> a == b
  {
    assert store[id := a][id] == a && store[id := b][id] == b;
  }

  lemma CommitsTo(s: State, t: nat, data: bytes)
    requires Enabled(s, Commit(t))
    requires MergedBytes(s.threads[t].snapshot, s.threads[t].values) == Some(data)
    ensures Apply(s, Commit(t)).store == s.store[s.threads[t].id := data]
  {
  }

  /** A late write does what the whole merge would do now exactly when it is harmless. */
  lemma {:induction false} CommitIsAtomicExactly(s: State, t: nat)
    requires Enabled(s, Commit(t)) && CommitFits(s, t)
    ensures Apply(s, Commit(t)).store == Effect(s.store, Merge(s.threads[t].id, s.threads[t].values))
       <==> Harmless(s, t)
  {
    var p := s.threads[t];
    var current := Lookup(s.store, p.id);
    MergedIs(p.snapshot, p.values);
    MergedIs(current, p.values);
    var read, now := RecordIn(p.snapshot).value, RecordIn(current).value;
    CommitsTo(s, t, Encode(PutAll(read, p.values)));
    SameWrite(s.store, p.id, Encode(PutAll(read, p.values)), Encode(PutAll(now, p.values)));
    EncodeIsInjective(PutAll(read, p.values), PutAll(now, p.values));
    MergesAgreeExactly(read, now, p.values);
  }

  predicate AllCommitsFit(s: State, steps: seq<Step>)
    requires CanRun(s, steps)
    decreases steps
  {
    steps == []
    || ((steps[0].Commit? ==> CommitFits(s, steps[0].t)) && AllCommitsFit(Apply(s, steps[0]), steps[1..]))
  }

  ghost predicate AllHarmless(s: State, steps: seq<Step>)
    requires CanRun(s, steps)
    decreases steps
  {
    steps == []
    || ((steps[0].Commit? ==> Harmless(s, steps[0].t)) && AllHarmless(Apply(s, steps[0]), steps[1..]))
  }

  /** The store is that of the changes so far, made one after another. */
  predicate IsSerial(initial: Store, s: State) {
    s.store == Serial(initial, s.committed)
  }

  /** And stays so at every step of the run. */
  predicate StaysSerial(initial: Store, s: State, steps: seq<Step>)
    requires CanRun(s, steps)
    decreases steps
  {
    IsSerial(initial, s) && (steps == [] || StaysSerial(initial, Apply(s, steps[0]), steps[1..]))
  }

  lemma {:induction false} StepIsSerialExactly(initial: Store, s: State, step: Step)
    requires IsSerial(initial, s) && Enabled(s, step) && (step.Commit? ==> CommitFits(s, step.t))
    ensures IsSerial(initial, Apply(s, step)) <==> (step.Commit? ==> Harmless(s, step.t))
  {
    match step
    case Commit(t) =>
      SerialSnoc(initial, s.committed, Merge(s.threads[t].id, s.threads[t].values));
      CommitIsAtomicExactly(s, t);
    case Blind(change) =>
      SerialSnoc(initial, s.committed, change);
    case _ =>
  }

  /** A run of any number of clients is serial at every step, in the order of its writes, exactly when
      every late write of a merge update is harmless. */
  lemma {:induction false} RunsAreSerialExactly(initial: Store, s: State, steps: seq<Step>)
    requires IsSerial(initial, s) && CanRun(s, steps) && AllCommitsFit(s, steps)
    ensures StaysSerial(initial, s, steps) <==> AllHarmless(s, steps)
    decreases steps
  {
    if steps != [] {
      StepIsSerialExactly(initial, s, steps[0]);
      if IsSerial(initial, Apply(s, steps[0])) {
        RunsAreSerialExactly(initial, Apply(s, steps[0]), steps[1..]);
      }
    }
  }

  /** Runs that keep records in flight apart are such runs. */
  lemma {:induction false} ApartIsHarmless(initial: Store, s: State, steps: seq<Step>)
    requires Inv(initial, s) && CanRun(s, steps) && AllCommitsFit(s, steps) && AllApart(s, steps)
    ensures AllHarmless(s, steps)
    decreases steps
  {
    if steps != [] {
      StepKeepsInv(initial, s, steps[0]);
      ApartIsHarmless(initial, Apply(s, steps[0]), steps[1..]);
    }
  }

  lemma {:induction false} SerialAtTheEnd(initial: Store, s: State, steps: seq<Step>)
    requires CanRun(s, steps) && StaysSerial(initial, s, steps)
    ensures IsSerial(initial, Run(s, steps))
    decreases steps
  {
    if steps != [] {
      SerialAtTheEnd(initial, Apply(s, steps[0]), steps[1..]);
    }
  }

  // ---------- Without the condition ----------

  /** Two merge updates of different new fields of one new record, both reading before either writes. */
  function LostUpdateRun(id: Id, f: Field, g: Field): seq<Step> {
    [Begin(0, id, [f]), Begin(1, id, [g]), Commit(0), Commit(1)]
  }

  lemma EncodedSize(m: Fields)
    ensures |m| == 1 ==> |Encode(m)| == 8 + |m[0].name| + |m[0].value|
    ensures |m| == 2 ==> |Encode(m)| == 14 + |m[0].name| + |m[0].value| + |m[1].name| + |m[1].value|
  {
    SizeIsLength(m);
    if |m| > 0 {
      assert m[..0] == [] && m[..1][..0] == [];
      assert Size(m[..1]) == 8 + |m[0].name| + |m[0].value|;
      assert |m| == 1 ==> m[..1] == m;
    }
  }

  lemma PutAllOne(m: Fields, f: Field)
    ensures PutAll(m, [f]) == Records.Put(m, f)
  {
    assert [f][1..] == [];
  }

  /** The first update is lost: the run ends in a store no serial order of the two updates produces. */
  lemma {:induction false} LostUpdate(store: Store, id: Id, f: Field, g: Field)
    requires id !in store && f.name != g.name && Fits([f, g]) && Fits([g, f]) && Fits([f]) && Fits([g])
    ensures var s := State(store, [Nothing, Nothing], []);
            var steps := LostUpdateRun(id, f, g);
            && CanRun(s, steps) && !AllApart(s, steps)
            && Run(s, steps).store == store[id := Encode([g])]
            && Serial(store, [Merge(id, [f]), Merge(id, [g])]) == store[id := Encode([f, g])]
            && Serial(store, [Merge(id, [g]), Merge(id, [f])]) == store[id := Encode([g, f])]
            && Encode([g]) != Encode([f, g]) && Encode([g]) != Encode([g, f])
  {
    EncodedSize([g]);
    EncodedSize([f, g]);
    EncodedSize([g, f]);
    RunsLost(store, id, f, g);
    SerialPair(store, id, f, g);
    SerialPair(store, id, g, f);
  }

  lemma FreshMerge(store: Store, id: Id, f: Field)
    requires id !in store && Fits([f])
    ensures MergedBytes(Lookup(store, id), [f]) == Some(Encode([f]))
  {
    PutAllOne([], f);
  }

  lemma SerialPair(store: Store, id: Id, f: Field, g: Field)
    requires id !in store && f.name != g.name && Fits([f]) && Fits([f, g])
    ensures Serial(store, [Merge(id, [f]), Merge(id, [g])]) == store[id := Encode([f, g])]
  {
    FreshMerge(store, id, f);
    RoundTrips([f]);
    PutAllOne([f], g);
    assert Records.Put([f], g) == [f, g] by {
      assert [f][1..] == [];
    }
    var changes := [Merge(id, [f]), Merge(id, [g])];
    assert changes[..1] == [Merge(id, [f])];
    assert changes[..1][..0] == [];
    var s1 := store[id := Encode([f])];
    assert Serial(store, changes[..1]) == s1;
    assert Effect(s1, Merge(id, [g])) == s1[id := Encode([f, g])];
    Overwrite(store, id, Encode([f]), Encode([f, g]));
  }

  lemma Overwrite(store: Store, id: Id, a: bytes, b: bytes)
    ensures store[id := a][id := b] == store[id := b]
  {
  }

  lemma RunFirst(s: State, steps: seq<Step>, s': State, end: State)
    requires steps != [] && Enabled(s, steps[0]) && s' == Apply(s, steps[0])
    requires CanRun(s', steps[1..]) && Run(s', steps[1..]) == end
    ensures CanRun(s, steps) && Run(s, steps) == end
  {
  }

  lemma RunsLost(store: Store, id: Id, f: Field, g: Field)
    requires id !in store && Fits([f]) && Fits([g])
    ensures var s := State(store, [Nothing, Nothing], []);
            var steps := LostUpdateRun(id, f, g);
            CanRun(s, steps) && !AllApart(s, steps) && Run(s, steps).store == store[id := Encode([g])]
  {
    FreshMerge(store, id, f);
    FreshMerge(store, id, g);
    var steps := LostUpdateRun(id, f, g);
    var p, q := Pending(id, [f], None), Pending(id, [g], None);
    var a, b := store[id := Encode([f])], store[id := Encode([f])][id := Encode([g])];
    var s0 := State(store, [Nothing, Nothing], []);
    var s1 := State(store, [p, Nothing], []);
    var s2 := State(store, [p, q], []);
    var s3 := State(a, [Nothing, q], [Merge(id, [f])]);
    var s4 := State(b, [Nothing, Nothing], [Merge(id, [f]), Merge(id, [g])]);
    Suffixes(steps);
    RunFirst(s3, steps[3..], s4, s4);
    RunFirst(s2, steps[2..], s3, s4);
    RunFirst(s1, steps[1..], s2, s4);
    RunFirst(s0, steps, s1, s4);
    assert !Free(s1, id) by {
      assert s1.threads[0].Pending? && s1.threads[0].id == id;
    }
    assert !Apart(s1, steps[1..][0]);
    Overwrite(store, id, Encode([f]), Encode([g]));
  }

  lemma Suffixes<T>(xs: seq<T>)
    requires |xs| == 4
    ensures xs[1..][1..] == xs[2..] && xs[2..][1..] == xs[3..] && xs[3..][1..] == []
  {
  }
}
