/** Runs of PoolProtocol whose server is a map: the completed calls are linearizable. The server may
    refuse any request, single entries of a batch included, and answer ping and info with any text. */
module Linearizability {
  import opened Bytes
  import opened Wire
  import opened Replies
  import opened Client
  import opened PoolProtocol

  // ---------- A server that is a map ----------

  /** The whole request failed. NOT_FOUND is an answer to a single-key command. */
  predicate IsRefusal(op: Op, r: Reply) {
    r.Single? && r.status != OK && (op.Cmd? ==> r.status != NOT_FOUND)
  }

  predicate AnswersAsMap(store: Store, op: Op, r: Reply) {
    match (op, r)
    case (Cmd(cmd, key, _), Single(status, payload)) =>
      if cmd == GET then status == Lookup(store, key).status && (status == OK ==> payload == Lookup(store, key).value)
      else status == OK || (cmd == DEL && status == NOT_FOUND && key !in store)
    case (MultiPut(entries, _), Statuses(statuses)) => |statuses| == |entries|
    case (MultiGet(keys), Values(entries)) =>
      |entries| == |keys|
      && forall i :: 0 <= i < |keys| ==> EntryAnswers(store, keys[i], entries[i])
    case _ => false
  }

  /** An entry of an MGET reply is what is stored, or a failure of that key alone. */
  predicate EntryAnswers(store: Store, key: bytes, e: ValueEntry) {
    e == Lookup(store, key) || (e.status != OK && e.status != NOT_FOUND)
  }

  predicate Legal(store: Store, e: Served) {
    WellFormed(e.op, e.reply)
    && (IsRefusal(e.op, e.reply) || (!ShortOfTtls(e.op) && AnswersAsMap(store, e.op, e.reply)))
  }

  /** The entries whose status is OK, stored one after another. */
  function PutStored(store: Store, entries: seq<(bytes, bytes)>, statuses: bytes): Store
    decreases entries
  {
    if entries == [] || statuses == [] then store
    else PutStored(if statuses[0] == OK then store[entries[0].0 := entries[0].1] else store,
                   entries[1..], statuses[1..])
  }

  /** What an executed request does to the store, as its reply tells. */
  function Effect(store: Store, e: Served): Store {
    match (e.op, e.reply)
    case (Cmd(cmd, key, value), Single(status, _)) =>
      if status != OK then store
      else if cmd == PUT then store[key := value]
      else if cmd == DEL then store - {key}
      else store
    case (MultiPut(entries, _), Statuses(statuses)) => PutStored(store, entries, statuses)
    case _ => store
  }

  /** The store after executing a history one request at a time. */
  function Replay(store: Store, history: seq<Served>): Store {
    if history == [] then store
    else Effect(Replay(store, history[..|history| - 1]), history[|history| - 1])
  }

  /** Every answer is legal for the map at its place in the history. */
  ghost predicate IsMap(initial: Store, history: seq<Served>) {
    forall i :: 0 <= i < |history| ==> Legal(Replay(initial, history[..i]), history[i])
  }

  // ---------- What a call's result says about the store ----------

  /** What is stored under a key, None for an absent or an empty value. */
  function Visible(store: Store, key: bytes): Option<bytes> {
    if key in store && |store[key]| > 0 then Some(store[key]) else None
  }

  /** A failed call changed nothing. A get returned what is stored, a put or delete happened, a batch put
      stored exactly the entries it reports as stored, and a batch get returned, key by key, what is
      stored or None for a key that is absent, empty or failed. */
  ghost predicate Says(store: Store, op: Op, r: Result<Answer>, after: Store) {
    match (op, r)
    case (_, Raised(_)) => after == store
    case (Cmd(cmd, key, value), Ok(Payload(payload))) =>
      if cmd == GET then after == store && payload == Visible(store, key)
      else if cmd == PUT then after == store[key := value]
      else if cmd == DEL then after == store - {key}
      else after == store
    case (MultiPut(entries, _), Ok(EntryStatuses(statuses))) =>
      |statuses| == |entries| && forall key :: StoredIn(store, entries, statuses, key, after)
    case (MultiGet(keys), Ok(Payloads(values))) =>
      && after == store && |values| == |keys|
      && (forall i :: 0 <= i < |keys| ==> values[i] == None || values[i] == Visible(store, keys[i]))
    case _ => false
  }

  /** Position i holds the last stored entry for the key. */
  predicate LastFor(entries: seq<(bytes, bytes)>, statuses: seq<Option<byte>>, key: bytes, i: nat)
    requires |entries| == |statuses|
  {
    && i < |entries| && statuses[i] == None && entries[i].0 == key
    && forall j :: i < j < |entries| && statuses[j] == None ==> entries[j].0 != key
  }

  /** The key has the value of its last stored entry, or what it had if there is none. */
  ghost predicate StoredIn(store: Store, entries: seq<(bytes, bytes)>, statuses: seq<Option<byte>>, key: bytes,
                           after: Store)
    requires |entries| == |statuses|
  {
    && (forall i: nat :: LastFor(entries, statuses, key, i) ==> Lookup(after, key) == ValueEntry(OK, entries[i].1))
    && ((forall i: nat :: !LastFor(entries, statuses, key, i)) ==> Lookup(after, key) == Lookup(store, key))
  }

  lemma {:induction false} PutStoredSays(store: Store, entries: seq<(bytes, bytes)>, statuses: bytes, key: bytes)
    requires |entries| == |statuses|
    ensures StoredIn(store, entries, EntryStatusesOf(statuses), key, PutStored(store, entries, statuses))
    decreases entries
  {
    if entries != [] {
      var ss, rest := EntryStatusesOf(statuses), entries[1..];
      var store' := if statuses[0] == OK then store[entries[0].0 := entries[0].1] else store;
      PutStoredSays(store', rest, statuses[1..], key);
      assert ss[1..] == EntryStatusesOf(statuses[1..]);
      StoredNext(store, entries, ss, key, store', PutStored(store', rest, statuses[1..]));
    }
  }

  lemma StoredNext(store: Store, entries: seq<(bytes, bytes)>, ss: seq<Option<byte>>, key: bytes,
                   store': Store, after: Store)
    requires |entries| == |ss| > 0
    requires store' == if ss[0] == None then store[entries[0].0 := entries[0].1] else store
    requires StoredIn(store', entries[1..], ss[1..], key, after)
    ensures StoredIn(store, entries, ss, key, after)
  {
    forall i: nat ensures LastFor(entries[1..], ss[1..], key, i) <==> LastFor(entries, ss, key, i + 1) {
      LastNext(entries, ss, key, i);
    }
    FirstIsLast(entries, ss, key);
    if i: nat :| LastFor(entries, ss, key, i) && i > 0 {
      assert LastFor(entries[1..], ss[1..], key, i - 1);
    }
  }

  lemma LastNext(entries: seq<(bytes, bytes)>, ss: seq<Option<byte>>, key: bytes, i: nat)
    requires |entries| == |ss| > 0
    ensures LastFor(entries[1..], ss[1..], key, i) <==> LastFor(entries, ss, key, i + 1)
  {
    assert forall j :: 0 <= j < |entries| - 1 ==> entries[1..][j] == entries[j + 1] && ss[1..][j] == ss[j + 1];
    if LastFor(entries[1..], ss[1..], key, i) {
      forall j | i + 1 < j < |entries| && ss[j] == None ensures entries[j].0 != key {
        assert ss[1..][j - 1] == None;
      }
    }
  }

  /** The first entry is the last for its key when it is stored and no later one is for it. */
  lemma FirstIsLast(entries: seq<(bytes, bytes)>, ss: seq<Option<byte>>, key: bytes)
    requires |entries| == |ss| > 0
    ensures LastFor(entries, ss, key, 0) <==>
            ss[0] == None && entries[0].0 == key && forall i: nat :: i > 0 ==> !LastFor(entries, ss, key, i)
  {
    if ss[0] == None && entries[0].0 == key && !LastFor(entries, ss, key, 0) {
      var j :| 0 < j < |entries| && ss[j] == None && entries[j].0 == key;
      var i := LastOne(entries, ss, key, j);
    }
  }

  lemma {:induction false} LastOne(entries: seq<(bytes, bytes)>, ss: seq<Option<byte>>, key: bytes, i: nat)
    returns (k: nat)
    requires |entries| == |ss| && i < |entries| && ss[i] == None && entries[i].0 == key
    ensures k >= i && LastFor(entries, ss, key, k)
    decreases |entries| - i
  {
    if j :| i < j < |entries| && ss[j] == None && entries[j].0 == key {
      k := LastOne(entries, ss, key, j);
    } else {
      k := i;
    }
  }

  /** A legal answer makes the caller's result true of the store before and after. */
  lemma {:induction false} LegalAnswersSay(store: Store, e: Served)
    requires Legal(store, e)
    ensures Says(store, e.op, Expected(e.op, e.reply), Effect(store, e))
  {
    match (e.op, e.reply)
    case (MultiPut(entries, _), Statuses(statuses)) =>
      forall key ensures StoredIn(store, entries, EntryStatusesOf(statuses), key, Effect(store, e)) {
        PutStoredSays(store, entries, statuses, key);
      }
    case (MultiGet(keys), Values(entries)) =>
      forall i | 0 <= i < |keys|
        ensures ValuesOf(entries)[i] == None || ValuesOf(entries)[i] == Visible(store, keys[i])
      {
        assert EntryAnswers(store, keys[i], entries[i]);
      }
    case _ =>
  }

  // ---------- Linearizability ----------

  /** Every completed call took effect at one point, after it was sent and before it returned: its result
      is true of the store before and after that point when the requests are executed one at a time. */
  lemma {:induction false} CallsAreLinearizable(run: seq<State>, i: nat, initial: Store, e: Completed)
    requires IsRun(run) && i < |run| && e in run[i].log && IsMap(initial, run[i].history)
    ensures var h := run[i].history;
            && e.since <= e.at < |h| && h[e.at].op == e.op
            && Says(Replay(initial, h[..e.at]), e.op, e.result, Replay(initial, h[..e.at + 1]))
  {
    CallsGetTheirOwnReplies(run, i, e);
    var h := run[i].history;
    assert h[..e.at + 1][..e.at] == h[..e.at];
    LegalAnswersSay(Replay(initial, h[..e.at]), h[e.at]);
  }

  /** In particular a get that returns normally returns the value stored at its point, None standing for
      an absent or an empty one. */
  lemma {:induction false} GetsAreLinearizable(run: seq<State>, i: nat, initial: Store, e: Completed)
    requires IsRun(run) && i < |run| && e in run[i].log && IsMap(initial, run[i].history)
    requires e.op.Cmd? && e.op.cmd == GET && e.result.Ok?
    ensures e.at < |run[i].history|
    ensures e.result == Ok(Payload(Visible(Replay(initial, run[i].history[..e.at]), e.op.key)))
  {
    CallsAreLinearizable(run, i, initial, e);
  }

  // ---------- The plain map server is one ----------

  lemma {:induction false} AllStored(store: Store, entries: seq<(bytes, bytes)>, puts: seq<PutEntry>, n: nat)
    requires n == |entries| == |puts|
    requires forall i :: 0 <= i < n ==> puts[i].key == entries[i].0 && puts[i].value == entries[i].1
    ensures PutStored(store, entries, seq(n, _ => OK)) == PutAll(store, puts)
    decreases n
  {
    if n > 0 {
      AllStored(store[entries[0].0 := entries[0].1], entries[1..], puts[1..], n - 1);
      assert seq(n, _ => OK)[1..] == seq(n - 1, _ => OK);
    }
  }

  /** The server that always answers as the map says is legal and has the effect its reply tells. */
  lemma {:induction false} PlainServerIsLegal(store: Store, op: Op)
    requires StoreFits(store) && FrameOf(op).Some? && !ShortOfTtls(op)
    ensures var (after, reply) := Replies.Serve(store, RequestOf(op));
            Legal(store, Served(op, reply)) && Effect(store, Served(op, reply)) == after
  {
    if op.MultiPut? {
      AllStored(store, op.entries, RequestOf(op).entries, |op.entries|);
    }
  }
}
