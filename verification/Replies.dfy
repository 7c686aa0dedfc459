/** Reply frames and the Python client's readers of them, as functions of the bytes that arrive
    (benchmarks/client.py), and a map-backed server to answer requests with. */
module Replies {
  import opened Bytes
  import opened Framing
  import opened Wire

  datatype Error =
    | PackError                      // a length or TTL outside its field; nothing is sent
    | ConnectionClosed
    | SocketFault                    // time-out, reset, or any other failure of the socket
    | ServerError(message: bytes)
    | BatchError
    | PoolExhausted

  datatype Result<+T> = Ok(value: T) | Raised(error: Error)

  /** What one client call asks for. */
  datatype Op =
    | Cmd(cmd: byte, key: bytes, value: bytes)
    | MultiPut(entries: seq<(bytes, bytes)>, ttls: Option<seq<int>>)
    | MultiGet(keys: seq<bytes>)

  /** What one client call returns. A per-entry status is None when the entry succeeded. */
  datatype Answer =
    | Payload(payload: Option<bytes>)
    | EntryStatuses(statuses: seq<Option<byte>>)
    | Payloads(payloads: seq<Option<bytes>>)

  datatype ValueEntry = ValueEntry(status: byte, value: bytes)

  datatype Reply =
    | Single(status: byte, payload: bytes)
    | Statuses(statuses: bytes)
    | Values(entries: seq<ValueEntry>)

  // ---------- Frames ----------

  function SingleFrame(status: byte, payload: bytes): bytes {
    [status] + LE(|payload|, 4) + payload
  }

  function ValueFrame(e: ValueEntry): bytes {
    SingleFrame(e.status, e.value)
  }

  function ReplyFrame(r: Reply): bytes {
    match r
    case Single(status, payload) => SingleFrame(status, payload)
    case Statuses(statuses) => SingleFrame(OK, statuses)
    case Values(entries) => [OK] + LE(|entries|, 4) + EncodeAll(ValueFrame, entries)
  }

  // ---------- Readers ----------
  // Each yields the call's result and the bytes left unread, or None while bytes are missing.

  function RespResult(status: byte, payload: bytes): Result<Option<bytes>> {
    if status == OK then Ok(if payload == [] then None else Some(payload))
    else if status == NOT_FOUND then Ok(None)
    else Raised(ServerError(payload))
  }

  function ReadResp(s: bytes): Option<(Result<Option<bytes>>, bytes)> {
    if |s| < 5 then None
    else
      var n := FromLE(s[1..5]);
      if |s| < 5 + n then None
      else Some((RespResult(s[0], s[5..5 + n]), s[5 + n..]))
  }

  function EntryStatus(status: byte): Option<byte> {
    if status == OK then None else Some(status)
  }

  function EntryStatusesOf(statuses: bytes): (r: seq<Option<byte>>)
    ensures |r| == |statuses|
    ensures forall i :: 0 <= i < |r| ==> r[i] == EntryStatus(statuses[i])
  {
    seq(|statuses|, i requires 0 <= i < |statuses| => EntryStatus(statuses[i]))
  }

  function ReadStatuses(s: bytes): Option<(Result<seq<Option<byte>>>, bytes)> {
    if |s| < 5 then None
    else if s[0] != OK then Some((Raised(BatchError), s[5..]))
    else
      var n := FromLE(s[1..5]);
      if |s| < 5 + n then None
      else Some((Ok(EntryStatusesOf(s[5..5 + n])), s[5 + n..]))
  }

  /** One entry of an MGET reply. The value bytes are read only for status OK. */
  function ReadEntry(s: bytes): Option<(Option<bytes>, bytes)> {
    if |s| < 5 then None
    else
      var n := FromLE(s[1..5]);
      if s[0] != OK || n == 0 then Some((None, s[5..]))
      else if |s| < 5 + n then None
      else Some((Some(s[5..5 + n]), s[5 + n..]))
  }

  function ReadValues(s: bytes): Option<(Result<seq<Option<bytes>>>, bytes)> {
    if |s| < 5 then None
    else if s[0] != OK then Some((Raised(BatchError), s[5..]))
    else match ParseN(ReadEntry, FromLE(s[1..5]), s[5..])
      case None => None
      case Some((values, rest)) => Some((Ok(values), rest))
  }

  function Lift<T>(f: T -> Answer, r: Option<(Result<T>, bytes)>): Option<(Result<Answer>, bytes)> {
    match r
    case None => None
    case Some((Ok(v), rest)) => Some((Ok(f(v)), rest))
    case Some((Raised(e), rest)) => Some((Raised(e), rest))
  }

  /** The reader each operation uses. */
  function Read(op: Op, s: bytes): Option<(Result<Answer>, bytes)> {
    match op
    case Cmd(_, _, _) => Lift(v => Payload(v), ReadResp(s))
    case MultiPut(_, _) => Lift(v => EntryStatuses(v), ReadStatuses(s))
    case MultiGet(_) => Lift(v => Payloads(v), ReadValues(s))
  }

  // ---------- What the readers make of a well-formed reply ----------

  function ValueOf(e: ValueEntry): Option<bytes> {
    if e.status == OK && e.value != [] then Some(e.value) else None
  }

  function ValuesOf(entries: seq<ValueEntry>): (r: seq<Option<bytes>>)
    ensures |r| == |entries|
    ensures forall i :: 0 <= i < |r| ==> r[i] == ValueOf(entries[i])
  {
    seq(|entries|, i requires 0 <= i < |entries| => ValueOf(entries[i]))
  }

  /** A failed MGET entry carries no value bytes. */
  predicate Clean(e: ValueEntry) {
    e.status == OK || e.value == []
  }

  predicate EntriesFit(entries: seq<ValueEntry>) {
    |entries| < 4294967296 && forall e <- entries :: |e.value| < 4294967296
  }

  /** The replies the documented protocol allows for an operation. */
  predicate WellFormed(op: Op, r: Reply) {
    match (op, r)
    case (Cmd(_, _, _), Single(_, payload)) => |payload| < 4294967296
    case (MultiPut(_, _), Single(status, payload)) => status != OK && |payload| < 4294967296
    case (MultiPut(_, _), Statuses(statuses)) => |statuses| < 4294967296
    case (MultiGet(_), Single(status, payload)) => status != OK && |payload| < 4294967296
    case (MultiGet(_), Values(entries)) => EntriesFit(entries) && forall e <- entries :: Clean(e)
    case _ => false
  }

  /** The result a call must have when its own request was answered with r. */
  function Expected(op: Op, r: Reply): Result<Answer>
    requires WellFormed(op, r)
  {
    match (op, r)
    case (Cmd(_, _, _), Single(status, payload)) =>
      (match RespResult(status, payload) case Ok(v) => Ok(Payload(v)) case Raised(e) => Raised(e))
    case (_, Statuses(statuses)) => Ok(EntryStatuses(EntryStatusesOf(statuses)))
    case (_, Values(entries)) => Ok(Payloads(ValuesOf(entries)))
    case _ => Raised(BatchError)
  }

  /** The bytes of the reply the call leaves unread: the payload of a refused batch, else nothing. */
  function Leftover(op: Op, r: Reply): bytes {
    if !op.Cmd? && r.Single? then r.payload else []
  }

  /** A 5-byte reply header reads back, whatever follows it. */
  lemma HeaderReads(status: byte, n: nat, tail: bytes)
    requires n < 4294967296
    ensures var s := [status] + LE(n, 4) + tail;
            |s| == 5 + |tail| && s[0] == status && FromLE(s[1..5]) == n && s[5..] == tail
  {
    Widths();
    RoundTrip(n, 4);
    var s := [status] + LE(n, 4) + tail;
    assert s[1..5] == LE(n, 4);
    assert s[5..] == tail;
  }

  lemma SingleReads(status: byte, payload: bytes, rest: bytes)
    requires |payload| < 4294967296
    ensures var s := SingleFrame(status, payload) + rest;
            |s| == 5 + |payload| + |rest| && s[0] == status && FromLE(s[1..5]) == |payload|
            && s[5..5 + |payload|] == payload && s[5 + |payload|..] == rest && s[5..] == payload + rest
  {
    HeaderReads(status, |payload|, payload + rest);
    var s := SingleFrame(status, payload) + rest;
    assert s == [status] + LE(|payload|, 4) + (payload + rest);
    assert s[5..5 + |payload|] == payload;
    assert s[5 + |payload|..] == rest;
  }

  lemma ValuesReads(entries: seq<ValueEntry>, rest: bytes)
    requires |entries| < 4294967296
    ensures var s := ReplyFrame(Values(entries)) + rest;
            |s| >= 5 && s[0] == OK && FromLE(s[1..5]) == |entries| && s[5..] == EncodeAll(ValueFrame, entries) + rest
  {
    var body := EncodeAll(ValueFrame, entries);
    HeaderReads(OK, |entries|, body + rest);
    assert [OK] + LE(|entries|, 4) + body + rest == [OK] + LE(|entries|, 4) + (body + rest);
  }

  lemma ReadEntryInverts(e: ValueEntry, tail: bytes)
    requires |e.value| < 4294967296 && Clean(e)
    ensures ReadEntry(ValueFrame(e) + tail) == Some((ValueOf(e), tail))
  {
    SingleReads(e.status, e.value, tail);
  }

  lemma {:induction false} ReadEntriesInvert(entries: seq<ValueEntry>, rest: bytes)
    requires EntriesFit(entries) && forall e <- entries :: Clean(e)
    ensures ParseN(ReadEntry, |entries|, EncodeAll(ValueFrame, entries) + rest) == Some((ValuesOf(entries), rest))
  {
    forall i | 0 <= i < |entries|
      ensures Yields(ValueFrame, ReadEntry, entries[i], ValuesOf(entries)[i])
    {
      forall tail: bytes { ReadEntryInverts(entries[i], tail); }
    }
    ParseNYields(ValueFrame, ReadEntry, entries, ValuesOf(entries), rest);
  }

  lemma RespInverts(status: byte, payload: bytes, rest: bytes)
    requires |payload| < 4294967296
    ensures ReadResp(SingleFrame(status, payload) + rest) == Some((RespResult(status, payload), rest))
  {
    SingleReads(status, payload, rest);
  }

  lemma RefusalReads(status: byte, payload: bytes, rest: bytes)
    requires |payload| < 4294967296 && status != OK
    ensures ReadStatuses(SingleFrame(status, payload) + rest) == Some((Raised(BatchError), payload + rest))
    ensures ReadValues(SingleFrame(status, payload) + rest) == Some((Raised(BatchError), payload + rest))
  {
    SingleReads(status, payload, rest);
  }

  lemma StatusesInvert(statuses: bytes, rest: bytes)
    requires |statuses| < 4294967296
    ensures ReadStatuses(SingleFrame(OK, statuses) + rest) == Some((Ok(EntryStatusesOf(statuses)), rest))
  {
    SingleReads(OK, statuses, rest);
  }

  lemma ValuesInvert(entries: seq<ValueEntry>, rest: bytes)
    requires EntriesFit(entries) && forall e <- entries :: Clean(e)
    ensures ReadValues(ReplyFrame(Values(entries)) + rest) == Some((Ok(ValuesOf(entries)), rest))
  {
    ValuesReads(entries, rest);
    ReadEntriesInvert(entries, rest);
  }

  /** Every reader inverts the reply encoding: the call gets the result its reply says, and reads
      exactly the reply, except for the payload of a refused batch. */
  lemma {:induction false} ReadInverts(op: Op, r: Reply, rest: bytes)
    requires WellFormed(op, r)
    ensures Read(op, ReplyFrame(r) + rest) == Some((Expected(op, r), Leftover(op, r) + rest))
  {
    assert [] + rest == rest;
    match r
    case Single(status, payload) =>
      if op.Cmd? {
        RespInverts(status, payload, rest);
      } else {
        RefusalReads(status, payload, rest);
      }
    case Statuses(statuses) => StatusesInvert(statuses, rest);
    case Values(entries) => ValuesInvert(entries, rest);
  }

  /** So a connection kept after a call is in step exactly when the reply was not a refused batch
      carrying a payload; every other error reply is read to its end before it is raised. */
  lemma {:induction false} InStepAfterCall(op: Op, r: Reply)
    requires WellFormed(op, r)
    ensures Read(op, ReplyFrame(r)) == Some((Expected(op, r), []))
       <==> (op.Cmd? || !r.Single? || r.payload == [])
  {
    ReadInverts(op, r, []);
    assert ReplyFrame(r) + [] == ReplyFrame(r);
    assert Leftover(op, r) + [] == Leftover(op, r);
  }

  // ---------- Failed MGET entries that do carry bytes ----------

  /** The bytes an MGET reader consumes for these results. */
  function Consumed(values: seq<Option<bytes>>): nat {
    if values == [] then 0
    else 5 + (if values[0].Some? then |values[0].value| else 0) + Consumed(values[1..])
  }

  lemma {:induction false} ReadEntriesConsume(n: nat, s: bytes)
    requires ParseN(ReadEntry, n, s).Some?
    ensures |s| == Consumed(ParseN(ReadEntry, n, s).value.0) + |ParseN(ReadEntry, n, s).value.1|
  {
    if n > 0 {
      var rest := ReadEntry(s).value.1;
      ReadEntriesConsume(n - 1, rest);
      assert ParseN(ReadEntry, n, s).value.0[1..] == ParseN(ReadEntry, n - 1, rest).value.0;
    }
  }

  lemma {:induction false} DirtyEntriesAreLonger(entries: seq<ValueEntry>)
    ensures |EncodeAll(ValueFrame, entries)| >= Consumed(ValuesOf(entries))
    ensures |EncodeAll(ValueFrame, entries)| == Consumed(ValuesOf(entries)) ==> forall e <- entries :: Clean(e)
  {
    if entries != [] {
      DirtyEntriesAreLonger(entries[1..]);
      assert ValuesOf(entries)[1..] == ValuesOf(entries[1..]);
      assert |ValueFrame(entries[0])| == 5 + |entries[0].value|;
      assert forall e <- entries :: e == entries[0] || e in entries[1..];
    }
  }

  /** multi_get both returns the right values and stops at the end of its reply exactly when no
      failed entry carries value bytes. */
  lemma {:induction false} ReadValuesExactly(entries: seq<ValueEntry>, rest: bytes)
    requires EntriesFit(entries)
    ensures ReadValues(ReplyFrame(Values(entries)) + rest) == Some((Ok(ValuesOf(entries)), rest))
       <==> forall e <- entries :: Clean(e)
  {
    var body := EncodeAll(ValueFrame, entries);
    ValuesReads(entries, rest);
    if forall e <- entries :: Clean(e) {
      ValuesInvert(entries, rest);
    }
    if ReadValues(ReplyFrame(Values(entries)) + rest) == Some((Ok(ValuesOf(entries)), rest)) {
      ReadEntriesConsume(|entries|, body + rest);
      DirtyEntriesAreLonger(entries);
    }
  }

  // ---------- Replies are self-delimiting ----------

  lemma TakeExtends(s: bytes, t: bytes, n: nat)
    requires |s| >= 5 + n
    ensures (s + t)[1..5] == s[1..5] && (s + t)[5..5 + n] == s[5..5 + n]
    ensures (s + t)[5 + n..] == s[5 + n..] + t && (s + t)[5..] == s[5..] + t
  {
    assert (s + t)[1..5] == s[1..5];
    assert (s + t)[5..5 + n] == s[5..5 + n];
    assert (s + t)[5 + n..] == s[5 + n..] + t;
    assert (s + t)[5..] == s[5..] + t;
  }

  lemma ReadEntryExtends()
    ensures Extends(ReadEntry)
  {
    forall s: bytes, t: bytes | ReadEntry(s).Some?
      ensures ReadEntry(s + t) == Some((ReadEntry(s).value.0, ReadEntry(s).value.1 + t))
    {
      var n := FromLE(s[1..5]);
      TakeExtends(s, t, if s[0] == OK then n else 0);
    }
  }

  /** Once a reader has all it needs, more bytes change neither its result nor where it stops. */
  lemma {:induction false} ReadExtends(op: Op, s: bytes, t: bytes)
    requires Read(op, s).Some?
    ensures Read(op, s + t) == Some((Read(op, s).value.0, Read(op, s).value.1 + t))
  {
    var n := FromLE(s[1..5]);
    match op
    case Cmd(_, _, _) => TakeExtends(s, t, n);
    case MultiPut(_, _) => TakeExtends(s, t, if s[0] == OK then n else 0);
    case MultiGet(_) =>
      TakeExtends(s, t, 0);
      if s[0] == OK {
        ReadEntryExtends();
        ParseNExtends(ReadEntry, n, s[5..], t);
      }
  }

  /** A reader that returns normally on part of its reply has in fact had all of it. */
  lemma {:induction false} NormalReturnNeedsWholeReply(op: Op, r: Reply, s: bytes)
    requires WellFormed(op, r) && s <= ReplyFrame(r)
    requires Read(op, s).Some? && Read(op, s).value.0.Ok?
    ensures s == ReplyFrame(r) && Read(op, s) == Some((Expected(op, r), []))
  {
    var t := ReplyFrame(r)[|s|..];
    assert s + t == ReplyFrame(r) == ReplyFrame(r) + [];
    ReadExtends(op, s, t);
    ReadInverts(op, r, []);
    assert |Read(op, s).value.1 + t| == |Leftover(op, r) + []| == 0;
  }

  // ---------- A server over a map ----------

  type Store = map<bytes, bytes>

  function PutAll(store: Store, entries: seq<PutEntry>): Store
    decreases entries
  {
    if entries == [] then store
    else PutAll(store[entries[0].key := entries[0].value], entries[1..])
  }

  function Lookup(store: Store, key: bytes): ValueEntry {
    if key in store then ValueEntry(OK, store[key]) else ValueEntry(NOT_FOUND, [])
  }

  function LookupAll(store: Store, keys: seq<bytes>): (r: seq<ValueEntry>)
    ensures |r| == |keys|
    ensures forall i :: 0 <= i < |r| ==> r[i] == Lookup(store, keys[i])
  {
    seq(|keys|, i requires 0 <= i < |keys| => Lookup(store, keys[i]))
  }

  /** The new store and the reply. Commands without a meaning for the store succeed and leave it alone. */
  function Serve(store: Store, r: Request): (Store, Reply) {
    match r
    case Simple(cmd, key, value) =>
      if cmd == PUT then (store[key := value], Single(OK, []))
      else if cmd == GET then (store, Single(Lookup(store, key).status, Lookup(store, key).value))
      else if cmd == DEL then (store - {key}, Single(OK, []))
      else (store, Single(OK, []))
    case MPut(entries) => (PutAll(store, entries), Statuses(seq(|entries|, _ => OK)))
    case MGet(keys) => (store, Values(LookupAll(store, keys)))
  }

  /** Whatever the server answers for each of the keys, multi_get returns what individual gets return
      exactly when every answer is OK or NOT_FOUND (a get raises on the others); an empty stored value
      is None in both. */
  lemma {:induction false} MultiGetAgreesExactly(entries: seq<ValueEntry>, rest: bytes)
    requires EntriesFit(entries) && forall e <- entries :: Clean(e)
    ensures ReadValues(ReplyFrame(Values(entries)) + rest) == Some((Ok(ValuesOf(entries)), rest))
    ensures (forall i :: 0 <= i < |entries| ==>
               ReadResp(SingleFrame(entries[i].status, entries[i].value) + rest)
               == Some((Ok(ValuesOf(entries)[i]), rest)))
       <==> forall e <- entries :: e.status == OK || e.status == NOT_FOUND
  {
    ValuesInvert(entries, rest);
    forall i | 0 <= i < |entries|
      ensures ReadResp(SingleFrame(entries[i].status, entries[i].value) + rest)
              == Some((Ok(ValuesOf(entries)[i]), rest))
         <==> entries[i].status == OK || entries[i].status == NOT_FOUND
    {
      RespInverts(entries[i].status, entries[i].value, rest);
    }
  }

  predicate StoreFits(store: Store) {
    forall k <- store :: |store[k]| < 4294967296
  }

  lemma GetReads(store: Store, key: bytes, rest: bytes)
    requires StoreFits(store)
    ensures Read(Cmd(GET, key, []), ReplyFrame(Serve(store, Simple(GET, key, [])).1) + rest)
         == Some((Ok(Payload(ValueOf(Lookup(store, key)))), rest))
  {
    var e := Lookup(store, key);
    ReadInverts(Cmd(GET, key, []), Single(e.status, e.value), rest);
    assert [] + rest == rest;
  }

  lemma MultiGetReads(store: Store, keys: seq<bytes>, rest: bytes)
    requires |keys| < 4294967296 && StoreFits(store)
    ensures Read(MultiGet(keys), ReplyFrame(Serve(store, MGet(keys)).1) + rest)
         == Some((Ok(Payloads(ValuesOf(LookupAll(store, keys)))), rest))
  {
    ReadInverts(MultiGet(keys), Values(LookupAll(store, keys)), rest);
    assert [] + rest == rest;
  }

  /** multi_get returns, in order, what the individual gets return, on any store. */
  lemma {:induction false} MultiGetIsGets(store: Store, keys: seq<bytes>, values: seq<Option<bytes>>, rest: bytes)
    requires |keys| < 4294967296 && StoreFits(store)
    ensures Read(MultiGet(keys), ReplyFrame(Serve(store, MGet(keys)).1) + rest) == Some((Ok(Payloads(values)), rest))
       <==> |values| == |keys| && forall i :: 0 <= i < |keys| ==>
              Read(Cmd(GET, keys[i], []), ReplyFrame(Serve(store, Simple(GET, keys[i], [])).1) + rest)
              == Some((Ok(Payload(values[i])), rest))
  {
    var found := ValuesOf(LookupAll(store, keys));
    MultiGetReads(store, keys, rest);
    forall i | 0 <= i < |keys|
      ensures Read(Cmd(GET, keys[i], []), ReplyFrame(Serve(store, Simple(GET, keys[i], [])).1) + rest)
           == Some((Ok(Payload(found[i])), rest))
    {
      GetReads(store, keys[i], rest);
    }
    assert values == found <==> |values| == |keys| && forall i :: 0 <= i < |keys| ==> values[i] == found[i];
  }

  // ---------- What each reply means, status by status ----------

  /** A reply to a single command: 0 with a payload is that payload, 0 without one and 2 are None, anything
      else raises the payload as a message. */
  lemma {:induction false} SingleMeans(status: byte, payload: bytes, rest: bytes)
    requires |payload| < 4294967296
    ensures ReadResp([status] + LE(|payload|, 4) + payload + rest) ==
            Some((if status == 0 then Ok(if |payload| > 0 then Some(payload) else None)
                  else if status == 2 then Ok(None)
                  else Raised(ServerError(payload)), rest))
  {
    RespInverts(status, payload, rest);
    assert SingleFrame(status, payload) == [status] + LE(|payload|, 4) + payload;
  }

  /** A reply to a batch put: an entry is None exactly if its status is 0, and its status otherwise. */
  lemma {:induction false} StatusesMean(statuses: bytes, rest: bytes, r: seq<Option<byte>>)
    requires |statuses| < 4294967296
    ensures ReadStatuses([0] + LE(|statuses|, 4) + statuses + rest) == Some((Ok(r), rest))
       <==> |r| == |statuses|
            && forall i :: 0 <= i < |r| ==> r[i] == if statuses[i] == 0 then None else Some(statuses[i])
  {
    StatusesInvert(statuses, rest);
    assert SingleFrame(OK, statuses) == [0] + LE(|statuses|, 4) + statuses;
    var e := EntryStatusesOf(statuses);
    assert r == e <==> |r| == |e| && forall i :: 0 <= i < |r| ==> r[i] == e[i];
  }

  /** A reply to a batch get: an entry is its value exactly if its status is 0 and its value not empty. */
  lemma {:induction false} ValuesMean(entries: seq<ValueEntry>, rest: bytes, r: seq<Option<bytes>>)
    requires EntriesFit(entries) && forall e <- entries :: e.status != 0 ==> e.value == []
    ensures ReadValues([0] + LE(|entries|, 4) + EncodeAll(ValueFrame, entries) + rest) == Some((Ok(r), rest))
       <==> |r| == |entries|
            && forall i :: 0 <= i < |r| ==>
                 r[i] == if entries[i].status == 0 && |entries[i].value| > 0 then Some(entries[i].value) else None
  {
    ValuesInvert(entries, rest);
    assert ReplyFrame(Values(entries)) == [0] + LE(|entries|, 4) + EncodeAll(ValueFrame, entries);
    var v := ValuesOf(entries);
    assert r == v <==> |r| == |v| && forall i :: 0 <= i < |r| ==> r[i] == v[i];
  }

  /** A batch reply with any other status raises, its payload unread. */
  lemma {:induction false} RefusalMeans(status: byte, payload: bytes, rest: bytes)
    requires |payload| < 4294967296 && status != 0
    ensures var s := [status] + LE(|payload|, 4) + payload + rest;
            && ReadStatuses(s) == Some((Raised(BatchError), payload + rest))
            && ReadValues(s) == Some((Raised(BatchError), payload + rest))
  {
    RefusalReads(status, payload, rest);
    assert SingleFrame(status, payload) == [status] + LE(|payload|, 4) + payload;
  }
}
