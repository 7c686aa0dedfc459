/** The YCSB operations of VeltrixDBYCSBClient.java over a server that maps (table, key) to bytes: what
    they do to the bytes, the table of ordered field maps they refine, and concurrent merge updates. */
module Ycsb {
  import opened Bytes
  import opened Records
  import opened Codec

  type Id = (bytes, bytes)        // table and key
  type Store = map<Id, bytes>
  type Table = map<Id, Fields>

  datatype Status = OK | NOT_FOUND | ERROR

  datatype Call =
    | Read(id: Id, filter: Option<set<bytes>>)
    | Insert(id: Id, values: Fields)
    | Update(id: Id, values: Fields, merge: bool)
    | Delete(id: Id)

  /** Status and, for reads, the fields put into the result. */
  datatype Response = Response(status: Status, fields: Fields)

  // ---------- On bytes ----------

  function Lookup(store: Store, id: Id): Option<bytes> {
    if id in store then Some(store[id]) else None
  }

  /** The bytes a merge update writes back after reading existing; None if an unchecked exception escapes. */
  function MergedBytes(existing: Option<bytes>, values: Fields): Option<bytes> {
    match existing
    case None => Serialize(PutAll([], values))
    case Some(data) =>
      match Decode(data, None, [])
      case None => None
      case Some(fields) => Serialize(PutAll(fields, values))
  }

  /** serialize: the values are first copied into a new map. */
  function CopiedBytes(values: Fields): Option<bytes> {
    Serialize(PutAll([], values))
  }

  function Stored(store: Store, id: Id, data: Option<bytes>): Option<(Store, Response)> {
    match data
    case None => None
    case Some(b) => Some((store[id := b], Response(OK, [])))
  }

  /** One successful call: the new store and the response, or None for an unchecked exception. */
  function OnBytes(store: Store, call: Call): Option<(Store, Response)> {
    match call
    case Read(id, filter) =>
      if id !in store then Some((store, Response(NOT_FOUND, [])))
      else
        (match Decode(store[id], filter, [])
         case None => None
         case Some(fields) => Some((store, Response(OK, fields))))
    case Insert(id, values) => Stored(store, id, CopiedBytes(values))
    case Update(id, values, merge) =>
      Stored(store, id, if merge then MergedBytes(Lookup(store, id), values) else CopiedBytes(values))
    case Delete(id) => Some((store - {id}, Response(OK, [])))
  }

  // ---------- The client ----------

  /** The server, shared by all clients. */
  class Server {
    var records: Store

    constructor ()
      ensures records == map[]
    {
      records := map[];
    }
  }

  /** A call into the server can fail with an IOException or a VeltrixDBException; a failed write is
      taken not to have happened. */
  datatype Fault = NoFault | OnRead | OnWrite

  /** The loop that puts every supplied field into a map. */
  method Patch(fields: Fields, values: Fields) returns (merged: Fields)
    ensures merged == PutAll(fields, values)
  {
    merged := fields;
    for i := 0 to |values|
      invariant PutAll(merged, values[i..]) == PutAll(fields, values)
    {
      merged := Put(merged, values[i]);
      assert values[i..][1..] == values[i + 1..];
    }
  }

  class VeltrixDBYCSBClient {
    const server: Server
    const mergeOnUpdate: bool

    constructor (server: Server, mergeOnUpdate: bool)
      ensures this.server == server && this.mergeOnUpdate == mergeOnUpdate
    {
      this.server := server;
      this.mergeOnUpdate := mergeOnUpdate;
    }

    method Read(id: Id, filter: Option<set<bytes>>, fault: Fault) returns (r: Option<Response>)
      ensures fault == OnRead ==> r == Some(Response(ERROR, []))
      ensures fault != OnRead ==>
                match OnBytes(server.records, Call.Read(id, filter))
                case Some((_, response)) => r == Some(response)
                case None => r == None
    {
      if fault == OnRead {
        return Some(Response(ERROR, []));
      }
      if id !in server.records {
        return Some(Response(NOT_FOUND, []));
      }
      var fields := DeserializeToBytes(server.records[id], filter, []);
      if fields == None {
        return None;
      }
      r := Some(Response(OK, fields.value));
    }

    /** putNS of serialised bytes. */
    method Write(id: Id, data: Option<bytes>, fault: Fault) returns (r: Option<Response>)
      modifies server
      ensures data == None ==> r == None
      ensures data != None && fault == OnWrite ==> r == Some(Response(ERROR, []))
      ensures data == None || fault == OnWrite ==> server.records == old(server.records)
      ensures data != None && fault != OnWrite ==>
                r == Some(Response(OK, [])) && server.records == old(server.records)[id := data.value]
    {
      if data == None {
        return None;
      }
      if fault == OnWrite {
        return Some(Response(ERROR, []));
      }
      server.records := server.records[id := data.value];
      r := Some(Response(OK, []));
    }

    method Insert(id: Id, values: Fields, fault: Fault) returns (r: Option<Response>)
      modifies server
      ensures Performs(old(server.records), Call.Insert(id, values), fault, server.records, r)
    {
      var raw := Patch([], values);
      var data := SerializeBytes(raw);
      r := Write(id, data, fault);
    }

    /** Merge mode reads, patches the supplied fields into the decoded map, and writes back. */
    method Update(id: Id, values: Fields, fault: Fault) returns (r: Option<Response>)
      modifies server
      ensures Performs(old(server.records), Call.Update(id, values, mergeOnUpdate), fault, server.records, r)
    {
      if !mergeOnUpdate {
        r := Insert(id, values, fault);
        return;
      }
      if fault == OnRead {
        return Some(Response(ERROR, []));
      }
      var merged := [];
      if id in server.records {
        var existing := DeserializeToBytes(server.records[id], None, []);
        if existing == None {
          return None;
        }
        merged := existing.value;
      }
      merged := Patch(merged, values);
      var data := SerializeBytes(merged);
      r := Write(id, data, fault);
    }

    method Delete(id: Id, fault: Fault) returns (r: Option<Response>)
      modifies server
      ensures Performs(old(server.records), Call.Delete(id), fault, server.records, r)
    {
      if fault == OnWrite {
        return Some(Response(ERROR, []));
      }
      server.records := server.records - {id};
      r := Some(Response(OK, []));
    }
  }

  /** A writing call either does what OnBytes says, or reports ERROR or raises and changes nothing. */
  ghost predicate Performs(before: Store, call: Call, fault: Fault, after: Store, r: Option<Response>) {
    match OnBytes(before, call)
    case Some((store, response)) =>
      (fault == NoFault ==> after == store && r == Some(response))
      && ((after == store && r == Some(response)) || (after == before && r == Some(Response(ERROR, []))))
    case None => after == before && (r == None || r == Some(Response(ERROR, [])))
  }

  // ---------- Refinement of a table of field maps ----------

  function RecordOf(table: Table, id: Id): Fields {
    if id in table then table[id] else []
  }

  /** The same calls on ordered field maps: merge is override, everything else replacement, removal
      and restriction. */
  function OnTable(table: Table, call: Call): (Table, Response) {
    match call
    case Read(id, filter) =>
      if id !in table then (table, Response(NOT_FOUND, []))
      else (table, Response(OK, Restrict(table[id], filter)))
    case Insert(id, values) => (table[id := values], Response(OK, []))
    case Update(id, values, merge) =>
      (table[id := if merge then PutAll(RecordOf(table, id), values) else values], Response(OK, []))
    case Delete(id) => (table - {id}, Response(OK, []))
  }

  /** Field maps have distinct names, and those written must fit the format. */
  predicate Admissible(table: Table, call: Call) {
    match call
    case Insert(id, values) => Distinct(values) && Fits(values)
    case Update(id, values, merge) =>
      Distinct(values) && Fits(if merge then PutAll(RecordOf(table, id), values) else values)
    case _ => true
  }

  ghost predicate Represents(store: Store, table: Table) {
    store.Keys == table.Keys
    && forall id <- table :: Distinct(table[id]) && Fits(table[id]) && store[id] == Encode(table[id])
  }

  lemma CopyIsEqual(m: Fields)
    requires Distinct(m)
    ensures PutAll([], m) == m
  {
    PutAllAppends([], m);
    assert [] + m == m;
  }

  lemma StoredRepresents(store: Store, table: Table, id: Id, m: Fields, b: bytes)
    requires Represents(store, table) && Distinct(m) && Fits(m) && b == Encode(m)
    ensures Represents(store[id := b], table[id := m])
  {
    var store', table' := store[id := b], table[id := m];
    assert store'.Keys == table'.Keys;
    forall i <- table' ensures Distinct(table'[i]) && Fits(table'[i]) && store'[i] == Encode(table'[i]) {
      assert i != id ==> i in table;
    }
  }

  lemma ReadRefines(store: Store, table: Table, id: Id, filter: Option<set<bytes>>)
    requires Represents(store, table) && id in table
    ensures Decode(store[id], filter, []) == Some(Restrict(table[id], filter))
  {
    RoundTripExactly(table[id]);
    FilteredDecodeRestricts(store[id], filter);
  }

  lemma MergeRefines(store: Store, table: Table, id: Id, values: Fields)
    requires Represents(store, table) && Distinct(values) && Fits(PutAll(RecordOf(table, id), values))
    ensures var m := PutAll(RecordOf(table, id), values);
            Distinct(m) && MergedBytes(Lookup(store, id), values) == Some(Encode(m))
  {
    if id in table {
      RoundTripExactly(table[id]);
    }
    PutAllDistinct(RecordOf(table, id), values);
  }

  /** Each admissible call does on the bytes what it does on the table, with the same response. */
  lemma {:induction false} CallRefines(store: Store, table: Table, call: Call)
    requires Represents(store, table) && Admissible(table, call)
    ensures OnBytes(store, call).Some?
    ensures OnBytes(store, call).value.1 == OnTable(table, call).1
    ensures Represents(OnBytes(store, call).value.0, OnTable(table, call).0)
  {
    match call
    case Read(id, filter) =>
      if id in table {
        ReadRefines(store, table, id, filter);
      }
    case Insert(id, values) =>
      CopyIsEqual(values);
      StoredRepresents(store, table, id, values, Encode(values));
    case Update(id, values, merge) =>
      var m := if merge then PutAll(RecordOf(table, id), values) else values;
      if merge {
        MergeRefines(store, table, id, values);
      } else {
        CopyIsEqual(values);
      }
      StoredRepresents(store, table, id, m, Encode(m));
    case Delete(id) =>
  }

  function RunOnBytes(store: Store, calls: seq<Call>): Option<(Store, seq<Response>)>
    decreases calls
  {
    if calls == [] then Some((store, []))
    else match OnBytes(store, calls[0])
      case None => None
      case Some((store', response)) =>
        match RunOnBytes(store', calls[1..])
        case None => None
        case Some((store'', responses)) => Some((store'', [response] + responses))
  }

  function RunOnTable(table: Table, calls: seq<Call>): (Table, seq<Response>)
    decreases calls
  {
    if calls == [] then (table, [])
    else
      var (table', response) := OnTable(table, calls[0]);
      var (table'', responses) := RunOnTable(table', calls[1..]);
      (table'', [response] + responses)
  }

  predicate AllAdmissible(table: Table, calls: seq<Call>)
    decreases calls
  {
    calls == [] || (Admissible(table, calls[0]) && AllAdmissible(OnTable(table, calls[0]).0, calls[1..]))
  }

  /** Any sequence of successful calls on the bytes is the same sequence on the table. */
  lemma {:induction false} RunRefines(store: Store, table: Table, calls: seq<Call>)
    requires Represents(store, table) && AllAdmissible(table, calls)
    ensures RunOnBytes(store, calls).Some?
    ensures RunOnBytes(store, calls).value.1 == RunOnTable(table, calls).1
    ensures Represents(RunOnBytes(store, calls).value.0, RunOnTable(table, calls).0)
    decreases calls
  {
    if calls != [] {
      CallRefines(store, table, calls[0]);
      RunRefines(OnBytes(store, calls[0]).value.0, OnTable(table, calls[0]).0, calls[1..]);
    }
  }

  /** A merge update leaves bytes that decode to the overridden map exactly when that map fits the
      format; otherwise it reports OK all the same. */
  lemma {:induction false} MergeIsFaithfulExactly(store: Store, table: Table, id: Id, values: Fields)
    requires Represents(store, table) && Distinct(values)
    requires Size(PutAll(RecordOf(table, id), values)) < MAX_ARRAY
    ensures var m := PutAll(RecordOf(table, id), values);
            && OnBytes(store, Update(id, values, true)) == Some((store[id := Encode(m)], Response(OK, [])))
            && (Decode(Encode(m), None, []) == Some(m) <==> Fits(m))
  {
    if id in table {
      RoundTripExactly(table[id]);
    }
    PutAllDistinct(RecordOf(table, id), values);
    RoundTripExactly(PutAll(RecordOf(table, id), values));
  }

  // ---------- What a call leaves for the calls after it ----------

  /** Any other record reads as before. */
  lemma {:induction false} OthersUnchanged(store: Store, call: Call, id: Id, filter: Option<set<bytes>>)
    requires OnBytes(store, call).Some? && (!call.Read? ==> call.id != id)
    ensures var after := OnBytes(store, call).value.0;
            && OnBytes(after, Read(id, filter)).Some? == OnBytes(store, Read(id, filter)).Some?
            && (OnBytes(store, Read(id, filter)).Some? ==>
                  OnBytes(after, Read(id, filter)).value.1 == OnBytes(store, Read(id, filter)).value.1)
  {
  }

  /** A record inserted, or overwritten by an update, reads back as the fields supplied, in their order; a
      deleted one, or one never written, is not found. */
  lemma {:induction false} WritesReadBack(store: Store, id: Id, values: Fields)
    requires Distinct(values) && Fits(values)
    ensures OnBytes(store, Insert(id, values)) == OnBytes(store, Update(id, values, false))
    ensures OnBytes(store, Insert(id, values)).Some?
    ensures var (after, response) := OnBytes(store, Insert(id, values)).value;
            && response == Response(OK, [])
            && OnBytes(after, Read(id, None)) == Some((after, Response(OK, values)))
    ensures OnBytes(store, Delete(id)).Some?
    ensures var (after, response) := OnBytes(store, Delete(id)).value;
            && response == Response(OK, [])
            && OnBytes(after, Read(id, None)) == Some((after, Response(NOT_FOUND, [])))
  {
    CopyIsEqual(values);
    RoundTrips(values);
  }

  /** After a merge update a field reads as supplied if it was, and else as before; the old fields keep
      their order, the new ones follow in the order supplied. */
  lemma {:induction false} MergesReadBack(store: Store, table: Table, id: Id, values: Fields, name: bytes)
    requires Represents(store, table) && Admissible(table, Update(id, values, true))
    ensures OnBytes(store, Update(id, values, true)).Some?
    ensures var (after, response) := OnBytes(store, Update(id, values, true)).value;
            && response == Response(OK, [])
            && OnBytes(after, Read(id, None)).Some?
            && var read := OnBytes(after, Read(id, None)).value.1;
               && read.status == OK
               && Find(read.fields, name) == (if Find(values, name).Some? then Find(values, name)
                                              else Find(RecordOf(table, id), name))
               && Names(read.fields) == Names(RecordOf(table, id)) + NewNames(RecordOf(table, id), values)
  {
    var before, m := RecordOf(table, id), PutAll(RecordOf(table, id), values);
    MergeRefines(store, table, id, values);
    RoundTrips(m);
    PutAllFind(before, values, name);
    PutAllNames(before, values);
  }
}
