/** The Go client of dbbench/client.go: a connection with buffered input and output, whose calls are
    specified by the Python client's readers of the same bytes. */
module GoClient {
  import opened Bytes
  import opened Framing
  import opened Wire
  import opened Replies
  import opened Client

  datatype Failure =
    | Broken                        // an I/O error of the reader or the writer
    | BatchStatus(status: byte)
    | ServerStatus(status: byte)    // an error reply without a message
    | ServerMessage(message: bytes)

  datatype Outcome<+T> = Done(value: T) | Failed(failure: Failure)

  /** A payload, nil being empty, and whether the key was found. */
  datatype Got = Got(payload: bytes, found: bool)

  // ---------- The two clients' views of a reply ----------

  function OrNil(v: Option<bytes>): bytes {
    match v case None => [] case Some(b) => b
  }

  /** What readResp makes of a reply of which _resp makes r. */
  function GotOf(status: byte, r: Result<Option<bytes>>): Outcome<Got> {
    match r
    case Ok(v) => Done(Got(OrNil(v), status == OK))
    case Raised(e) =>
      Failed(if e.ServerError? && e.message != [] then ServerMessage(e.message) else ServerStatus(status))
  }

  function Successes(statuses: seq<Option<byte>>): nat {
    if statuses == [] then 0
    else Successes(statuses[..|statuses| - 1]) + if statuses[|statuses| - 1] == None then 1 else 0
  }

  function GotAll(values: seq<Option<bytes>>): (r: seq<Got>)
    ensures |r| == |values|
    ensures forall i :: 0 <= i < |r| ==> r[i] == Got(OrNil(values[i]), values[i].Some?)
  {
    seq(|values|, i requires 0 <= i < |values| => Got(OrNil(values[i]), values[i].Some?))
  }

  /** The reply is there: the outcome is the one said, and the bytes after it remain. Else: Broken. */
  ghost predicate Follows<T>(read: Option<(Outcome<T>, bytes)>, r: Outcome<T>, rest: bytes) {
    match read
    case Some((outcome, expectedRest)) => r == outcome && rest == expectedRest
    case None => r == Failed(Broken)
  }

  function CountOf(status: byte, r: Result<seq<Option<byte>>>): Outcome<nat> {
    match r case Ok(v) => Done(Successes(v)) case Raised(_) => Failed(BatchStatus(status))
  }

  function GotsOf(status: byte, r: Result<seq<Option<bytes>>>): Outcome<seq<Got>> {
    match r case Ok(v) => Done(GotAll(v)) case Raised(_) => Failed(BatchStatus(status))
  }

  /** The first byte of a reply. */
  function StatusOf(s: bytes): byte {
    if s == [] then OK else s[0]
  }

  /** What the three Go readers make of the bytes that arrive, by way of the Python readers of the same
      bytes; None while bytes are missing. */
  function GotRead(s: bytes): Option<(Outcome<Got>, bytes)> {
    match Replies.ReadResp(s)
    case None => None
    case Some((r, rest)) => Some((GotOf(StatusOf(s), r), rest))
  }

  function CountRead(s: bytes): Option<(Outcome<nat>, bytes)> {
    match ReadStatuses(s)
    case None => None
    case Some((r, rest)) => Some((CountOf(StatusOf(s), r), rest))
  }

  function GotsRead(s: bytes): Option<(Outcome<seq<Got>>, bytes)> {
    match ReadValues(s)
    case None => None
    case Some((r, rest)) => Some((GotsOf(StatusOf(s), r), rest))
  }

  // ---------- The connection ----------

  const BUFFER: nat := 32768

  class Conn {
    var buffered: bytes         // read from the socket, not yet by the caller
    var incoming: seq<Arrival>  // what the socket has yet to deliver
    var out: bytes              // written by the caller, not yet to the socket
    var sent: bytes             // everything written to the socket
    var writeFailed: bool       // a failed write makes every later one fail

    ghost predicate Valid()
      reads this
    {
      NonemptyChunks(incoming)
    }

    /** Everything a reader will see before the next failure of the socket. */
    ghost function Pending(): bytes
      reads this
    {
      buffered + Ready(incoming)
    }

    constructor ()
      ensures Valid() && Pending() == [] && out == [] && sent == [] && !writeFailed
    {
      buffered, incoming, out, sent, writeFailed := [], [], [], [], false;
    }

    /** One read of the socket into a space of n bytes; no bytes on a failure or at the end. */
    method SocketRead(n: nat) returns (data: bytes)
      requires Valid() && n > 0
      modifies this`incoming
      ensures Valid() && |data| <= n
      ensures Ready(old(incoming)) == data + Ready(incoming) || (data == [] && Ready(old(incoming)) == [])
      ensures data == [] ==> Ready(old(incoming)) == []
    {
      if incoming == [] {
        return [];
      }
      var head, rest := incoming[0], incoming[1..];
      if head.Fault? {
        incoming := rest;
        return [];
      }
      if |head.data| <= n {
        incoming := rest;
        data := head.data;
      } else {
        data := head.data[..n];
        incoming := [Chunk(head.data[n..])] + rest;
        Split(head.data, n, Ready(rest));
      }
    }

    /** The buffered reader's Read: from the buffer if it holds anything; else one read of the socket,
        straight to the caller when the caller wants at least a bufferful. */
    method Read(n: nat) returns (data: bytes)
      requires Valid() && n > 0
      modifies this`buffered, this`incoming
      ensures Valid() && |data| <= n
      ensures data != [] ==> old(Pending()) == data + Pending()
      ensures data == [] ==> old(Pending()) == []
    {
      if buffered == [] {
        if n >= BUFFER {
          data := SocketRead(n);
          return;
        }
        buffered := SocketRead(BUFFER);
        if buffered == [] {
          return [];
        }
      }
      var k := if n < |buffered| then n else |buffered|;
      data := buffered[..k];
      Split(buffered, k, Ready(incoming));
      buffered := buffered[k..];
    }

    /** io.ReadFull: exactly the next n bytes, however they arrived; it fails only if fewer do. */
    method ReadFull(n: nat) returns (r: Option<bytes>)
      requires Valid()
      modifies this`buffered, this`incoming
      ensures Valid()
      ensures r.Some? <==> |old(Pending())| >= n
      ensures r.Some? ==> r.value == old(Pending())[..n] && Pending() == old(Pending())[n..]
    {
      var data: bytes := [];
      while |data| < n
        invariant Valid()
        invariant |data| <= n && old(Pending()) == data + Pending()
        decreases n - |data|
      {
        var more := Read(n - |data|);
        if more == [] {
          return None;
        }
        data := data + more;
      }
      r := Some(data);
    }

    /** Buffered, unless an earlier write failed. */
    method Write(p: bytes)
      modifies this`out
      ensures !writeFailed ==> out == old(out) + p
    {
      if !writeFailed {
        out := out + p;
      }
    }

    /** Everything buffered goes out, or the socket fails having taken the first `taken` bytes. */
    method Flush(socketFails: bool, taken: nat) returns (ok: bool)
      modifies this`out, this`sent, this`writeFailed
      ensures ok == !(old(writeFailed) || (socketFails && taken < |old(out)|)) == !writeFailed
      ensures ok ==> sent == old(sent) + old(out) && out == []
      ensures old(writeFailed) ==> sent == old(sent)
      ensures !ok && !old(writeFailed) ==> taken < |old(out)| && sent == old(sent) + old(out)[..taken]
    {
      if writeFailed {
        return false;
      }
      if socketFails && taken < |out| {
        sent, out, writeFailed := sent + out[..taken], out[taken..], true;
        return false;
      }
      sent, out := sent + out, [];
      ok := true;
    }

    /** sendCmd: one frame, or on an error some beginning of it. */
    method SendCmd(cmd: byte, key: bytes, value: bytes, socketFails: bool, taken: nat) returns (ok: bool)
      requires writeFailed || out == []
      modifies this`out, this`sent, this`writeFailed
      ensures ok == !writeFailed && (ok ==> out == [])
      ensures SentFrame(ok, old(sent), sent, RequestFrame(Simple(cmd, key, value)))
    {
      var hdr := Header(cmd, |key|, |value|);
      SkipEmpty(hdr, key, value);
      Write(hdr);
      if |key| > 0 {
        Write(key);
      }
      if |value| > 0 {
        Write(value);
      }
      ok := Flush(socketFails, taken);
    }

    /** One piece of multiPut's frame. */
    method WritePut(key: bytes, value: bytes)
      modifies this`out
      ensures !writeFailed ==> out == old(out) + EntryFrame(PutEntry(key, value, -1))
    {
      var entHdr := PutHeader(|key|, |value|);
      Associate(out + entHdr, key, value);
      Associate(out, entHdr, key + value);
      Associate(entHdr, key, value);
      Write(entHdr);
      Write(key);
      Write(value);
    }

    /** The frame of multiPut, written piece by piece. */
    method WritePuts(keys: seq<bytes>, values: seq<bytes>)
      requires (writeFailed || out == []) && |keys| <= |values|
      modifies this`out
      ensures !writeFailed ==> out == RequestFrame(MPut(Permanent(keys, values)))
    {
      var n := |keys|;
      ghost var entries, header := Permanent(keys, values), Header(MPUT, 0, n);
      Write(Header(MPUT, 0, n));
      for i := 0 to n
        invariant !writeFailed ==> out == header + EncodeAll(EntryFrame, entries[..i])
      {
        EncodeAllNext(EntryFrame, entries, i);
        Associate(header, EncodeAll(EntryFrame, entries[..i]), EntryFrame(entries[i]));
        WritePut(keys[i], values[i]);
      }
      assert entries[..n] == entries;
    }

    /** One piece of multiGet's frame. */
    method WriteGet(key: bytes)
      modifies this`out
      ensures !writeFailed ==> out == old(out) + KeyFrame(key)
    {
      Associate(out, LE(|key|, 2), key);
      Write(LE(|key|, 2));
      Write(key);
    }

    /** The frame of multiGet, written piece by piece. */
    method WriteGets(keys: seq<bytes>)
      requires writeFailed || out == []
      modifies this`out
      ensures !writeFailed ==> out == RequestFrame(MGet(keys))
    {
      var n := |keys|;
      ghost var header := Header(MGET, 0, n);
      Write(Header(MGET, 0, n));
      for i := 0 to n
        invariant !writeFailed ==> out == header + EncodeAll(KeyFrame, keys[..i])
      {
        EncodeAllNext(KeyFrame, keys, i);
        Associate(header, EncodeAll(KeyFrame, keys[..i]), KeyFrame(keys[i]));
        WriteGet(keys[i]);
      }
      assert keys[..n] == keys;
    }

    /** readResp: one reply frame. */
    method ReadResp() returns (r: Outcome<Got>)
      requires Valid()
      modifies this`buffered, this`incoming
      ensures Valid()
      ensures Follows(GotRead(old(Pending())), r, Pending())
    {
      ghost var s := Pending();
      var hdr := ReadFull(5);
      if hdr == None {
        return Failed(Broken);
      }
      assert hdr.value[1..5] == s[1..5];
      var status, n := hdr.value[0], FromLE(hdr.value[1..5]);
      var payload := [];
      if n > 0 {
        var p := ReadFull(n);
        if p == None {
          return Failed(Broken);
        }
        payload := p.value;
      }
      assert payload == s[5..5 + n] && Pending() == s[5 + n..];
      if status == OK {
        r := Done(Got(payload, true));
      } else if status == NOT_FOUND {
        r := Done(Got([], false));
      } else {
        r := Failed(if |payload| > 0 then ServerMessage(payload) else ServerStatus(status));
      }
    }

    /** The reply to multiPut: how many entries succeeded. */
    method ReadCount() returns (r: Outcome<nat>)
      requires Valid()
      modifies this`buffered, this`incoming
      ensures Valid()
      ensures Follows(CountRead(old(Pending())), r, Pending())
    {
      ghost var s := Pending();
      var hdr := ReadFull(5);
      if hdr == None {
        return Failed(Broken);
      }
      if hdr.value[0] != OK {
        return Failed(BatchStatus(hdr.value[0]));
      }
      assert hdr.value[1..5] == s[1..5];
      var count := FromLE(hdr.value[1..5]);
      var statuses := ReadFull(count);
      if statuses == None {
        return Failed(Broken);
      }
      assert statuses.value == s[5..5 + count];
      ghost var all := EntryStatusesOf(statuses.value);
      var ok := 0;
      for i := 0 to count
        invariant ok == Successes(all[..i])
      {
        assert all[..i + 1][..i] == all[..i];
        if statuses.value[i] == OK {
          ok := ok + 1;
        }
      }
      assert all[..count] == all;
      r := Done(ok);
    }

    /** One entry of an MGET reply. */
    method ReadGot() returns (r: Option<Got>)
      requires Valid()
      modifies this`buffered, this`incoming
      ensures Valid()
      ensures match ReadEntry(old(Pending()))
              case Some((v, rest)) => r == Some(Got(OrNil(v), v.Some?)) && Pending() == rest
              case None => r == None
    {
      ghost var s := Pending();
      var hdr := ReadFull(5);
      if hdr == None {
        return None;
      }
      assert hdr.value[1..5] == s[1..5];
      var valLen := FromLE(hdr.value[1..5]);
      if hdr.value[0] == OK && valLen > 0 {
        var v := ReadFull(valLen);
        if v == None {
          return None;
        }
        assert v.value == s[5..5 + valLen];
        return Some(Got(v.value, true));
      }
      r := Some(Got([], false));
    }

    /** One more of the n entries still to come; values is what the entries before it say. */
    method ReadNext(gots: seq<Got>, n: nat, ghost values: seq<Option<bytes>>,
                    ghost all: Option<(seq<Option<bytes>>, bytes)>)
      returns (r: Option<seq<Got>>, ghost values': seq<Option<bytes>>)
      requires Valid() && n > 0 && gots == GotAll(values) && all == After(values, ParseN(ReadEntry, n, Pending()))
      modifies this`buffered, this`incoming
      ensures Valid()
      ensures r.Some? ==> r.value == GotAll(values') && |r.value| == |gots| + 1
      ensures r.Some? ==> all == After(values', ParseN(ReadEntry, n - 1, Pending()))
      ensures r == None ==> all == None
    {
      EntryNext(all, values, n, Pending());
      ghost var entry := ReadEntry(Pending());
      values' := values;
      var got := ReadGot();
      if got == None {
        return None, values;
      }
      values' := values + [entry.value.0];
      r := Some(gots + [got.value]);
    }

    /** The entries of an MGET reply, one by one. */
    method ReadEntries(count: nat) returns (r: Option<seq<Got>>)
      requires Valid()
      modifies this`buffered, this`incoming
      ensures Valid()
      ensures match ParseN(ReadEntry, count, old(Pending()))
              case Some((values, rest)) => r == Some(GotAll(values)) && Pending() == rest
              case None => r == None
    {
      ghost var all := ParseN(ReadEntry, count, Pending());
      var gots: seq<Got> := [];
      ghost var values: seq<Option<bytes>> := [];
      AfterNothing(all);
      while |gots| < count
        invariant Valid()
        invariant |gots| <= count && gots == GotAll(values)
        invariant all == After(values, ParseN(ReadEntry, count - |gots|, Pending()))
        decreases count - |gots|
      {
        var more;
        more, values := ReadNext(gots, count - |gots|, values, all);
        if more == None {
          return None;
        }
        gots := more.value;
      }
      AfterLast(values, Pending());
      r := Some(gots);
    }

    /** The reply to multiGet. */
    method ReadGots() returns (r: Outcome<seq<Got>>)
      requires Valid()
      modifies this`buffered, this`incoming
      ensures Valid()
      ensures Follows(GotsRead(old(Pending())), r, Pending())
    {
      ghost var s := Pending();
      var hdr := ReadFull(5);
      if hdr == None {
        return Failed(Broken);
      }
      if hdr.value[0] != OK {
        return Failed(BatchStatus(hdr.value[0]));
      }
      assert hdr.value[1..5] == s[1..5];
      var gots := ReadEntries(FromLE(hdr.value[1..5]));
      r := if gots == None then Failed(Broken) else Done(gots.value);
    }

    /** put and del: only whether it failed. */
    method Put(key: bytes, value: bytes, socketFails: bool, taken: nat) returns (r: Outcome<()>)
      requires Valid() && (writeFailed || out == [])
      modifies this
      ensures Valid() && (writeFailed || out == [])
      ensures SentFrame(!writeFailed, old(sent), sent, RequestFrame(Simple(1, key, value)))
      ensures Acknowledges(if writeFailed then None else GotRead(old(Pending())), r, Pending())
    {
      var reply := Command(PUT, key, value, socketFails, taken);
      r := match reply case Done(_) => Done(()) case Failed(f) => Failed(f);
    }

    method Get(key: bytes, socketFails: bool, taken: nat) returns (r: Outcome<Got>)
      requires Valid() && (writeFailed || out == [])
      modifies this
      ensures Valid() && (writeFailed || out == [])
      ensures SentFrame(!writeFailed, old(sent), sent, RequestFrame(Simple(2, key, [])))
      ensures Follows(if writeFailed then None else GotRead(old(Pending())), r, Pending())
    {
      r := Command(GET, key, [], socketFails, taken);
    }

    method Del(key: bytes, socketFails: bool, taken: nat) returns (r: Outcome<()>)
      requires Valid() && (writeFailed || out == [])
      modifies this
      ensures Valid() && (writeFailed || out == [])
      ensures SentFrame(!writeFailed, old(sent), sent, RequestFrame(Simple(3, key, [])))
      ensures Acknowledges(if writeFailed then None else GotRead(old(Pending())), r, Pending())
    {
      var reply := Command(DEL, key, [], socketFails, taken);
      r := match reply case Done(_) => Done(()) case Failed(f) => Failed(f);
    }

    /** put, get, del, ping and info: a command and its reply. */
    method Command(cmd: byte, key: bytes, value: bytes, socketFails: bool, taken: nat) returns (r: Outcome<Got>)
      requires Valid() && (writeFailed || out == [])
      modifies this
      ensures Valid() && (writeFailed || out == [])
      ensures SentFrame(!writeFailed, old(sent), sent, RequestFrame(Simple(cmd, key, value)))
      ensures var s := old(Pending());
              if writeFailed then r == Failed(Broken) && Pending() == s
              else Follows(GotRead(s), r, Pending())
    {
      var ok := SendCmd(cmd, key, value, socketFails, taken);
      if !ok {
        return Failed(Broken);
      }
      r := ReadResp();
    }

    /** multiPut: all entries in one frame; how many the server says succeeded. */
    method MultiPut(keys: seq<bytes>, values: seq<bytes>, socketFails: bool, taken: nat) returns (r: Outcome<nat>)
      requires Valid() && (writeFailed || out == []) && |keys| <= |values|
      modifies this
      ensures Valid() && (writeFailed || out == [])
      ensures keys == [] ==> r == Done(0) && unchanged(this)
      ensures keys != [] ==> SentFrame(!writeFailed, old(sent), sent, RequestFrame(MPut(Permanent(keys, values))))
      ensures var s := old(Pending());
              keys != [] ==>
                if writeFailed then r == Failed(Broken) && Pending() == s
                else Follows(CountRead(s), r, Pending())
    {
      if |keys| == 0 {
        return Done(0);
      }
      WritePuts(keys, values);
      var ok := Flush(socketFails, taken);
      if !ok {
        return Failed(Broken);
      }
      r := ReadCount();
    }

    /** multiGet: all keys in one frame. */
    method MultiGet(keys: seq<bytes>, socketFails: bool, taken: nat) returns (r: Outcome<seq<Got>>)
      requires Valid() && (writeFailed || out == [])
      modifies this
      ensures Valid() && (writeFailed || out == [])
      ensures keys == [] ==> r == Done([]) && unchanged(this)
      ensures keys != [] ==> SentFrame(!writeFailed, old(sent), sent, RequestFrame(MGet(keys)))
      ensures var s := old(Pending());
              keys != [] ==>
                if writeFailed then r == Failed(Broken) && Pending() == s
                else Follows(GotsRead(s), r, Pending())
    {
      if |keys| == 0 {
        return Done([]);
      }
      WriteGets(keys);
      var ok := Flush(socketFails, taken);
      if !ok {
        return Failed(Broken);
      }
      r := ReadGots();
    }
  }

  /** The header of one entry of multiPut, its TTL -1. */
  function PutHeader(keyLength: nat, valueLength: nat): bytes {
    LE(keyLength, 2) + LE(valueLength, 4) + LE(4294967295, 4)
  }

  lemma SkipEmpty(a: bytes, b: bytes, c: bytes)
    ensures a + [] == a && [] + a == a && (b == [] ==> a + b == a) && (c == [] ==> a + b + c == a + b)
    ensures [] + a + b + c == a + b + c
  {
  }

  lemma Split(a: bytes, n: nat, b: bytes)
    requires n <= |a|
    ensures a[..n] + (a[n..] + b) == a + b
  {
  }

  /** All of the frame when the write succeeds, else a beginning of it. */
  ghost predicate SentFrame(ok: bool, before: bytes, after: bytes, frame: bytes) {
    if ok then after == before + frame else before <= after <= before + frame
  }

  /** The entries multiPut sends: no TTL, which is -1. */
  function Permanent(keys: seq<bytes>, values: seq<bytes>): (r: seq<PutEntry>)
    requires |keys| <= |values|
    ensures |r| == |keys| && forall i :: 0 <= i < |r| ==> r[i] == PutEntry(keys[i], values[i], -1)
  {
    seq(|keys|, i requires 0 <= i < |keys| => PutEntry(keys[i], values[i], -1))
  }

  // ---------- The Go client against the Python client ----------

  /** As Follows, the payload of the reply dropped. */
  ghost predicate Acknowledges(read: Option<(Outcome<Got>, bytes)>, r: Outcome<()>, rest: bytes) {
    match read
    case Some((Done(_), expectedRest)) => r == Done(()) && rest == expectedRest
    case Some((Failed(f), expectedRest)) => r == Failed(f) && rest == expectedRest
    case None => r == Failed(Broken)
  }

  /** Status by status: 0 is found with its payload, 2 not found, anything else an error with the payload
      as its message if there is one. */
  lemma {:induction false} SingleReads(status: byte, payload: bytes, rest: bytes)
    requires |payload| < 4294967296
    ensures GotRead([status] + LE(|payload|, 4) + payload + rest) ==
            Some((if status == 0 then Done(Got(payload, true))
                  else if status == 2 then Done(Got([], false))
                  else if |payload| > 0 then Failed(ServerMessage(payload))
                  else Failed(ServerStatus(status)), rest))
  {
    SingleMeans(status, payload, rest);
  }

  /** multiPut counts exactly the statuses that are 0. */
  lemma {:induction false} CountReads(statuses: bytes, rest: bytes)
    requires |statuses| < 4294967296
    ensures CountRead([0] + LE(|statuses|, 4) + statuses + rest) == Some((Done(multiset(statuses)[0]), rest))
  {
    StatusesMean(statuses, rest, EntryStatusesOf(statuses));
    SuccessesAreZeros(statuses);
  }

  lemma {:induction false} SuccessesAreZeros(statuses: bytes)
    ensures Successes(EntryStatusesOf(statuses)) == multiset(statuses)[0]
  {
    if statuses != [] {
      var n := |statuses| - 1;
      SuccessesAreZeros(statuses[..n]);
      assert EntryStatusesOf(statuses)[..n] == EntryStatusesOf(statuses[..n]);
      assert statuses == statuses[..n] + [statuses[n]];
    }
  }

  /** multiGet finds exactly the entries with status 0 and a nonempty value. */
  lemma {:induction false} GotsReads(entries: seq<ValueEntry>, rest: bytes, gots: seq<Got>)
    requires EntriesFit(entries) && forall e <- entries :: e.status != 0 ==> e.value == []
    ensures GotsRead([0] + LE(|entries|, 4) + EncodeAll(ValueFrame, entries) + rest) == Some((Done(gots), rest))
       <==> |gots| == |entries|
            && forall i :: 0 <= i < |gots| ==> gots[i] == Got(entries[i].value, |entries[i].value| > 0)
  {
    var values := ValuesOf(entries);
    ValuesMean(entries, rest, values);
    var all := GotAll(values);
    forall i | 0 <= i < |entries| ensures all[i] == Got(entries[i].value, |entries[i].value| > 0) {
      assert entries[i] in entries;
    }
    assert gots == all <==> |gots| == |all| && forall i :: 0 <= i < |gots| ==> gots[i] == all[i];
  }

  /** A refused batch raises its status, its payload unread. */
  lemma {:induction false} RefusalReads(status: byte, payload: bytes, rest: bytes)
    requires |payload| < 4294967296 && status != 0
    ensures var s := [status] + LE(|payload|, 4) + payload + rest;
            && CountRead(s) == Some((Failed(BatchStatus(status)), payload + rest))
            && GotsRead(s) == Some((Failed(BatchStatus(status)), payload + rest))
  {
    RefusalMeans(status, payload, rest);
  }

  /** A Python batch without TTLs is byte for byte the Go batch. */
  lemma {:induction false} DefaultBatchIsGoBatch(entries: seq<(bytes, bytes)>, keys: seq<bytes>, values: seq<bytes>)
    requires |keys| == |values| == |entries|
    requires forall i :: 0 <= i < |entries| ==> entries[i] == (keys[i], values[i])
    requires Packs(Permanent(keys, values))
    ensures FrameOf(Op.MultiPut(entries, None)) == Some(RequestFrame(MPut(Permanent(keys, values))))
  {
    BatchSent(entries, None, Permanent(keys, values));
  }

  lemma GetReads(store: Store, key: bytes, rest: bytes)
    requires StoreFits(store)
    ensures GotRead(ReplyFrame(Serve(store, Simple(GET, key, [])).1) + rest)
         == Some((Done(Got(Replies.Lookup(store, key).value, key in store)), rest))
  {
    var e := Replies.Lookup(store, key);
    RespInverts(e.status, e.value, rest);
    Replies.SingleReads(e.status, e.value, rest);
  }

  lemma MultiGetReads(store: Store, keys: seq<bytes>, rest: bytes)
    requires |keys| < 4294967296 && StoreFits(store)
    ensures GotsRead(ReplyFrame(Serve(store, MGet(keys)).1) + rest)
         == Some((Done(GotAll(ValuesOf(LookupAll(store, keys)))), rest))
  {
    ValuesInvert(LookupAll(store, keys), rest);
  }

  /** From the server's replies multiGet reads, in order, what the individual gets read exactly when none
      of the keys has an empty value stored: get finds such a key, multiGet does not. */
  lemma {:induction false} MultiGetIsGetsExactly(store: Store, keys: seq<bytes>, gots: seq<Got>, rest: bytes)
    requires |keys| < 4294967296 && StoreFits(store)
    requires |gots| == |keys|
    requires forall i :: 0 <= i < |keys| ==>
               GotRead(ReplyFrame(Serve(store, Simple(GET, keys[i], [])).1) + rest) == Some((Done(gots[i]), rest))
    ensures GotsRead(ReplyFrame(Serve(store, MGet(keys)).1) + rest) == Some((Done(gots), rest))
       <==> forall k <- keys :: !(k in store && store[k] == [])
  {
    var values := GotAll(ValuesOf(LookupAll(store, keys)));
    MultiGetReads(store, keys, rest);
    forall i | 0 <= i < |keys|
      ensures values[i] == gots[i] <==> !(keys[i] in store && store[keys[i]] == [])
    {
      GetReads(store, keys[i], rest);
    }
    AllOrNone(store, keys, values, gots);
  }

  lemma AllOrNone(store: Store, keys: seq<bytes>, values: seq<Got>, gots: seq<Got>)
    requires |values| == |gots| == |keys|
    requires forall i :: 0 <= i < |keys| ==> (values[i] == gots[i] <==> !(keys[i] in store && store[keys[i]] == []))
    ensures values == gots <==> forall k <- keys :: !(k in store && store[k] == [])
  {
    if forall k <- keys :: !(k in store && store[k] == []) {
      assert forall i :: 0 <= i < |keys| ==> keys[i] in keys;
    }
  }

  // ---------- A connection kept whatever the outcome ----------

  /** The readers of several calls, one after another on one connection. */
  function ReadRun(ops: seq<Op>, s: bytes): Option<(seq<Result<Answer>>, bytes)>
    decreases ops
  {
    if ops == [] then Some(([], s))
    else match Read(ops[0], s)
      case None => None
      case Some((r, rest)) =>
        match ReadRun(ops[1..], rest)
        case None => None
        case Some((rs, rest')) => Some(([r] + rs, rest'))
  }

  predicate AllWellFormed(ops: seq<Op>, replies: seq<Reply>) {
    |ops| == |replies| && forall i :: 0 <= i < |ops| ==> WellFormed(ops[i], replies[i])
  }

  function ExpectedAll(ops: seq<Op>, replies: seq<Reply>): seq<Result<Answer>>
    requires AllWellFormed(ops, replies)
  {
    seq(|ops|, i requires 0 <= i < |ops| => Expected(ops[i], replies[i]))
  }

  /** Every call of the run, read from where the one before it stopped, gives its own reply's result and
      leaves just the later replies and the rest of the stream. */
  ghost predicate EachReadsItsOwn(ops: seq<Op>, replies: seq<Reply>, s: bytes, rest: bytes)
    requires AllWellFormed(ops, replies)
    decreases ops
  {
    if ops == [] then s == rest
    else
      var tail := EncodeAll(ReplyFrame, replies[1..]) + rest;
      Read(ops[0], s) == Some((Expected(ops[0], replies[0]), tail))
      && EachReadsItsOwn(ops[1..], replies[1..], tail, rest)
  }

  /** dbbench releases a connection after every call, failed or not. Each call of a run gets its own
      reply, and nothing else, exactly when no refused batch carries a payload. */
  lemma {:induction false} KeptConnectionStaysInStep(ops: seq<Op>, replies: seq<Reply>, rest: bytes)
    requires AllWellFormed(ops, replies)
    ensures EachReadsItsOwn(ops, replies, EncodeAll(ReplyFrame, replies) + rest, rest)
       <==> forall i :: 0 <= i < |ops| ==> Leftover(ops[i], replies[i]) == []
  {
    if ops == [] {
      assert [] + rest == rest;
    } else {
      var tail := EncodeAll(ReplyFrame, replies[1..]) + rest;
      KeptConnectionStaysInStep(ops[1..], replies[1..], rest);
      FirstReads(ops[0], replies, rest);
      NoLeftovers(ops, replies);
    }
  }

  lemma NoLeftovers(ops: seq<Op>, replies: seq<Reply>)
    requires |ops| == |replies| > 0
    ensures (forall i :: 0 <= i < |ops| ==> Leftover(ops[i], replies[i]) == []) <==>
            Leftover(ops[0], replies[0]) == []
            && forall i :: 0 <= i < |ops[1..]| ==> Leftover(ops[1..][i], replies[1..][i]) == []
  {
    assert forall i :: 0 <= i < |ops[1..]| ==> ops[1..][i] == ops[i + 1] && replies[1..][i] == replies[i + 1];
    if forall i :: 0 <= i < |ops[1..]| ==> Leftover(ops[1..][i], replies[1..][i]) == [] {
      forall i | 0 < i < |ops| ensures Leftover(ops[i], replies[i]) == [] {
        assert Leftover(ops[1..][i - 1], replies[1..][i - 1]) == [];
      }
    }
  }

  lemma FirstReads(op: Op, replies: seq<Reply>, rest: bytes)
    requires replies != [] && WellFormed(op, replies[0])
    ensures var tail := EncodeAll(ReplyFrame, replies[1..]) + rest;
            Read(op, EncodeAll(ReplyFrame, replies) + rest) == Some((Expected(op, replies[0]), tail))
            <==> Leftover(op, replies[0]) == []
  {
    var tail, left := EncodeAll(ReplyFrame, replies[1..]) + rest, Leftover(op, replies[0]);
    ReadInverts(op, replies[0], tail);
    Associate(ReplyFrame(replies[0]), EncodeAll(ReplyFrame, replies[1..]), rest);
    assert |left + tail| == |left| + |tail|;
    assert left == [] ==> left + tail == tail;
  }

  /** And then the results of the run are the results its replies say. */
  lemma {:induction false} OwnRepliesGiveResults(ops: seq<Op>, replies: seq<Reply>, s: bytes, rest: bytes)
    requires AllWellFormed(ops, replies) && EachReadsItsOwn(ops, replies, s, rest)
    ensures ReadRun(ops, s) == Some((ExpectedAll(ops, replies), rest))
  {
    if ops != [] {
      OwnRepliesGiveResults(ops[1..], replies[1..], EncodeAll(ReplyFrame, replies[1..]) + rest, rest);
      assert ExpectedAll(ops, replies) == [Expected(ops[0], replies[0])] + ExpectedAll(ops[1..], replies[1..]);
    }
  }

  /** When one does, the next call takes its payload for a reply: if that payload is itself a frame, a
      get of the next key is given its contents, and the key's own reply is left for the call after. */
  lemma {:induction false} RefusedBatchShiftsReplies(batch: Op, status: byte, frame: bytes, key: bytes, own: Reply)
    requires batch.MultiPut? || batch.MultiGet?
    requires |frame| < 4294967291 && WellFormed(Cmd(GET, key, []), own)
    ensures var ops := [batch, Cmd(GET, key, [])];
            var replies := [Single(ERR, SingleFrame(status, frame)), own];
            && AllWellFormed(ops, replies)
            && ExpectedAll(ops, replies)[1] == Expected(ops[1], own)
            && ReadRun(ops, EncodeAll(ReplyFrame, replies))
               == Some(([Raised(BatchError), Expected(ops[1], Single(status, frame))], ReplyFrame(own)))
  {
    var ops := [batch, Cmd(GET, key, [])];
    var replies := [Single(ERR, SingleFrame(status, frame)), own];
    var last := ReplyFrame(own);
    assert EncodeAll(ReplyFrame, replies) == ReplyFrame(replies[0]) + last by {
      assert EncodeAll(ReplyFrame, replies[1..]) == last + [] == last;
    }
    ReadInverts(batch, replies[0], last);
    ReadInverts(ops[1], Single(status, frame), last);
    assert [] + last == last;
    ReadRunTwo(ops, EncodeAll(ReplyFrame, replies));
  }

  lemma ReadRunTwo(ops: seq<Op>, s: bytes)
    requires |ops| == 2 && Read(ops[0], s).Some? && Read(ops[1], Read(ops[0], s).value.1).Some?
    ensures var first := Read(ops[0], s).value;
            var second := Read(ops[1], first.1).value;
            ReadRun(ops, s) == Some(([first.0, second.0], second.1))
  {
    var first := Read(ops[0], s).value;
    var second := Read(ops[1], first.1).value;
    var rest := ops[1..];
    assert rest[1..] == [] && rest[0] == ops[1];
    assert ReadRun(rest[1..], second.1) == Some(([], second.1));
    assert [second.0] + [] == [second.0] && [first.0] + [second.0] == [first.0, second.0];
    assert ReadRun(rest, first.1) == Some(([second.0], second.1));
  }
}
