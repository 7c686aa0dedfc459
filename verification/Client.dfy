/** The Python client (benchmarks/client.py): what each call sends, and a connection as an object whose
    bytes arrive in pieces of any size. */
module Client {
  import opened Bytes
  import opened Framing
  import opened Wire
  import opened Replies

  // ---------- What a call sends ----------

  function Normalised(ttl: int): int {
    if ttl == 0 then -1 else ttl
  }

  function TtlsOf(n: nat, ttls: Option<seq<int>>): seq<int> {
    match ttls
    case None => seq(n, _ => -1)
    case Some(ts) => ts
  }

  /** Entries and TTLs paired up, as far as the shorter list goes. */
  function Paired(entries: seq<(bytes, bytes)>, ttls: seq<int>): (r: seq<PutEntry>)
    ensures |r| == if |entries| < |ttls| then |entries| else |ttls|
    ensures forall i :: 0 <= i < |r| ==> r[i] == PutEntry(entries[i].0, entries[i].1, Normalised(ttls[i]))
  {
    seq(if |entries| < |ttls| then |entries| else |ttls|,
        i requires 0 <= i < |entries| && i < |ttls| => PutEntry(entries[i].0, entries[i].1, Normalised(ttls[i])))
  }

  /** An empty batch returns without touching the connection. */
  predicate Sends(op: Op) {
    match op
    case Cmd(_, _, _) => true
    case MultiPut(entries, _) => entries != []
    case MultiGet(keys) => keys != []
  }

  predicate AllFit(pairs: seq<PutEntry>) {
    forall i :: 0 <= i < |pairs| ==> EntryFits(pairs[i])
  }

  /** A put batch announcing n entries and holding these. */
  function BatchFrame(n: nat, pairs: seq<PutEntry>): bytes {
    Header(MPUT, 0, n) + EncodeAll(EntryFrame, pairs)
  }

  /** The bytes one call sends, or None when packing a field raises before anything is sent. */
  function FrameOf(op: Op): Option<bytes> {
    match op
    case Cmd(cmd, key, value) =>
      if |key| < 65536 && |value| < 4294967296 then Some(RequestFrame(Simple(cmd, key, value))) else None
    case MultiPut(entries, ttls) =>
      var pairs := Paired(entries, TtlsOf(|entries|, ttls));
      if |entries| < 4294967296 && AllFit(pairs) then Some(BatchFrame(|entries|, pairs)) else None
    case MultiGet(keys) =>
      if Fits(MGet(keys)) then Some(RequestFrame(MGet(keys))) else None
  }

  /** The request the caller means, with TTL 0 normalised to -1. */
  function RequestOf(op: Op): Request {
    match op
    case Cmd(cmd, key, value) => Simple(cmd, key, value)
    case MultiPut(entries, ttls) => MPut(Paired(entries, TtlsOf(|entries|, ttls)))
    case MultiGet(keys) => MGet(keys)
  }

  predicate ShortOfTtls(op: Op) {
    op.MultiPut? && op.ttls.Some? && |op.ttls.value| < |op.entries|
  }

  /** What a call sends is understood as the request it means exactly when a put batch has a TTL for
      each entry; with fewer, the server is left waiting for entries that never come. */
  lemma {:induction false} SentIsUnderstood(op: Op)
    requires FrameOf(op).Some? && (op.Cmd? ==> IsSimple(op.cmd))
    ensures ParseStream(FrameOf(op).value) == Some([RequestOf(op)]) <==> !ShortOfTtls(op)
    ensures ShortOfTtls(op) ==> ParseRequest(FrameOf(op).value) == None
  {
    var r := RequestOf(op);
    if ShortOfTtls(op) {
      Widths();
      var frame, n := FrameOf(op).value, |op.entries|;
      Wire.HeaderReads(MPUT, 0, n, EncodeAll(EntryFrame, r.entries));
      RoundTrip(n, 4);
      EntriesInvert(r.entries);
      ParseNRunsOut(EntryFrame, ParseEntry, r.entries, n);
      assert ParseRequest(frame) == None;
    } else {
      assert FrameOf(op) == Some(RequestFrame(r));
      assert EncodeAll(RequestFrame, [r]) == RequestFrame(r) + [] == RequestFrame(r);
      StreamDecodes([r]);
    }
  }

  // ---------- What is sent, told without the functions above ----------

  /** The entries a batch put means: no list of TTLs is -1 for all, and a TTL of 0 is -1. */
  predicate Means(entries: seq<(bytes, bytes)>, ttls: Option<seq<int>>, puts: seq<PutEntry>) {
    && |puts| == |entries| && (ttls.Some? ==> |ttls.value| >= |entries|)
    && forall i :: 0 <= i < |puts| ==>
         && puts[i].key == entries[i].0 && puts[i].value == entries[i].1
         && puts[i].ttl == if ttls.None? || ttls.value[i] == 0 then -1 else ttls.value[i]
  }

  /** Lengths and TTLs that fit their fields of 16, 32 and signed 32 bits. */
  predicate Packs(puts: seq<PutEntry>) {
    |puts| <= 4294967295
    && forall p <- puts :: |p.key| <= 65535 && |p.value| <= 4294967295 && -2147483648 <= p.ttl <= 2147483647
  }

  /** A batch put with a TTL for each entry, or none at all, sends the frame of the entries it means, which
      decodes to them, exactly when everything fits; else it sends nothing. */
  lemma {:induction false} BatchSent(entries: seq<(bytes, bytes)>, ttls: Option<seq<int>>, puts: seq<PutEntry>)
    requires Means(entries, ttls, puts)
    ensures FrameOf(MultiPut(entries, ttls)) == if Packs(puts) then Some(RequestFrame(MPut(puts))) else None
    ensures Packs(puts) ==> ParseStream(RequestFrame(MPut(puts))) == Some([MPut(puts)])
  {
    var pairs := Paired(entries, TtlsOf(|entries|, ttls));
    assert pairs == puts;
    Widths();
    if Packs(puts) {
      assert EncodeAll(RequestFrame, [MPut(puts)]) == RequestFrame(MPut(puts)) + [] == RequestFrame(MPut(puts));
      StreamDecodes([MPut(puts)]);
    } else if |puts| <= 4294967295 {
      var p :| p in puts && !(|p.key| <= 65535 && |p.value| <= 4294967295 && -2147483648 <= p.ttl <= 2147483647);
      assert !EntryFits(p);
    }
  }

  /** A single command or a batch get packs exactly when its lengths fit. */
  lemma {:induction false} OthersSent(cmd: byte, key: bytes, value: bytes, keys: seq<bytes>)
    ensures FrameOf(Cmd(cmd, key, value)) ==
            if |key| <= 65535 && |value| <= 4294967295 then Some(RequestFrame(Simple(cmd, key, value))) else None
    ensures FrameOf(MultiGet(keys)) ==
            if |keys| <= 4294967295 && forall k <- keys :: |k| <= 65535 then Some(RequestFrame(MGet(keys))) else None
  {
    Widths();
  }

  // ---------- A connection ----------

  /** What the socket will hand over: pieces of the byte stream in any segmentation, with failures
      (a time-out, a reset) anywhere between them. When nothing is left the peer has closed. */
  datatype Arrival = Chunk(data: bytes) | Fault

  /** The bytes that arrive before the next failure. */
  function Ready(incoming: seq<Arrival>): bytes {
    if incoming == [] || incoming[0].Fault? then [] else incoming[0].data + Ready(incoming[1..])
  }

  predicate NonemptyChunks(incoming: seq<Arrival>) {
    forall a <- incoming :: a.Chunk? ==> a.data != []
  }

  /** Nothing unread plus new arrivals: the new bytes, or none if a stale failure comes first. */
  lemma ReadyAfterNothing(stale: seq<Arrival>, arrivals: seq<Arrival>)
    requires Ready(stale) == [] && NonemptyChunks(stale)
    ensures Ready(stale + arrivals) == if stale == [] then Ready(arrivals) else []
  {
    if stale == [] {
      assert stale + arrivals == arrivals;
    }
  }

  predicate IsIoError(e: Error) {
    e == ConnectionClosed || e == SocketFault
  }

  /** A call's result agrees with a reader of the arrived bytes: with enough bytes it is the reader's
      result, and the reader's rest is what remains; without, it is an I/O error. */
  ghost predicate Agrees<T>(read: Option<(Result<T>, bytes)>, r: Result<T>, rest: bytes) {
    match read
    case Some((expected, expectedRest)) => r == expected && rest == expectedRest
    case None => r.Raised? && IsIoError(r.error)
  }

  /** The ranges struct.pack accepts, and the ten bytes it packs. */
  predicate EntryPacks(keyLength: nat, valueLength: nat, ttl: int) {
    keyLength < 65536 && valueLength < 4294967296 && -2147483648 <= ttl < 2147483648
  }

  function EntryHeader(keyLength: nat, valueLength: nat, ttl: int): bytes {
    LE(keyLength, 2) + LE(valueLength, 4) + LE(Unsigned32(ttl), 4)
  }

  lemma BatchFrameNext(n: nat, pairs: seq<PutEntry>, i: nat)
    requires i < |pairs|
    ensures var e := pairs[i];
            BatchFrame(n, pairs[..i + 1]) ==
            BatchFrame(n, pairs[..i]) + EntryHeader(|e.key|, |e.value|, e.ttl) + e.key + e.value
  {
    var e, before := pairs[i], EncodeAll(EntryFrame, pairs[..i]);
    EncodeAllNext(EntryFrame, pairs, i);
    Associate(Header(MPUT, 0, n), before, EntryFrame(e));
  }

  /** The buffer of multi_put, grown entry by entry; None if packing an entry raises. */
  method PutFrame(entries: seq<(bytes, bytes)>, ts: seq<int>) returns (r: Option<bytes>)
    ensures r == if |entries| < 4294967296 && AllFit(Paired(entries, ts))
                 then Some(BatchFrame(|entries|, Paired(entries, ts))) else None
  {
    var n := |entries|;
    if n >= 4294967296 {
      return None;
    }
    ghost var pairs := Paired(entries, ts);
    var buf := Header(MPUT, 0, n);
    assert buf == BatchFrame(n, pairs[..0]);
    var i := 0;
    while i < n && i < |ts|
      invariant 0 <= i <= |pairs|
      invariant forall j :: 0 <= j < i ==> EntryFits(pairs[j])
      invariant buf == BatchFrame(n, pairs[..i])
    {
      var (key, value) := entries[i];
      var ttl := if ts[i] == 0 then -1 else ts[i];
      assert pairs[i] == PutEntry(key, value, ttl);
      if !EntryPacks(|key|, |value|, ttl) {
        assert !EntryFits(pairs[i]);
        return None;
      }
      BatchFrameNext(n, pairs, i);
      buf := buf + EntryHeader(|key|, |value|, ttl);
      buf := buf + key;
      buf := buf + value;
      i := i + 1;
    }
    assert pairs[..i] == pairs;
    r := Some(buf);
  }

  /** The buffer of multi_get, grown key by key; None if packing a key raises. */
  method GetFrame(keys: seq<bytes>) returns (r: Option<bytes>)
    ensures r == if Fits(MGet(keys)) then Some(RequestFrame(MGet(keys))) else None
  {
    var n := |keys|;
    if n >= 4294967296 {
      return None;
    }
    var buf := Header(MGET, 0, n);
    for i := 0 to n
      invariant forall j :: 0 <= j < i ==> |keys[j]| < 65536
      invariant buf == Header(MGET, 0, n) + EncodeAll(KeyFrame, keys[..i])
    {
      if |keys[i]| >= 65536 {
        return None;
      }
      EncodeAllNext(KeyFrame, keys, i);
      Associate(buf, LE(|keys[i]|, 2), keys[i]);
      Associate(Header(MGET, 0, n), EncodeAll(KeyFrame, keys[..i]), KeyFrame(keys[i]));
      buf := buf + LE(|keys[i]|, 2);
      buf := buf + keys[i];
    }
    assert keys[..n] == keys;
    r := Some(buf);
  }

  class VeltrixDBClient {
    var sent: bytes             // everything written to the socket
    var incoming: seq<Arrival>  // everything the socket has yet to deliver

    ghost predicate Valid()
      reads this
    {
      NonemptyChunks(incoming)
    }

    constructor ()
      ensures Valid() && sent == [] && incoming == []
    {
      sent, incoming := [], [];
    }

    /** The environment: more of the peer's bytes, or failures, are on their way. */
    method Deliver(arrivals: seq<Arrival>)
      requires Valid() && NonemptyChunks(arrivals)
      modifies this`incoming
      ensures Valid() && incoming == old(incoming) + arrivals
    {
      incoming := incoming + arrivals;
    }

    /** socket.recv: at least one and at most n bytes; no bytes once the peer has closed. */
    method SocketRecv(n: nat) returns (r: Result<bytes>)
      requires Valid() && n > 0
      modifies this`incoming
      ensures Valid()
      ensures r.Ok? ==> |r.value| <= n && Ready(old(incoming)) == r.value + Ready(incoming)
      ensures r.Ok? && r.value == [] ==> old(incoming) == [] == incoming
      ensures r.Raised? ==> r.error == SocketFault && Ready(old(incoming)) == []
      ensures |incoming| <= old(|incoming|)
      ensures Fault in incoming ==> Fault in old(incoming)
    {
      if incoming == [] {
        return Ok([]);
      }
      var head := incoming[0];
      match head
      case Fault =>
        incoming := incoming[1..];
        r := Raised(SocketFault);
      case Chunk(data) =>
        if |data| <= n {
          incoming := incoming[1..];
          r := Ok(data);
        } else {
          incoming := [Chunk(data[n..])] + incoming[1..];
          assert data[..n] + data[n..] == data;
          assert data[..n] + (data[n..] + Ready(incoming[1..])) == data + Ready(incoming[1..]);
          r := Ok(data[..n]);
        }
    }

    /** _recv: exactly the next n bytes, however they are cut into pieces; it raises only if fewer
        than n arrive. */
    method Recv(n: nat) returns (r: Result<bytes>)
      requires Valid()
      modifies this`incoming
      ensures Valid()
      ensures r.Ok? <==> |Ready(old(incoming))| >= n
      ensures r.Ok? ==> r.value == Ready(old(incoming))[..n] && Ready(incoming) == Ready(old(incoming))[n..]
      ensures r.Raised? ==> IsIoError(r.error)
    {
      var chunks: bytes := [];
      while |chunks| < n
        invariant Valid()
        invariant |chunks| <= n && Ready(old(incoming)) == chunks + Ready(incoming)
        decreases n - |chunks|
      {
        var chunk := SocketRecv(n - |chunks|);
        if chunk.Raised? {
          return Raised(chunk.error);
        }
        if chunk.value == [] {
          return Raised(ConnectionClosed);
        }
        Associate(chunks, chunk.value, Ready(incoming));
        chunks := chunks + chunk.value;
      }
      Halves(chunks, Ready(incoming));
      r := Ok(chunks);
    }

    /** _resp: one reply frame. */
    method Resp() returns (r: Result<Option<bytes>>)
      requires Valid()
      modifies this`incoming
      ensures Valid()
      ensures Agrees(ReadResp(Ready(old(incoming))), r, Ready(incoming))
    {
      ghost var s := Ready(incoming);
      var hdr := Recv(5);
      if hdr.Raised? {
        return Raised(hdr.error);
      }
      var status, n := hdr.value[0], FromLE(hdr.value[1..5]);
      assert hdr.value[1..5] == s[1..5];
      var payload := [];
      if n > 0 {
        var p := Recv(n);
        if p.Raised? {
          return Raised(p.error);
        }
        payload := p.value;
      }
      assert payload == s[5..5 + n] && Ready(incoming) == s[5 + n..];
      if status == OK {
        r := Ok(if payload == [] then None else Some(payload));
      } else if status == NOT_FOUND {
        r := Ok(None);
      } else {
        r := Raised(ServerError(payload));
      }
    }

    /** _cmd: send a single-key frame. */
    method SendCmd(cmd: byte, key: bytes, value: bytes) returns (r: Result<()>)
      modifies this`sent
      ensures match FrameOf(Cmd(cmd, key, value))
              case Some(frame) => r == Ok(()) && sent == old(sent) + frame
              case None => r == Raised(PackError) && sent == old(sent)
    {
      if |key| >= 65536 || |value| >= 4294967296 {
        return Raised(PackError);
      }
      var hdr := Header(cmd, |key|, |value|);
      sent := sent + (hdr + key + value);
      r := Ok(());
    }

    /** put and delete return nothing, ping neither. */
    method Put(key: bytes, value: bytes) returns (r: Result<()>)
      requires Valid()
      modifies this
      ensures Valid() && SendsOnly(1, key, value, old(sent), sent)
      ensures Packable(key, value) ==> Acknowledged(ReadResp(Ready(old(incoming))), r, Ready(incoming))
      ensures !Packable(key, value) ==> r == Raised(PackError) && unchanged(this)
    {
      var reply := Command(PUT, key, value);
      r := match reply case Ok(_) => Ok(()) case Raised(e) => Raised(e);
    }

    method Get(key: bytes) returns (r: Result<Option<bytes>>)
      requires Valid()
      modifies this
      ensures Valid() && SendsOnly(2, key, [], old(sent), sent)
      ensures Packable(key, []) ==> Agrees(ReadResp(Ready(old(incoming))), r, Ready(incoming))
      ensures !Packable(key, []) ==> r == Raised(PackError) && unchanged(this)
    {
      r := Command(GET, key, []);
    }

    method Delete(key: bytes) returns (r: Result<()>)
      requires Valid()
      modifies this
      ensures Valid() && SendsOnly(3, key, [], old(sent), sent)
      ensures Packable(key, []) ==> Acknowledged(ReadResp(Ready(old(incoming))), r, Ready(incoming))
      ensures !Packable(key, []) ==> r == Raised(PackError) && unchanged(this)
    {
      var reply := Command(DEL, key, []);
      r := match reply case Ok(_) => Ok(()) case Raised(e) => Raised(e);
    }

    method Ping() returns (r: Result<()>)
      requires Valid()
      modifies this
      ensures Valid() && SendsOnly(4, [], [], old(sent), sent)
      ensures Acknowledged(ReadResp(Ready(old(incoming))), r, Ready(incoming))
    {
      var reply := Command(PING, [], []);
      r := match reply case Ok(_) => Ok(()) case Raised(e) => Raised(e);
    }

    /** The server's text, empty if it sends none. */
    method Info() returns (r: Result<bytes>)
      requires Valid()
      modifies this
      ensures Valid() && SendsOnly(5, [], [], old(sent), sent)
      ensures match ReadResp(Ready(old(incoming)))
              case Some((Ok(Some(text)), rest)) => r == Ok(text) && Ready(incoming) == rest
              case Some((Ok(None), rest)) => r == Ok([]) && Ready(incoming) == rest
              case Some((Raised(e), rest)) => r == Raised(e) && Ready(incoming) == rest
              case None => r.Raised? && IsIoError(r.error)
    {
      var reply := Command(INFO, [], []);
      r := match reply case Ok(Some(text)) => Ok(text) case Ok(None) => Ok([]) case Raised(e) => Raised(e);
    }

    /** put, get, delete, ping, info and auth: a command and its reply. */
    method Command(cmd: byte, key: bytes, value: bytes) returns (r: Result<Option<bytes>>)
      requires Valid()
      modifies this
      ensures Valid()
      ensures match FrameOf(Cmd(cmd, key, value))
              case Some(frame) =>
                sent == old(sent) + frame && Agrees(ReadResp(Ready(old(incoming))), r, Ready(incoming))
              case None => r == Raised(PackError) && unchanged(this)
    {
      var ok := SendCmd(cmd, key, value);
      if ok.Raised? {
        return Raised(ok.error);
      }
      r := Resp();
    }

    /** multi_put: build one frame in a growing buffer, send it, read the per-entry statuses. */
    method MultiPut(entries: seq<(bytes, bytes)>, ttls: Option<seq<int>>) returns (r: Result<seq<Option<byte>>>)
      requires Valid()
      modifies this
      ensures Valid()
      ensures entries == [] ==> r == Ok([]) && unchanged(this)
      ensures entries != [] ==>
                match FrameOf(Op.MultiPut(entries, ttls))
                case Some(frame) =>
                  sent == old(sent) + frame && Agrees(ReadStatuses(Ready(old(incoming))), r, Ready(incoming))
                case None => r == Raised(PackError) && unchanged(this)
      ensures forall puts :: entries != [] && Means(entries, ttls, puts) ==>
                sent == if Packs(puts) then old(sent) + RequestFrame(MPut(puts)) else old(sent)
    {
      forall puts | Means(entries, ttls, puts)
        ensures FrameOf(Op.MultiPut(entries, ttls)) == if Packs(puts) then Some(RequestFrame(MPut(puts))) else None
      {
        BatchSent(entries, ttls, puts);
      }
      var n := |entries|;
      if n == 0 {
        return Ok([]);
      }
      var buf := PutFrame(entries, TtlsOf(n, ttls));
      if buf == None {
        return Raised(PackError);
      }
      sent := sent + buf.value;
      r := ReceiveStatuses();
    }

    method ReceiveStatuses() returns (r: Result<seq<Option<byte>>>)
      requires Valid()
      modifies this`incoming
      ensures Valid()
      ensures Agrees(ReadStatuses(Ready(old(incoming))), r, Ready(incoming))
    {
      ghost var s := Ready(incoming);
      var hdr := Recv(5);
      if hdr.Raised? {
        return Raised(hdr.error);
      }
      if hdr.value[0] != OK {
        return Raised(BatchError);
      }
      assert hdr.value[1..5] == s[1..5];
      var count := FromLE(hdr.value[1..5]);
      var statuses := Recv(count);
      if statuses.Raised? {
        return Raised(statuses.error);
      }
      assert statuses.value == s[5..5 + count];
      r := Ok(EntryStatusesOf(statuses.value));
    }

    /** multi_get: build one frame in a growing buffer, send it, read the entries one by one. */
    method MultiGet(keys: seq<bytes>) returns (r: Result<seq<Option<bytes>>>)
      requires Valid()
      modifies this
      ensures Valid()
      ensures keys == [] ==> r == Ok([]) && unchanged(this)
      ensures keys != [] ==>
                match FrameOf(Op.MultiGet(keys))
                case Some(frame) =>
                  sent == old(sent) + frame && Agrees(ReadValues(Ready(old(incoming))), r, Ready(incoming))
                case None => r == Raised(PackError) && unchanged(this)
    {
      var n := |keys|;
      if n == 0 {
        return Ok([]);
      }
      var buf := GetFrame(keys);
      if buf == None {
        return Raised(PackError);
      }
      sent := sent + buf.value;
      r := ReceiveValues();
    }

    /** One entry of an MGET reply. */
    method ReceiveEntry() returns (r: Result<Option<bytes>>)
      requires Valid()
      modifies this`incoming
      ensures Valid()
      ensures match ReadEntry(Ready(old(incoming)))
              case Some((value, rest)) => r == Ok(value) && Ready(incoming) == rest
              case None => r.Raised? && IsIoError(r.error)
    {
      ghost var s := Ready(incoming);
      var ent := Recv(5);
      if ent.Raised? {
        return Raised(ent.error);
      }
      assert ent.value[1..5] == s[1..5];
      var valLen := FromLE(ent.value[1..5]);
      if ent.value[0] == OK && valLen > 0 {
        var v := Recv(valLen);
        if v.Raised? {
          return Raised(v.error);
        }
        assert v.value == s[5..5 + valLen];
        r := Ok(Some(v.value));
      } else {
        r := Ok(None);
      }
    }

    /** One more of the n entries still to come. */
    method ReceiveNext(results: seq<Option<bytes>>, n: nat, ghost all: Option<(seq<Option<bytes>>, bytes)>)
      returns (r: Result<seq<Option<bytes>>>)
      requires Valid() && n > 0 && all == After(results, ParseN(ReadEntry, n, Ready(incoming)))
      modifies this`incoming
      ensures Valid()
      ensures r.Ok? ==> |r.value| == |results| + 1
      ensures r.Ok? ==> all == After(r.value, ParseN(ReadEntry, n - 1, Ready(incoming)))
      ensures r.Raised? ==> all == None && IsIoError(r.error)
    {
      EntryNext(all, results, n, Ready(incoming));
      var entry := ReceiveEntry();
      r := match entry case Ok(v) => Ok(results + [v]) case Raised(e) => Raised(e);
    }

    /** The entries of an MGET reply, one by one. */
    method ReceiveEntries(count: nat) returns (r: Result<seq<Option<bytes>>>)
      requires Valid()
      modifies this`incoming
      ensures Valid()
      ensures match ParseN(ReadEntry, count, Ready(old(incoming)))
              case Some((values, rest)) => r == Ok(values) && Ready(incoming) == rest
              case None => r.Raised? && IsIoError(r.error)
    {
      ghost var all := ParseN(ReadEntry, count, Ready(incoming));
      var results: seq<Option<bytes>> := [];
      AfterNothing(all);
      while |results| < count
        invariant Valid()
        invariant |results| <= count
        invariant all == After(results, ParseN(ReadEntry, count - |results|, Ready(incoming)))
        decreases count - |results|
      {
        var more := ReceiveNext(results, count - |results|, all);
        if more.Raised? {
          return more;
        }
        results := more.value;
      }
      AfterLast(results, Ready(incoming));
      r := Ok(results);
    }

    method ReceiveValues() returns (r: Result<seq<Option<bytes>>>)
      requires Valid()
      modifies this`incoming
      ensures Valid()
      ensures Agrees(ReadValues(Ready(old(incoming))), r, Ready(incoming))
    {
      ghost var s := Ready(incoming);
      var hdr := Recv(5);
      if hdr.Raised? {
        return Raised(hdr.error);
      }
      if hdr.value[0] != OK {
        return Raised(BatchError);
      }
      assert hdr.value[1..5] == s[1..5];
      r := ReceiveEntries(FromLE(hdr.value[1..5]));
    }

    /** Any one call. */
    method Call(op: Op) returns (r: Result<Answer>)
      requires Valid()
      modifies this
      ensures Valid()
      ensures !Sends(op) ==> r.Ok? && unchanged(this)
      ensures Sends(op) ==>
                match FrameOf(op)
                case Some(frame) =>
                  sent == old(sent) + frame && Agrees(Read(op, Ready(old(incoming))), r, Ready(incoming))
                case None => r == Raised(PackError) && unchanged(this)
    {
      match op
      case Cmd(cmd, key, value) =>
        var payload := Command(cmd, key, value);
        r := match payload case Ok(v) => Ok(Payload(v)) case Raised(e) => Raised(e);
      case MultiPut(entries, ttls) =>
        var statuses := MultiPut(entries, ttls);
        r := match statuses case Ok(v) => Ok(EntryStatuses(v)) case Raised(e) => Raised(e);
      case MultiGet(keys) =>
        var values := MultiGet(keys);
        r := match values case Ok(v) => Ok(Payloads(v)) case Raised(e) => Raised(e);
    }
  }

  predicate Packable(key: bytes, value: bytes) {
    |key| <= 65535 && |value| <= 4294967295
  }

  /** One frame of this command is sent, or none if it does not pack. */
  ghost predicate SendsOnly(cmd: byte, key: bytes, value: bytes, before: bytes, after: bytes) {
    after == if Packable(key, value) then before + RequestFrame(Simple(cmd, key, value)) else before
  }

  /** As Agrees, the payload of the reply dropped. */
  ghost predicate Acknowledged(read: Option<(Result<Option<bytes>>, bytes)>, r: Result<()>, rest: bytes) {
    match read
    case Some((Ok(_), expectedRest)) => r == Ok(()) && rest == expectedRest
    case Some((Raised(e), expectedRest)) => r == Raised(e) && rest == expectedRest
    case None => r.Raised? && IsIoError(r.error)
  }

  /** The results read so far, followed by those still to be parsed. */
  ghost function After<T>(xs: seq<T>, r: Option<(seq<T>, bytes)>): Option<(seq<T>, bytes)> {
    match r
    case None => None
    case Some((ys, rest)) => Some((xs + ys, rest))
  }

  lemma AfterNothing<T>(r: Option<(seq<T>, bytes)>)
    ensures After([], r) == r
  {
    if r.Some? {
      assert [] + r.value.0 == r.value.0;
    }
  }

  lemma AfterLast(results: seq<Option<bytes>>, s: bytes)
    ensures After(results, ParseN(ReadEntry, 0, s)) == Some((results, s))
  {
    assert results + [] == results;
  }

  lemma AfterSnoc<T>(xs: seq<T>, x: T, r: Option<(seq<T>, bytes)>)
    ensures After(xs, After([x], r)) == After(xs + [x], r)
  {
    if r.Some? {
      assert xs + ([x] + r.value.0) == (xs + [x]) + r.value.0;
    }
  }

  /** One more entry of an MGET reply, or none any more. */
  lemma EntryNext(all: Option<(seq<Option<bytes>>, bytes)>, results: seq<Option<bytes>>, n: nat, s: bytes)
    requires n > 0 && all == After(results, ParseN(ReadEntry, n, s))
    ensures match ReadEntry(s)
            case None => all == None
            case Some((value, rest)) => all == After(results + [value], ParseN(ReadEntry, n - 1, rest))
  {
    if ReadEntry(s).Some? {
      var (value, rest) := ReadEntry(s).value;
      AfterSnoc(results, value, ParseN(ReadEntry, n - 1, rest));
    }
  }
}
