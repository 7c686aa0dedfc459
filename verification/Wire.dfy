/** The requests of the binary wire protocol (benchmarks/client.py, dbbench/client.go): their frames,
    and a parser of the documented layout. */
module Wire {
  import opened Bytes
  import opened Framing

  const PUT: byte := 1
  const GET: byte := 2
  const DEL: byte := 3
  const PING: byte := 4
  const INFO: byte := 5
  const MPUT: byte := 6
  const MGET: byte := 7
  const AUTH: byte := 9

  const OK: byte := 0
  const ERR: byte := 1
  const NOT_FOUND: byte := 2

  // ---------- Requests ----------

  datatype PutEntry = PutEntry(key: bytes, value: bytes, ttl: int)

  datatype Request =
    | Simple(cmd: byte, key: bytes, value: bytes)
    | MPut(entries: seq<PutEntry>)
    | MGet(keys: seq<bytes>)

  predicate IsSimple(cmd: byte) {
    cmd in {PUT, GET, DEL, PING, INFO, AUTH}
  }

  /** Two's complement reading and writing of the 32-bit TTL. */
  function Unsigned32(t: int): nat { t % 4294967296 }

  function Signed32(n: nat): int
    requires n < 4294967296
  {
    if n < 2147483648 then n else n - 4294967296
  }

  function Header(cmd: byte, a: nat, b: nat): (h: bytes)
    ensures |h| == 7
  {
    [cmd] + LE(a, 2) + LE(b, 4)
  }

  function EntryFrame(e: PutEntry): bytes {
    LE(|e.key|, 2) + LE(|e.value|, 4) + LE(Unsigned32(e.ttl), 4) + e.key + e.value
  }

  function KeyFrame(key: bytes): bytes {
    LE(|key|, 2) + key
  }

  /** The bytes the client sends for a request. Length fields wrap here; the Python client refuses
      (struct.error) what would wrap, the Go client does not. */
  function RequestFrame(r: Request): bytes {
    match r
    case Simple(cmd, key, value) => Header(cmd, |key|, |value|) + key + value
    case MPut(entries) => Header(MPUT, 0, |entries|) + EncodeAll(EntryFrame, entries)
    case MGet(keys) => Header(MGET, 0, |keys|) + EncodeAll(KeyFrame, keys)
  }

  predicate EntryFits(e: PutEntry) {
    |e.key| < 65536 && |e.value| < 4294967296 && -2147483648 <= e.ttl < 2147483648
  }

  predicate Fits(r: Request) {
    match r
    case Simple(cmd, key, value) => IsSimple(cmd) && |key| < 65536 && |value| < 4294967296
    case MPut(entries) => |entries| < 4294967296 && forall e <- entries :: EntryFits(e)
    case MGet(keys) => |keys| < 4294967296 && forall k <- keys :: |k| < 65536
  }

  function ParseEntry(s: bytes): (r: Option<(PutEntry, bytes)>)
    ensures r.Some? ==> |r.value.1| < |s| && EntryFits(r.value.0)
  {
    if |s| < 10 then None
    else
      Widths();
      var kl, vl, ttl := FromLE(s[..2]), FromLE(s[2..6]), FromLE(s[6..10]);
      if |s| < 10 + kl + vl then None
      else Some((PutEntry(s[10..10 + kl], s[10 + kl..10 + kl + vl], Signed32(ttl)), s[10 + kl + vl..]))
  }

  function ParseKey(s: bytes): (r: Option<(bytes, bytes)>)
    ensures r.Some? ==> |r.value.1| < |s| && |r.value.0| < 65536
  {
    if |s| < 2 then None
    else
      Widths();
      var kl := FromLE(s[..2]);
      if |s| < 2 + kl then None else Some((s[2..2 + kl], s[2 + kl..]))
  }

  /** One request of the documented layout and the bytes after it. */
  function ParseRequest(s: bytes): Option<(Request, bytes)> {
    if |s| < 7 then None
    else
      var cmd, a, b, body := s[0], FromLE(s[1..3]), FromLE(s[3..7]), s[7..];
      if cmd == MPUT then
        match ParseN(ParseEntry, b, body)
        case None => None
        case Some((entries, rest)) => Some((MPut(entries), rest))
      else if cmd == MGET then
        match ParseN(ParseKey, b, body)
        case None => None
        case Some((keys, rest)) => Some((MGet(keys), rest))
      else if IsSimple(cmd) && |body| >= a + b then
        Some((Simple(cmd, body[..a], body[a..a + b]), body[a + b..]))
      else None
  }

  lemma ParseRequestConsumes(s: bytes)
    requires ParseRequest(s).Some?
    ensures |ParseRequest(s).value.1| < |s|
  {
    var b := FromLE(s[3..7]);
    if s[0] == MPUT {
      ParseNShrinks(ParseEntry, b, s[7..]);
    } else if s[0] == MGET {
      ParseNShrinks(ParseKey, b, s[7..]);
    }
  }

  /** All the requests of a byte stream, or none if some frame is malformed or cut short. */
  function ParseStream(s: bytes): Option<seq<Request>>
    decreases |s|
  {
    if s == [] then Some([])
    else match ParseRequest(s)
      case None => None
      case Some((r, rest)) =>
        ParseRequestConsumes(s);
        match ParseStream(rest)
        case None => None
        case Some(rs) => Some([r] + rs)
  }

  lemma {:induction false} ParseEntryInverts(e: PutEntry, rest: bytes)
    requires EntryFits(e)
    ensures ParseEntry(EntryFrame(e) + rest) == Some((e, rest))
  {
    Widths();
    var kl, vl, ttl := |e.key|, |e.value|, Unsigned32(e.ttl);
    RoundTrip(kl, 2);
    RoundTrip(vl, 4);
    RoundTrip(ttl, 4);
    Parts(LE(kl, 2), LE(vl, 4), LE(ttl, 4), e.key, e.value, rest);
  }

  lemma {:induction false} ParseKeyInverts(key: bytes, rest: bytes)
    requires |key| < 65536
    ensures ParseKey(KeyFrame(key) + rest) == Some((key, rest))
  {
    Widths();
    RoundTrip(|key|, 2);
    var s := KeyFrame(key) + rest;
    assert s[..2] == LE(|key|, 2);
    assert s[2..2 + |key|] == key;
    assert s[2 + |key|..] == rest;
  }

  lemma HeaderReads(cmd: byte, a: nat, b: nat, body: bytes)
    ensures var s := Header(cmd, a, b) + body;
            s[0] == cmd && s[1..3] == LE(a, 2) && s[3..7] == LE(b, 4) && s[7..] == body
  {
    var s := Header(cmd, a, b) + body;
    assert s[1..3] == LE(a, 2);
    assert s[3..7] == LE(b, 4);
  }

  lemma {:induction false} ParseSimpleInverts(cmd: byte, key: bytes, value: bytes, rest: bytes)
    requires Fits(Simple(cmd, key, value))
    ensures ParseRequest(RequestFrame(Simple(cmd, key, value)) + rest) == Some((Simple(cmd, key, value), rest))
  {
    Widths();
    var body := key + value + rest;
    RoundTrip(|key|, 2);
    RoundTrip(|value|, 4);
    HeaderReads(cmd, |key|, |value|, body);
    Thirds(key, value, rest);
    SimpleFrame(cmd, key, value, rest);
  }

  lemma SimpleFrame(cmd: byte, key: bytes, value: bytes, rest: bytes)
    ensures RequestFrame(Simple(cmd, key, value)) + rest == Header(cmd, |key|, |value|) + (key + value + rest)
  {
  }

  lemma {:induction false} ParseMPutInverts(entries: seq<PutEntry>, rest: bytes)
    requires Fits(MPut(entries))
    ensures ParseRequest(RequestFrame(MPut(entries)) + rest) == Some((MPut(entries), rest))
  {
    Widths();
    var body := EncodeAll(EntryFrame, entries) + rest;
    RoundTrip(|entries|, 4);
    HeaderReads(MPUT, 0, |entries|, body);
    assert RequestFrame(MPut(entries)) + rest == Header(MPUT, 0, |entries|) + body;
    EntriesInvert(entries);
    ParseNYields(EntryFrame, ParseEntry, entries, entries, rest);
  }

  lemma EntriesInvert(entries: seq<PutEntry>)
    requires forall e <- entries :: EntryFits(e)
    ensures forall e <- entries :: Yields(EntryFrame, ParseEntry, e, e)
  {
    forall e <- entries ensures Yields(EntryFrame, ParseEntry, e, e) {
      forall t: bytes { ParseEntryInverts(e, t); }
    }
  }

  lemma {:induction false} ParseMGetInverts(keys: seq<bytes>, rest: bytes)
    requires Fits(MGet(keys))
    ensures ParseRequest(RequestFrame(MGet(keys)) + rest) == Some((MGet(keys), rest))
  {
    Widths();
    var body := EncodeAll(KeyFrame, keys) + rest;
    RoundTrip(|keys|, 4);
    HeaderReads(MGET, 0, |keys|, body);
    assert RequestFrame(MGet(keys)) + rest == Header(MGET, 0, |keys|) + body;
    forall k <- keys ensures Yields(KeyFrame, ParseKey, k, k) {
      forall t: bytes { ParseKeyInverts(k, t); }
    }
    ParseNYields(KeyFrame, ParseKey, keys, keys, rest);
  }

  /** One frame parses back to its request, whatever follows it. */
  lemma {:induction false} ParseRequestInverts(r: Request, rest: bytes)
    requires Fits(r)
    ensures ParseRequest(RequestFrame(r) + rest) == Some((r, rest))
  {
    match r
    case Simple(cmd, key, value) => ParseSimpleInverts(cmd, key, value, rest);
    case MPut(entries) => ParseMPutInverts(entries, rest);
    case MGet(keys) => ParseMGetInverts(keys, rest);
  }

  /** The concatenation of any list of frames decodes to exactly that list. */
  lemma {:induction false} StreamDecodes(rs: seq<Request>)
    requires forall r <- rs :: Fits(r)
    ensures ParseStream(EncodeAll(RequestFrame, rs)) == Some(rs)
  {
    if rs != [] {
      var rest := EncodeAll(RequestFrame, rs[1..]);
      ParseRequestInverts(rs[0], rest);
      assert EncodeAll(RequestFrame, rs) == RequestFrame(rs[0]) + rest;
      StreamDecodes(rs[1..]);
      assert RequestFrame(rs[0]) + rest != [] by {
        assert |RequestFrame(rs[0])| >= 7;
      }
      assert [rs[0]] + rs[1..] == rs;
    }
  }

  /** Hence two different lists of requests never share a byte stream. */
  lemma {:induction false} StreamIsUnambiguous(rs: seq<Request>, rs': seq<Request>)
    requires forall r <- rs + rs' :: Fits(r)
    requires EncodeAll(RequestFrame, rs) == EncodeAll(RequestFrame, rs')
    ensures rs == rs'
  {
    forall r <- rs ensures Fits(r) { assert r in rs + rs'; }
    forall r <- rs' ensures Fits(r) { assert r in rs + rs'; }
    StreamDecodes(rs);
    StreamDecodes(rs');
  }

  lemma EntriesParsedFit(n: nat, s: bytes)
    ensures ParseN(ParseEntry, n, s).Some? ==> forall e <- ParseN(ParseEntry, n, s).value.0 :: EntryFits(e)
  {
    if n > 0 && ParseEntry(s).Some? {
      EntriesParsedFit(n - 1, ParseEntry(s).value.1);
    }
  }

  lemma KeysParsedFit(n: nat, s: bytes)
    ensures ParseN(ParseKey, n, s).Some? ==> forall k <- ParseN(ParseKey, n, s).value.0 :: |k| < 65536
  {
    if n > 0 && ParseKey(s).Some? {
      KeysParsedFit(n - 1, ParseKey(s).value.1);
    }
  }

  /** Whatever is parsed has lengths that fit their fields. */
  lemma ParsedFits(s: bytes)
    requires ParseRequest(s).Some?
    ensures Fits(ParseRequest(s).value.0)
  {
    Widths();
    var b := FromLE(s[3..7]);
    EntriesParsedFit(b, s[7..]);
    KeysParsedFit(b, s[7..]);
  }

  /** A length field that wraps is never undone: a frame written without length checks (dbbench) is
      understood exactly when its lengths, counts and TTLs fit. */
  lemma {:induction false} UncheckedFrameDecodes(r: Request)
    requires r.Simple? ==> IsSimple(r.cmd)
    ensures ParseRequest(RequestFrame(r)) == Some((r, [])) <==> Fits(r)
  {
    var s := RequestFrame(r);
    if Fits(r) {
      ParseRequestInverts(r, []);
      assert s + [] == s;
    } else if ParseRequest(s).Some? {
      ParsedFits(s);
    }
  }

  // ---------- The layout, byte by byte ----------

  /** [1B command][2B key length][4B value length][key][value]. */
  lemma {:induction false} SingleLayout(cmd: byte, key: bytes, value: bytes)
    requires |key| < 65536 && |value| < 4294967296
    ensures var s := RequestFrame(Simple(cmd, key, value));
            && |s| == 7 + |key| + |value| && s[0] == cmd
            && Holds16(s[1..3], |key|) && Holds32(s[3..7], |value|)
            && s[7..7 + |key|] == key && s[7 + |key|..] == value
  {
    FieldHolds(|key|);
    FieldHolds(|value|);
    HeaderReads(cmd, |key|, |value|, key + value);
    SimpleFrame(cmd, key, value, []);
    assert RequestFrame(Simple(cmd, key, value)) == Header(cmd, |key|, |value|) + (key + value);
    BodyAt(Header(cmd, |key|, |value|), key, value);
  }

  lemma BodyAt(header: bytes, key: bytes, value: bytes)
    requires |header| == 7
    ensures var s := header + (key + value); s[7..7 + |key|] == key && s[7 + |key|..] == value
  {
  }

  /** [6 or 7][2B zero][4B count][entries]. */
  lemma {:induction false} BatchLayout(entries: seq<PutEntry>, keys: seq<bytes>)
    requires |entries| < 4294967296 && |keys| < 4294967296
    ensures var s := RequestFrame(MPut(entries));
            |s| >= 7 && s[..3] == [6, 0, 0] && Holds32(s[3..7], |entries|) && s[7..] == EncodeAll(EntryFrame, entries)
    ensures var s := RequestFrame(MGet(keys));
            |s| >= 7 && s[..3] == [7, 0, 0] && Holds32(s[3..7], |keys|) && s[7..] == EncodeAll(KeyFrame, keys)
  {
    LittleEndian(0, []);
    FieldHolds(|entries|);
    FieldHolds(|keys|);
    HeaderReads(MPUT, 0, |entries|, EncodeAll(EntryFrame, entries));
    HeaderReads(MGET, 0, |keys|, EncodeAll(KeyFrame, keys));
    FirstThree(MPUT, |entries|, EncodeAll(EntryFrame, entries));
    FirstThree(MGET, |keys|, EncodeAll(KeyFrame, keys));
  }

  lemma FirstThree(cmd: byte, n: nat, body: bytes)
    ensures (Header(cmd, 0, n) + body)[..3] == [cmd, 0, 0]
  {
    LittleEndian(0, []);
    assert Header(cmd, 0, n) + body == [cmd] + LE(0, 2) + (LE(n, 4) + body);
  }

  /** [2B key length][4B value length][4B TTL, two's complement][key][value], and [2B key length][key]. */
  lemma {:induction false} EntryLayout(e: PutEntry)
    requires EntryFits(e)
    ensures var s, n := EntryFrame(e), |e.key|;
            && |s| == 10 + n + |e.value|
            && Holds16(s[..2], n) && Holds32(s[2..6], |e.value|)
            && Holds32(s[6..10], if e.ttl >= 0 then e.ttl else e.ttl + 4294967296)
            && s[10..10 + n] == e.key && s[10 + n..] == e.value
    ensures var s := KeyFrame(e.key); |s| == 2 + |e.key| && Holds16(s[..2], |e.key|) && s[2..] == e.key
  {
    FieldHolds(|e.key|);
    FieldHolds(|e.value|);
    TtlField(e.ttl);
    FieldHolds(Unsigned32(e.ttl));
    Parts(LE(|e.key|, 2), LE(|e.value|, 4), LE(Unsigned32(e.ttl), 4), e.key, e.value, []);
    assert EntryFrame(e) + [] == EntryFrame(e);
    Halves(LE(|e.key|, 2), e.key);
  }

  lemma TtlField(t: int)
    requires -2147483648 <= t < 2147483648
    ensures Unsigned32(t) == if t >= 0 then t else t + 4294967296
  {
  }
}
