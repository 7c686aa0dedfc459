/** The record format of VeltrixDBYCSBClient.java: ordered field maps, their compact binary encoding,
    and the decoder that tolerates truncation, as functions. */
module Records {
  import opened Bytes
  import opened Framing

  datatype Field = Field(name: bytes, value: bytes)

  // ---------- LinkedHashMap ----------

  /** A LinkedHashMap from names to values, in insertion order. */
  type Fields = seq<Field>

  predicate Distinct(m: Fields) {
    forall i, j :: 0 <= i < j < |m| ==> m[i].name != m[j].name
  }

  predicate Has(m: Fields, name: bytes) {
    exists i :: 0 <= i < |m| && m[i].name == name
  }

  /** put: a known name keeps its place, a new one goes to the end. */
  function Put(m: Fields, f: Field): Fields {
    if m == [] then [f]
    else if m[0].name == f.name then [f] + m[1..]
    else [m[0]] + Put(m[1..], f)
  }

  function PutAll(m: Fields, fs: Fields): Fields
    decreases fs
  {
    if fs == [] then m else PutAll(Put(m, fs[0]), fs[1..])
  }

  /** get; None for an absent name. */
  function Find(m: Fields, name: bytes): Option<bytes> {
    if m == [] then None else if m[0].name == name then Some(m[0].value) else Find(m[1..], name)
  }

  function Names(m: Fields): seq<bytes> {
    if m == [] then [] else [m[0].name] + Names(m[1..])
  }

  lemma {:induction false} FindIsHas(m: Fields, name: bytes)
    ensures Find(m, name).Some? <==> Has(m, name)
  {
    if m != [] {
      FindIsHas(m[1..], name);
      assert Has(m, name) <==> m[0].name == name || Has(m[1..], name) by {
        if Has(m[1..], name) {
          var i :| 0 <= i < |m[1..]| && m[1..][i].name == name;
          assert m[i + 1].name == name;
        }
        if Has(m, name) && m[0].name != name {
          var i :| 0 <= i < |m| && m[i].name == name;
          assert m[1..][i - 1].name == name;
        }
      }
    }
  }

  lemma {:induction false} PutNew(m: Fields, f: Field)
    requires !Has(m, f.name)
    ensures Put(m, f) == m + [f]
  {
    if m != [] {
      assert m[0].name != f.name;
      assert forall i :: 0 <= i < |m[1..]| ==> m[1..][i] == m[i + 1];
      PutNew(m[1..], f);
    }
  }

  lemma {:induction false} PutNames(m: Fields, f: Field)
    ensures Names(Put(m, f)) == if Find(m, f.name).Some? then Names(m) else Names(m) + [f.name]
  {
    if m != [] && m[0].name != f.name {
      PutNames(m[1..], f);
    }
  }

  lemma {:induction false} PutFind(m: Fields, f: Field, name: bytes)
    ensures Find(Put(m, f), name) == if name == f.name then Some(f.value) else Find(m, name)
  {
    if m != [] && m[0].name != f.name {
      PutFind(m[1..], f, name);
    }
  }

  lemma {:induction false} NamesAt(m: Fields)
    ensures |Names(m)| == |m| && forall i :: 0 <= i < |m| ==> Names(m)[i] == m[i].name
  {
    if m != [] {
      NamesAt(m[1..]);
    }
  }

  predicate NoRepeats(names: seq<bytes>) {
    forall i, j :: 0 <= i < j < |names| ==> names[i] != names[j]
  }

  lemma DistinctByNames(m: Fields)
    ensures Distinct(m) <==> NoRepeats(Names(m))
  {
    NamesAt(m);
  }

  lemma {:induction false} FindByNames(m: Fields, name: bytes)
    ensures Find(m, name).Some? <==> name in Names(m)
  {
    if m != [] {
      FindByNames(m[1..], name);
    }
  }

  lemma {:induction false} PutDistinct(m: Fields, f: Field)
    requires Distinct(m)
    ensures Distinct(Put(m, f))
  {
    PutNames(m, f);
    DistinctByNames(m);
    DistinctByNames(Put(m, f));
    FindByNames(m, f.name);
    if f.name !in Names(m) {
      NoRepeatsSnoc(Names(m), f.name);
    }
  }

  lemma NoRepeatsSnoc(names: seq<bytes>, name: bytes)
    requires NoRepeats(names) && name !in names
    ensures NoRepeats(names + [name])
  {
  }

  lemma {:induction false} PutAllDistinct(m: Fields, fs: Fields)
    requires Distinct(m)
    ensures Distinct(PutAll(m, fs))
    decreases fs
  {
    if fs != [] {
      PutDistinct(m, fs[0]);
      PutAllDistinct(Put(m, fs[0]), fs[1..]);
    }
  }

  lemma TailIsDistinct(m: Fields)
    requires Distinct(m) && m != []
    ensures Distinct(m[1..]) && !Has(m[1..], m[0].name)
  {
  }

  lemma HasSnoc(m: Fields, f: Field, name: bytes)
    ensures Has(m + [f], name) ==> Has(m, name) || f.name == name
  {
    assert forall j :: 0 <= j < |m| ==> (m + [f])[j] == m[j];
  }

  lemma {:induction false} PutAllAppends(m: Fields, fs: Fields)
    requires Distinct(fs) && forall i :: 0 <= i < |fs| ==> !Has(m, fs[i].name)
    ensures PutAll(m, fs) == m + fs
    decreases fs
  {
    if fs == [] {
      assert m + fs == m;
    } else {
      var f, rest := fs[0], fs[1..];
      PutNew(m, f);
      TailIsDistinct(fs);
      forall i | 0 <= i < |rest| ensures !Has(m + [f], rest[i].name) {
        assert rest[i] == fs[i + 1];
        HasSnoc(m, f, rest[i].name);
      }
      PutAllAppends(m + [f], rest);
      assert m + [f] + rest == m + fs;
    }
  }

  /** Merging is map override: the supplied fields have their new values, all others their old ones. */
  lemma {:induction false} PutAllFind(m: Fields, fs: Fields, name: bytes)
    requires Distinct(fs)
    ensures Find(PutAll(m, fs), name) == if Find(fs, name).Some? then Find(fs, name) else Find(m, name)
    decreases fs
  {
    if fs != [] {
      TailIsDistinct(fs);
      PutAllFind(Put(m, fs[0]), fs[1..], name);
      PutFind(m, fs[0], name);
      FindIsHas(fs[1..], name);
    }
  }

  /** The names a merge adds, in the order supplied. */
  function NewNames(m: Fields, fs: Fields): seq<bytes> {
    if fs == [] then []
    else if Find(m, fs[0].name).Some? then NewNames(m, fs[1..])
    else [fs[0].name] + NewNames(m, fs[1..])
  }

  lemma {:induction false} NewNamesAfterPut(m: Fields, f: Field, fs: Fields)
    requires !Has(fs, f.name)
    ensures NewNames(Put(m, f), fs) == NewNames(m, fs)
  {
    if fs != [] {
      assert fs[0].name != f.name;
      assert forall i :: 0 <= i < |fs[1..]| ==> fs[1..][i] == fs[i + 1];
      NewNamesAfterPut(m, f, fs[1..]);
      PutFind(m, f, fs[0].name);
    }
  }

  /** Merging keeps the order of the old fields and appends the new ones in the order supplied. */
  lemma {:induction false} PutAllNames(m: Fields, fs: Fields)
    requires Distinct(fs)
    ensures Names(PutAll(m, fs)) == Names(m) + NewNames(m, fs)
    decreases fs
  {
    if fs != [] {
      var f, rest := fs[0], fs[1..];
      PutAllNames(Put(m, f), rest);
      PutNames(m, f);
      TailIsDistinct(fs);
      NewNamesAfterPut(m, f, rest);
      Associate(Names(m), [f.name], NewNames(m, rest));
    }
  }

  lemma {:induction false} SameByNames(a: Fields, b: Fields)
    requires Distinct(a) && Distinct(b) && Names(a) == Names(b)
    requires forall name :: Find(a, name) == Find(b, name)
    ensures a == b
  {
    if a != [] {
      assert Names(b)[0] == a[0].name == b[0].name;
      assert Find(a, a[0].name) == Find(b, a[0].name);
      TailIsDistinct(a);
      TailIsDistinct(b);
      forall name ensures Find(a[1..], name) == Find(b[1..], name) {
        FindIsHas(a[1..], name);
        FindIsHas(b[1..], name);
        assert Find(a, name) == Find(b, name);
      }
      assert Names(a)[1..] == Names(a[1..]) && Names(b)[1..] == Names(b[1..]);
      SameByNames(a[1..], b[1..]);
    }
  }

  /** Merging the same fields into two maps gives the same map exactly when the results list the same names
      in the same order and the two maps agree on every field not supplied. */
  lemma {:induction false} MergesAgreeExactly(a: Fields, b: Fields, fs: Fields)
    requires Distinct(a) && Distinct(b) && Distinct(fs)
    ensures PutAll(a, fs) == PutAll(b, fs) <==> MergesAgree(a, b, fs)
  {
    forall name
      ensures Find(PutAll(a, fs), name) == Find(PutAll(b, fs), name)
         <==> (Find(fs, name) == None ==> Find(a, name) == Find(b, name))
    {
      PutAllFind(a, fs, name);
      PutAllFind(b, fs, name);
    }
    PutAllDistinct(a, fs);
    PutAllDistinct(b, fs);
    if MergesAgree(a, b, fs) {
      SameByNames(PutAll(a, fs), PutAll(b, fs));
    }
  }

  ghost predicate MergesAgree(a: Fields, b: Fields, fs: Fields) {
    && Names(PutAll(a, fs)) == Names(PutAll(b, fs))
    && forall name :: Find(fs, name) == None ==> Find(a, name) == Find(b, name)
  }

  // ---------- Encoding ----------

  function FieldFrame(f: Field): bytes {
    LE(|f.name|, 2) + LE(|f.value|, 4) + f.name + f.value
  }

  /** The encoding, its 16-bit fields narrowed as Java narrows them. */
  function Encode(m: Fields): bytes {
    LE(|m|, 2) + EncodeAll(FieldFrame, m)
  }

  function Size(m: Fields): (n: nat)
    ensures n >= 2
  {
    if m == [] then 2 else Size(m[..|m| - 1]) + 6 + |m[|m| - 1].name| + |m[|m| - 1].value|
  }

  lemma {:induction false} SizeIsLength(m: Fields)
    ensures |Encode(m)| == Size(m)
  {
    if m != [] {
      var n := |m| - 1;
      SizeIsLength(m[..n]);
      EncodeAllSnoc(FieldFrame, m[..n], m[n]);
      assert m == m[..n] + [m[n]];
    }
  }

  const MAX_ARRAY: nat := 2147483648

  /** serializeBytes; None stands for the exception an int overflow of the size leads to. */
  function Serialize(m: Fields): Option<bytes> {
    if Size(m) < MAX_ARRAY then Some(Encode(m)) else None
  }

  /** A record the format can hold. */
  predicate Fits(m: Fields) {
    |m| < 65536 && ShortNames(m) && Size(m) < MAX_ARRAY
  }

  // ---------- Decoding ----------

  /** Two's complement of 32-bit int arithmetic. */
  function Wrap32(x: int): int {
    (x + 2147483648) % 4294967296 - 2147483648
  }

  function Keeps(filter: Option<set<bytes>>, name: bytes): bool {
    filter == None || filter.value == {} || name in filter.value
  }

  /** One turn of the loop of deserializeToBytes: the buffer ends early, a read underflows, or a field
      is read. */
  datatype Turn = Stop | Underflow | Took(field: Field, rest: bytes)

  function NextField(s: bytes): Turn {
    if |s| < 6 then Stop else NextBody(FromLE(s[..2]), Wrap32(FromLE(s[2..6])), s[6..])
  }

  /** The turn after the two lengths are read. */
  function NextBody(nameLen: nat, valLen: int, s: bytes): Turn {
    if |s| < Wrap32(nameLen + valLen) then Stop
    else if |s| < nameLen || |s| - nameLen < valLen then Underflow
    else
      var end := if valLen > 0 then nameLen + valLen else nameLen;
      Took(Field(s[..nameLen], s[nameLen..end]), s[end..])
  }

  /** The loop, over what is left of the buffer and with its turn as a parameter; None is a
      BufferUnderflowException. */
  function DecodeLoop(next: bytes -> Turn, s: bytes, n: nat, filter: Option<set<bytes>>, acc: Fields): Option<Fields>
    decreases n
  {
    if n == 0 then Some(acc)
    else match next(s)
      case Stop => Some(acc)
      case Underflow => None
      case Took(f, rest) => DecodeLoop(next, rest, n - 1, filter, if Keeps(filter, f.name) then Put(acc, f) else acc)
  }

  /** deserializeToBytes into a map that already holds acc. */
  function Decode(data: bytes, filter: Option<set<bytes>>, acc: Fields): Option<Fields> {
    if |data| < 2 then Some(acc) else DecodeLoop(NextField, data[2..], FromLE(data[..2]), filter, acc)
  }

  // ---------- Filtering is restriction ----------

  function Restrict(m: Fields, filter: Option<set<bytes>>): Fields {
    if m == [] then []
    else if Keeps(filter, m[0].name) then [m[0]] + Restrict(m[1..], filter)
    else Restrict(m[1..], filter)
  }

  /** Restricting to a nonempty set of names selects exactly the fields so named, in their order; a null
      or empty filter selects all. */
  lemma {:induction false} RestrictSelects(m: Fields, filter: Option<set<bytes>>, name: bytes)
    ensures filter == None || filter.value == {} ==> Restrict(m, filter) == m
    ensures filter.Some? && filter.value != {} ==>
              Find(Restrict(m, filter), name) == if name in filter.value then Find(m, name) else None
    ensures Restrict(Restrict(m, filter), filter) == Restrict(m, filter)
  {
    if m != [] {
      RestrictSelects(m[1..], filter, name);
      assert ([m[0]] + Restrict(m[1..], filter))[1..] == Restrict(m[1..], filter);
    }
  }

  function RestrictAll(m: Option<Fields>, filter: Option<set<bytes>>): Option<Fields> {
    match m
    case None => None
    case Some(fs) => Some(Restrict(fs, filter))
  }

  lemma {:induction false} RestrictPut(m: Fields, f: Field, filter: Option<set<bytes>>)
    ensures Restrict(Put(m, f), filter)
         == if Keeps(filter, f.name) then Put(Restrict(m, filter), f) else Restrict(m, filter)
  {
    if m != [] {
      if m[0].name == f.name {
        assert ([f] + m[1..])[1..] == m[1..];
        assert ([m[0]] + Restrict(m[1..], filter))[1..] == Restrict(m[1..], filter);
      } else {
        RestrictPut(m[1..], f, filter);
        assert ([m[0]] + Put(m[1..], f))[1..] == Put(m[1..], f);
        assert ([m[0]] + Restrict(m[1..], filter))[1..] == Restrict(m[1..], filter);
      }
    }
  }

  lemma {:induction false} LoopRestricts(next: bytes -> Turn, s: bytes, n: nat, filter: Option<set<bytes>>, acc: Fields)
    ensures DecodeLoop(next, s, n, filter, Restrict(acc, filter))
         == RestrictAll(DecodeLoop(next, s, n, None, acc), filter)
    decreases n
  {
    if n > 0 && next(s).Took? {
      var Took(f, rest) := next(s);
      RestrictPut(acc, f, filter);
      LoopRestricts(next, rest, n - 1, filter, Put(acc, f));
    }
  }

  /** On every byte string, decoding with a filter is decoding everything and restricting. */
  lemma {:induction false} FilteredDecodeRestricts(data: bytes, filter: Option<set<bytes>>)
    ensures Decode(data, filter, []) == RestrictAll(Decode(data, None, []), filter)
  {
    if |data| >= 2 {
      LoopRestricts(NextField, data[2..], FromLE(data[..2]), filter, []);
    }
  }

  predicate ShortNames(m: Fields) {
    forall f <- m :: |f.name| < 65536
  }

  lemma NextFieldShort(s: bytes)
    ensures NextField(s).Took? ==> |NextField(s).field.name| < 65536
  {
    Widths();
  }

  lemma PutShape(m: Fields, f: Field)
    requires Distinct(m) && ShortNames(m) && |f.name| < 65536
    ensures Distinct(Put(m, f)) && ShortNames(Put(m, f)) && |Put(m, f)| <= |m| + 1
  {
    PutMembers(m, f);
    PutDistinct(m, f);
  }

  lemma {:induction false} LoopShape(next: bytes -> Turn, s: bytes, n: nat, acc: Fields)
    requires forall t :: next(t).Took? ==> |next(t).field.name| < 65536
    requires Distinct(acc) && ShortNames(acc)
    ensures var r := DecodeLoop(next, s, n, None, acc);
            r.Some? ==> Distinct(r.value) && ShortNames(r.value) && |r.value| <= |acc| + n
    decreases n
  {
    if n > 0 && next(s).Took? {
      var Took(f, rest) := next(s);
      PutShape(acc, f);
      LoopShape(next, rest, n - 1, Put(acc, f));
    }
  }

  /** Whatever the bytes, a decoded map has at most 65535 fields, with distinct names of at most 65535 bytes. */
  lemma {:induction false} DecodedShape(data: bytes)
    ensures var r := Decode(data, None, []);
            r.Some? ==> Distinct(r.value) && ShortNames(r.value) && |r.value| < 65536
  {
    Widths();
    forall t ensures NextField(t).Took? ==> |NextField(t).field.name| < 65536 {
      NextFieldShort(t);
    }
    if |data| >= 2 {
      LoopShape(NextField, data[2..], FromLE(data[..2]), []);
    }
  }

  lemma {:induction false} PutMembers(m: Fields, f: Field)
    ensures |Put(m, f)| <= |m| + 1
    ensures forall g <- Put(m, f) :: g == f || g in m
  {
    if m != [] && m[0].name != f.name {
      PutMembers(m[1..], f);
    }
  }

  // ---------- Decoding an encoding, whole or cut short ----------

  /** How many leading fields lie wholly within the first k bytes of the fields' encoding. */
  function Whole(enc: Field -> bytes, m: Fields, k: nat): (n: nat)
    ensures n <= |m|
  {
    if m == [] || k < |enc(m[0])| then 0 else 1 + Whole(enc, m[1..], k - |enc(m[0])|)
  }

  /** Whole counts exactly the prefixes that fit. */
  lemma {:induction false} WholeIsExact(enc: Field -> bytes, m: Fields, k: nat, n: nat)
    requires n <= |m|
    ensures n <= Whole(enc, m, k) <==> |EncodeAll(enc, m[..n])| <= k
  {
    if n > 0 {
      assert m[..n][1..] == m[1..][..n - 1];
      if k >= |enc(m[0])| {
        WholeIsExact(enc, m[1..], k - |enc(m[0])|, n - 1);
      }
    }
  }

  /** The six header bytes of a field frame read back, whatever follows them. */
  lemma FieldHeader(f: Field, body: bytes)
    requires |f.name| < 65536 && |f.value| < MAX_ARRAY
    ensures var s := LE(|f.name|, 2) + LE(|f.value|, 4) + body;
            FromLE(s[..2]) == |f.name| && Wrap32(FromLE(s[2..6])) == |f.value| && s[6..] == body
  {
    Widths();
    RoundTrip(|f.name|, 2);
    RoundTrip(|f.value|, 4);
    Thirds(LE(|f.name|, 2), LE(|f.value|, 4), body);
  }

  /** A turn of the loop by its two lengths, when they are sound. */
  lemma NextFieldBy(s: bytes, n: nat, v: nat, rest: bytes)
    requires |s| >= 6 && FromLE(s[..2]) == n && Wrap32(FromLE(s[2..6])) == v && s[6..] == rest
    requires n + v < MAX_ARRAY
    ensures |rest| < n + v ==> NextField(s) == Stop
    ensures |rest| >= n + v ==> NextField(s) == Took(Field(rest[..n], rest[n..n + v]), rest[n + v..])
  {
    assert Wrap32(n + v) == n + v;
  }

  /** A whole field frame is read as its field, whatever follows. */
  lemma TakesWhole(f: Field, tail: bytes)
    requires |f.name| < 65536 && |f.name| + |f.value| < MAX_ARRAY
    ensures NextField(FieldFrame(f) + tail) == Took(f, tail)
  {
    var body := f.name + f.value + tail;
    FieldHeader(f, body);
    Thirds(f.name, f.value, tail);
    FrameThenTail(f, tail);
    NextFieldBy(FieldFrame(f) + tail, |f.name|, |f.value|, body);
  }

  lemma FrameThenTail(f: Field, tail: bytes)
    ensures FieldFrame(f) + tail == LE(|f.name|, 2) + LE(|f.value|, 4) + (f.name + f.value + tail)
  {
  }

  /** A field frame cut short ends the loop. */
  lemma StopsAtCut(f: Field, k: nat)
    requires |f.name| < 65536 && |f.name| + |f.value| < MAX_ARRAY && k < |FieldFrame(f)|
    ensures NextField(FieldFrame(f)[..k]) == Stop
  {
    if k >= 6 {
      var body := (f.name + f.value)[..k - 6];
      FieldHeader(f, body);
      var s := FieldFrame(f)[..k];
      assert s == LE(|f.name|, 2) + LE(|f.value|, 4) + body;
      NextFieldBy(s, |f.name|, |f.value|, body);
    }
  }

  /** Fields whose names and values the loop can read back. */
  predicate Readable(m: Fields) {
    forall f <- m :: |f.name| < 65536 && |f.name| + |f.value| < MAX_ARRAY
  }

  predicate Disjoint(acc: Fields, m: Fields) {
    forall i, j :: 0 <= i < |acc| && 0 <= j < |m| ==> acc[i].name != m[j].name
  }

  lemma Shift(acc: Fields, m: Fields)
    requires m != [] && Distinct(m) && Disjoint(acc, m)
    ensures !Has(acc, m[0].name)
    ensures Distinct(m[1..]) && Disjoint(acc + [m[0]], m[1..])
  {
  }

  /** The turn reads the frame of f if it is there whole, and stops if it is cut short. */
  ghost predicate ReadsFrame(next: bytes -> Turn, enc: Field -> bytes, f: Field) {
    && (forall tail: bytes :: next(enc(f) + tail) == Took(f, tail))
    && (forall k: nat :: k < |enc(f)| ==> next(enc(f)[..k]) == Stop)
  }

  lemma CutConcat(a: bytes, b: bytes, k: nat)
    requires k <= |a + b|
    ensures (a + b)[..k] == if k < |a| then a[..k] else a + b[..k - |a|]
  {
  }

  lemma Regroup(acc: Fields, m: Fields, n: nat)
    requires m != [] && n < |m|
    ensures (acc + [m[0]]) + m[1..][..n] == acc + m[..1 + n]
  {
  }

  lemma LoopTakesFirst(next: bytes -> Turn, enc: Field -> bytes, f: Field, tail: bytes, n: nat, acc: Fields)
    requires ReadsFrame(next, enc, f) && !Has(acc, f.name)
    ensures DecodeLoop(next, enc(f) + tail, n + 1, None, acc) == DecodeLoop(next, tail, n, None, acc + [f])
    ensures forall k: nat :: k < |enc(f)| ==> DecodeLoop(next, enc(f)[..k], n + 1, None, acc) == Some(acc)
  {
    PutNew(acc, f);
  }

  lemma {:induction false} LoopTakesWhole(next: bytes -> Turn, enc: Field -> bytes, m: Fields, k: nat, acc: Fields)
    requires forall f <- m :: ReadsFrame(next, enc, f)
    requires Distinct(m) && Disjoint(acc, m) && k <= |EncodeAll(enc, m)|
    ensures DecodeLoop(next, EncodeAll(enc, m)[..k], |m|, None, acc) == Some(acc + m[..Whole(enc, m, k)])
  {
    if m == [] {
      assert acc + m[..0] == acc;
    } else {
      var f, rest, tail := m[0], m[1..], EncodeAll(enc, m[1..]);
      var frame := enc(f);
      Shift(acc, m);
      CutConcat(frame, tail, k);
      if k < |frame| {
        LoopTakesFirst(next, enc, f, [], |rest|, acc);
        assert acc + m[..0] == acc;
      } else {
        var k' := k - |frame|;
        LoopTakesFirst(next, enc, f, tail[..k'], |rest|, acc);
        assert forall g <- rest :: g in m;
        LoopTakesWhole(next, enc, rest, k', acc + [f]);
        Regroup(acc, m, Whole(enc, rest, k'));
      }
    }
  }

  lemma {:induction false} FitsIsReadable(m: Fields)
    requires Size(m) < MAX_ARRAY && ShortNames(m)
    ensures Readable(m)
  {
    if m != [] {
      var n := |m| - 1;
      FitsIsReadable(m[..n]);
      assert m[n] in m;
    }
  }

  lemma FramesRead(m: Fields)
    requires Readable(m)
    ensures forall f <- m :: ReadsFrame(NextField, FieldFrame, f)
  {
    forall f <- m ensures ReadsFrame(NextField, FieldFrame, f) {
      forall tail: bytes ensures NextField(FieldFrame(f) + tail) == Took(f, tail) {
        TakesWhole(f, tail);
      }
      forall k: nat | k < |FieldFrame(f)| ensures NextField(FieldFrame(f)[..k]) == Stop {
        StopsAtCut(f, k);
      }
    }
  }

  lemma CutEncoding(count: bytes, body: bytes, k: nat)
    requires |count| == 2 <= k <= 2 + |body|
    ensures (count + body)[..k][..2] == count && (count + body)[..k][2..] == body[..k - 2]
  {
  }

  /** Decoding the first k bytes of an encoding returns exactly the fields wholly contained in them, in
      order; in particular it never raises. */
  lemma {:induction false} TruncatedDecode(m: Fields, k: nat)
    requires Distinct(m) && Fits(m) && k <= |Encode(m)|
    ensures Decode(Encode(m)[..k], None, []) == Some(if k < 2 then [] else m[..Whole(FieldFrame, m, k - 2)])
  {
    if k >= 2 {
      Widths();
      RoundTrip(|m|, 2);
      CutEncoding(LE(|m|, 2), EncodeAll(FieldFrame, m), k);
      FitsIsReadable(m);
      FramesRead(m);
      LoopTakesWhole(NextField, FieldFrame, m, k - 2, []);
      assert [] + m[..Whole(FieldFrame, m, k - 2)] == m[..Whole(FieldFrame, m, k - 2)];
    }
  }

  lemma RoundTrips(m: Fields)
    requires Distinct(m) && Fits(m)
    ensures Decode(Encode(m), None, []) == Some(m)
  {
    var k := |Encode(m)|;
    TruncatedDecode(m, k);
    assert Encode(m)[..k] == Encode(m);
    WholeIsExact(FieldFrame, m, k - 2, |m|);
    assert m[..|m|] == m;
  }

  /** Different records never have the same encoding. */
  lemma {:induction false} EncodeIsInjective(m: Fields, n: Fields)
    requires Distinct(m) && Fits(m) && Distinct(n) && Fits(n)
    ensures Encode(m) == Encode(n) <==> m == n
  {
    RoundTrips(m);
    RoundTrips(n);
  }

  /** A record decodes to itself, same fields in the same order, exactly when it has at most 65535
      fields and no name is longer than 65535 bytes. */
  lemma {:induction false} RoundTripExactly(m: Fields)
    requires Distinct(m) && Size(m) < MAX_ARRAY
    ensures Decode(Encode(m), None, []) == Some(m) <==> Fits(m)
  {
    if Fits(m) {
      RoundTrips(m);
    } else {
      DecodedShape(Encode(m));
    }
  }

  // ---------- The layout, byte by byte ----------

  /** [2B field count] and then, per field, [2B name length][4B value length][name][value]. */
  lemma {:induction false} RecordLayout(m: Fields, f: Field)
    requires |m| < 65536 && |f.name| < 65536 && |f.value| < 2147483648
    ensures var s := Encode(m); |s| >= 2 && Holds16(s[..2], |m|) && s[2..] == EncodeAll(FieldFrame, m)
    ensures var s, n := FieldFrame(f), |f.name|;
            && |s| == 6 + n + |f.value| && Holds16(s[..2], n) && Holds32(s[2..6], |f.value|)
            && s[6..6 + n] == f.name && s[6 + n..] == f.value
  {
    FieldHolds(|m|);
    FieldHolds(|f.name|);
    FieldHolds(|f.value|);
    Halves(LE(|m|, 2), EncodeAll(FieldFrame, m));
    Parts(LE(|f.name|, 2), LE(|f.value|, 4), f.name, f.value, [], []);
    assert FieldFrame(f) + [] + [] == FieldFrame(f);
  }

  /** Wrap32 is the int that agrees with x up to multiples of 2^32. */
  lemma WrapIsInt(x: int, r: int)
    ensures r == Wrap32(x) <==> -2147483648 <= r < 2147483648 && (x - r) % 4294967296 == 0
  {
  }

  // ---------- Other byte strings ----------

  lemma {:induction false} LoopPuts(next: bytes -> Turn, enc: Field -> bytes, fs: Fields, n: nat, tail: bytes,
                                    acc: Fields)
    requires n <= |fs| && forall f <- fs :: ReadsFrame(next, enc, f)
    ensures DecodeLoop(next, EncodeAll(enc, fs) + tail, n, None, acc) == Some(PutAll(acc, fs[..n]))
    decreases n
  {
    if n > 0 {
      var f, rest := fs[0], fs[1..];
      assert f in fs && forall g <- rest :: g in fs;
      Associate(enc(f), EncodeAll(enc, rest), tail);
      assert next(enc(f) + (EncodeAll(enc, rest) + tail)) == Took(f, EncodeAll(enc, rest) + tail);
      LoopPuts(next, enc, rest, n - 1, tail, Put(acc, f));
      assert fs[..n][1..] == rest[..n - 1];
    }
  }

  /** Fields with repeated names, a count below their number, and further bytes: the first count fields are
      put into the map one after another, the rest is ignored. */
  lemma {:induction false} ListDecodes(fs: Fields, n: nat, tail: bytes)
    requires n <= |fs| && n < 65536 && Readable(fs)
    ensures Decode(LE(n, 2) + (EncodeAll(FieldFrame, fs) + tail), None, []) == Some(PutAll([], fs[..n]))
  {
    Widths();
    RoundTrip(n, 2);
    Halves(LE(n, 2), EncodeAll(FieldFrame, fs) + tail);
    FramesRead(fs);
    LoopPuts(NextField, FieldFrame, fs, n, tail, []);
  }

  /** Lengths no encoding has: a negative value length is an empty value if the name is there, and lengths
      whose sum is no int are never found short, so that reading them underflows. */
  lemma {:induction false} UnsoundLengths(n: nat, v: int, s: bytes)
    requires n < 65536 && -2147483648 <= v < 2147483648 && |s| < 2147483648
    ensures v < 0 ==>
              NextBody(n, v, s) == if |s| < n + v then Stop
                                   else if |s| < n then Underflow
                                   else Took(Field(s[..n], []), s[n..])
    ensures n + v >= 2147483648 ==> NextBody(n, v, s) == Underflow
  {
  }
}
