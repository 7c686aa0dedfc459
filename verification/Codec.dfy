/** The serializer and deserializer of VeltrixDBYCSBClient.java over a cursor into a byte array. */
module Codec {
  import opened Bytes
  import opened Framing
  import opened Records

  /** java.nio.ByteBuffer in little-endian order: a fixed array and a position. */
  class ByteBuffer {
    const data: array<byte>
    var position: nat

    ghost predicate Valid()
      reads this
    {
      position <= data.Length
    }

    function Remaining(): nat
      requires Valid()
      reads this
    {
      data.Length - position
    }

    /** allocate, or wrap of an array with these contents. */
    constructor (contents: bytes)
      ensures Valid() && position == 0 && data[..] == contents && fresh(data)
    {
      data := new byte[|contents|](i requires 0 <= i < |contents| => contents[i]);
      position := 0;
    }

    /** put: false is a BufferOverflowException. */
    method PutBytes(b: bytes) returns (ok: bool)
      requires Valid()
      modifies this, data
      ensures Valid()
      ensures ok <==> old(Remaining()) >= |b|
      ensures ok ==> data[..position] == old(data[..position]) + b
      ensures !ok ==> position == old(position) && data[..] == old(data[..])
    {
      if data.Length - position < |b| {
        return false;
      }
      ghost var before := data[..position];
      for i := 0 to |b|
        invariant position == old(position) + i <= data.Length
        invariant data[..position] == before + b[..i]
      {
        data[position] := b[i];
        position := position + 1;
      }
      assert b[..|b|] == b;
      ok := true;
    }

    /** get of n bytes: None is a BufferUnderflowException. */
    method GetBytes(n: nat) returns (r: Option<bytes>)
      requires Valid()
      modifies this`position
      ensures Valid()
      ensures r.Some? <==> old(Remaining()) >= n
      ensures r.Some? ==> r.value == old(data[position..])[..n] && data[position..] == old(data[position..])[n..]
    {
      if data.Length - position < n {
        return None;
      }
      r := Some(data[position..position + n]);
      position := position + n;
    }
  }

  lemma WrapAdds(x: int, y: int)
    ensures Wrap32(Wrap32(x) + y) == Wrap32(x + y)
  {
  }

  lemma {:induction false} SizeMonotone(m: Fields, i: nat)
    requires i <= |m|
    ensures Size(m[..i]) <= Size(m)
  {
    if i == |m| {
      assert m[..i] == m;
    } else {
      SizeMonotone(m[..|m| - 1], i);
      assert m[..|m| - 1][..i] == m[..i];
    }
  }

  lemma EncodeNext(m: Fields, i: nat)
    requires i < |m|
    ensures EncodeAll(FieldFrame, m[..i + 1]) == EncodeAll(FieldFrame, m[..i]) + FieldFrame(m[i])
    ensures Size(m[..i + 1]) == Size(m[..i]) + |FieldFrame(m[i])|
  {
    EncodeAllNext(FieldFrame, m, i);
    assert m[..i + 1][..i] == m[..i];
  }

  /** The first loop of serializeBytes: the size in int arithmetic. */
  method TotalBytes(fields: Fields) returns (total: int)
    ensures total == Wrap32(Size(fields))
  {
    total := 2;
    for i := 0 to |fields|
      invariant total == Wrap32(Size(fields[..i]))
    {
      EncodeNext(fields, i);
      WrapAdds(Size(fields[..i]), 2 + 4 + |fields[i].name| + |fields[i].value|);
      total := Wrap32(total + (2 + 4 + |fields[i].name| + |fields[i].value|));
    }
    assert fields[..|fields|] == fields;
  }

  /** One field of the second loop; false if some put overflows. */
  method PutField(buf: ByteBuffer, f: Field) returns (ok: bool)
    requires buf.Valid()
    modifies buf, buf.data
    ensures buf.Valid()
    ensures ok <==> old(buf.Remaining()) >= |FieldFrame(f)|
    ensures ok ==> buf.data[..buf.position] == old(buf.data[..buf.position]) + FieldFrame(f)
  {
    ok := buf.PutBytes(LE(|f.name|, 2));
    if ok {
      ok := buf.PutBytes(LE(|f.value|, 4));
    }
    if ok {
      ok := buf.PutBytes(f.name);
    }
    if ok {
      ok := buf.PutBytes(f.value);
    }
  }

  /** The second loop of serializeBytes: it completes exactly if the buffer has room for the encoding. */
  method WriteFields(buf: ByteBuffer, fields: Fields) returns (ok: bool)
    requires buf.Valid() && buf.position == 0
    modifies buf, buf.data
    ensures buf.Valid()
    ensures ok <==> buf.data.Length >= Size(fields)
    ensures ok ==> buf.data[..buf.position] == Encode(fields) && buf.position == Size(fields)
  {
    SizeMonotone(fields, 0);
    ok := buf.PutBytes(LE(|fields|, 2));
    if !ok {
      return;
    }
    assert buf.data[..buf.position] == Encoded(fields, 0);
    for i := 0 to |fields|
      invariant buf.Valid() && buf.position == Size(fields[..i])
      invariant buf.data[..buf.position] == Encoded(fields, i)
    {
      EncodedNext(fields, i);
      EncodeNext(fields, i);
      SizeMonotone(fields, i + 1);
      ok := PutField(buf, fields[i]);
      if !ok {
        return;
      }
    }
    assert fields[..|fields|] == fields;
    ok := true;
  }

  /** The count and the first i fields. */
  ghost function Encoded(m: Fields, i: nat): bytes
    requires i <= |m|
  {
    LE(|m|, 2) + EncodeAll(FieldFrame, m[..i])
  }

  lemma EncodedNext(m: Fields, i: nat)
    requires i < |m|
    ensures Encoded(m, i + 1) == Encoded(m, i) + FieldFrame(m[i])
  {
    EncodeAllNext(FieldFrame, m, i);
    Associate(LE(|m|, 2), EncodeAll(FieldFrame, m[..i]), FieldFrame(m[i]));
  }

  lemma WrapExact(n: nat)
    ensures n < MAX_ARRAY ==> Wrap32(n) == n
    ensures n >= MAX_ARRAY ==> Wrap32(n) < n
  {
  }

  /** serializeBytes: the encoding whenever its size is an int; otherwise allocating or putting raises. */
  method SerializeBytes(fields: Fields) returns (r: Option<bytes>)
    ensures r == Serialize(fields)
    ensures r == if |Encode(fields)| <= 2147483647 then Some(Encode(fields)) else None
  {
    SizeIsLength(fields);
    var total := TotalBytes(fields);
    WrapExact(Size(fields));
    if total < 0 {
      return None;
    }
    var buf := new ByteBuffer(seq(total, _ => 0));
    assert buf.data.Length == |buf.data[..]| == total;
    var ok := WriteFields(buf, fields);
    if !ok {
      return None;
    }
    assert buf.data[..buf.position] == buf.data[..];
    r := Some(buf.data[..]);
  }

  /** One turn of the loop of deserializeToBytes. */
  method ReadField(buf: ByteBuffer) returns (t: Turn)
    requires buf.Valid()
    modifies buf`position
    ensures buf.Valid()
    ensures Reads(NextField(old(buf.data[buf.position..])), t, buf.data[buf.position..])
  {
    ghost var s := buf.data[buf.position..];
    if buf.Remaining() < 6 {
      return Stop;
    }
    var nameLen := buf.GetBytes(2);
    var valLen := buf.GetBytes(4);
    assert s[2..][..4] == s[2..6] && s[2..][4..] == s[6..];
    t := ReadBody(buf, FromLE(nameLen.value), Wrap32(FromLE(valLen.value)));
  }

  /** The method's turn is the function's, with what is left of the bytes left in the buffer. */
  ghost predicate Reads(turn: Turn, t: Turn, left: bytes) {
    match turn
    case Took(f, rest) => t == Took(f, []) && left == rest
    case other => t == other
  }

  /** The turn after the two lengths are read. */
  method ReadBody(buf: ByteBuffer, nameLen: nat, valLen: int) returns (t: Turn)
    requires buf.Valid()
    modifies buf`position
    ensures buf.Valid()
    ensures Reads(NextBody(nameLen, valLen, old(buf.data[buf.position..])), t, buf.data[buf.position..])
  {
    ghost var s := buf.data[buf.position..];
    if buf.Remaining() < Wrap32(nameLen + valLen) {
      return Stop;
    }
    var name := buf.GetBytes(nameLen);
    if name == None {
      return Underflow;
    }
    var value: Option<bytes> := Some([]);
    if valLen > 0 {
      ValueAfterName(s, nameLen, valLen);
      value := buf.GetBytes(valLen);
      if value == None {
        return Underflow;
      }
    }
    t := Took(Field(name.value, value.value), []);
  }

  lemma ValueAfterName(s: bytes, n: nat, v: nat)
    requires n <= |s|
    ensures n + v <= |s| ==> s[n..][..v] == s[n..n + v] && s[n..][v..] == s[n + v..]
  {
  }

  lemma LoopTurns(next: bytes -> Turn, s: bytes, n: nat, filter: Option<set<bytes>>, acc: Fields)
    requires n > 0
    ensures DecodeLoop(next, s, n, filter, acc) ==
            match next(s)
            case Stop => Some(acc)
            case Underflow => None
            case Took(f, rest) =>
              DecodeLoop(next, rest, n - 1, filter, if Keeps(filter, f.name) then Put(acc, f) else acc)
  {
  }

  /** One turn with n to go: the loop is done with this result, or goes on from this map. */
  method TakeTurn(buf: ByteBuffer, n: nat, filter: Option<set<bytes>>, acc: Fields)
    returns (done: bool, r: Option<Fields>)
    requires buf.Valid() && n > 0
    modifies buf`position
    ensures buf.Valid()
    ensures var whole := DecodeLoop(NextField, old(buf.data[buf.position..]), n, filter, acc);
            && (done ==> r == whole)
            && (!done ==> r.Some? && whole == DecodeLoop(NextField, buf.data[buf.position..], n - 1, filter, r.value))
  {
    LoopTurns(NextField, buf.data[buf.position..], n, filter, acc);
    var turn := ReadField(buf);
    match turn
    case Stop => return true, Some(acc);
    case Underflow => return true, None;
    case Took(f, _) =>
      return false, Some(if Keeps(filter, f.name) then Put(acc, f) else acc);
  }

  /** deserializeToBytes, into a map that already holds result. */
  method DeserializeToBytes(data: bytes, filter: Option<set<bytes>>, result: Fields) returns (r: Option<Fields>)
    ensures r == Decode(data, filter, result)
  {
    var buf := new ByteBuffer(data);
    assert buf.data[buf.position..] == data;
    if buf.Remaining() < 2 {
      return Some(result);
    }
    var count := buf.GetBytes(2);
    var n := FromLE(count.value);
    r := Some(result);
    ghost var whole := Decode(data, filter, result);
    for i := 0 to n
      invariant fresh(buf) && buf.Valid() && r.Some?
      invariant whole == DecodeLoop(NextField, buf.data[buf.position..], n - i, filter, r.value)
    {
      var done;
      done, r := TakeTurn(buf, n - i, filter, r.value);
      if done {
        return;
      }
    }
  }
}
