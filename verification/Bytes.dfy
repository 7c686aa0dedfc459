/** Bytes, optional values, and the little-endian integers both wire formats are made of. */
module Bytes {
  import opened Arithmetic

  type byte = b: int | 0 <= b < 256
  type bytes = seq<byte>

  datatype Option<+T> = None | Some(value: T)

  /** 256 to the power w: the number of values a w-byte field can hold. */
  function Range(w: nat): (r: nat)
    ensures r >= 1
  {
    if w == 0 then 1 else 256 * Range(w - 1)
  }

  /** The w low-order bytes of n, least significant first. Higher bytes are dropped, as a Java or
      Go narrowing conversion drops them. */
  function LE(n: nat, w: nat): (s: bytes)
    ensures |s| == w
  {
    if w == 0 then [] else [n % 256] + LE(n / 256, w - 1)
  }

  /** The unsigned value of a little-endian field. */
  function FromLE(s: bytes): (n: nat)
    ensures n < Range(|s|)
  {
    if s == [] then 0 else s[0] + 256 * FromLE(s[1..])
  }

  /** Reading back a written field gives the value reduced to the field's width. */
  lemma {:induction false} FromLEOfLE(n: nat, w: nat)
    ensures FromLE(LE(n, w)) == n % Range(w)
  {
    if w == 0 {
    } else {
      FromLEOfLE(n / 256, w - 1);
      DivMod(n, Range(w - 1));
    }
  }

  /** The widths in use, as numbers. */
  lemma Widths()
    ensures Range(1) == 256
    ensures Range(2) == 65536
    ensures Range(4) == 4294967296
  {
    assert Range(3) == 256 * Range(2);
  }

  /** A value that fits its field survives. */
  lemma {:induction false} RoundTrip(n: nat, w: nat)
    requires n < Range(w)
    ensures FromLE(LE(n, w)) == n
  {
    FromLEOfLE(n, w);
    ModIsRemainder(n, Range(w), 0, n);
  }

  /** Least significant byte first, at the two widths in use. */
  lemma {:induction false} LittleEndian(n: nat, s: bytes)
    ensures LE(n, 2) == [n % 256, n / 256 % 256]
    ensures LE(n, 4) == [n % 256, n / 256 % 256, n / 65536 % 256, n / 16777216 % 256]
    ensures |s| == 2 ==> FromLE(s) == s[0] as int + 256 * (s[1] as int)
    ensures |s| == 4 ==>
              FromLE(s) == s[0] as int + 256 * (s[1] as int) + 65536 * (s[2] as int) + 16777216 * (s[3] as int)
  {
    var a, b, c := n / 256, n / 65536, n / 16777216;
    assert a / 256 == b && b / 256 == c;
    assert LE(a, 1) == [a % 256] + LE(b, 0) && LE(n, 2) == [n % 256] + LE(a, 1);
    assert LE(c, 1) == [c % 256] + LE(c / 256, 0) && LE(b, 2) == [b % 256] + LE(c, 1);
    assert LE(a, 3) == [a % 256] + LE(b, 2) && LE(n, 4) == [n % 256] + LE(a, 3);
    if |s| == 2 {
      assert s[1..][0] == s[1] && s[1..][1..] == [];
    } else if |s| == 4 {
      var r, t, u := s[1..], s[2..], s[3..];
      assert r[0] == s[1] && r[1..] == t && t[0] == s[2] && t[1..] == u && u[0] == s[3] && u[1..] == [];
      assert FromLE(u) == u[0] as int + 256 * FromLE([]);
      assert FromLE(t) == t[0] as int + 256 * FromLE(u);
      assert FromLE(r) == r[0] as int + 256 * FromLE(t);
    }
  }

  /** The number in two or four bytes, least significant first. */
  predicate Holds16(s: bytes, n: nat) { |s| == 2 && s[0] as int + 256 * (s[1] as int) == n }

  predicate Holds32(s: bytes, n: nat) {
    |s| == 4 && s[0] as int + 256 * (s[1] as int) + 65536 * (s[2] as int) + 16777216 * (s[3] as int) == n
  }

  lemma FieldHolds(n: nat)
    ensures n < 65536 ==> Holds16(LE(n, 2), n)
    ensures n < 4294967296 ==> Holds32(LE(n, 4), n)
  {
    Widths();
    LittleEndian(n, LE(n, 2));
    LittleEndian(n, LE(n, 4));
    if n < 65536 {
      RoundTrip(n, 2);
    }
    if n < 4294967296 {
      RoundTrip(n, 4);
    }
  }
}
