/** Lists of self-delimiting frames: encoding them one after another and parsing them back. */
module Framing {
  import opened Bytes

  /** The encodings of xs, one after another. */
  function EncodeAll<T>(f: T -> bytes, xs: seq<T>): bytes {
    if xs == [] then [] else f(xs[0]) + EncodeAll(f, xs[1..])
  }

  /** Parse exactly n items; none at all if the bytes run out before the n-th. */
  function ParseN<T>(p: bytes -> Option<(T, bytes)>, n: nat, s: bytes): (r: Option<(seq<T>, bytes)>)
    ensures r.Some? ==> |r.value.0| == n
  {
    if n == 0 then Some(([], s))
    else match p(s)
      case None => None
      case Some((x, rest)) =>
        match ParseN(p, n - 1, rest)
        case None => None
        case Some((xs, rest')) => Some(([x] + xs, rest'))
  }

  /** After x's encoding, whatever follows it, the parser p yields y and stops at its end. */
  ghost predicate Yields<T, U>(f: T -> bytes, p: bytes -> Option<(U, bytes)>, x: T, y: U) {
    forall rest: bytes :: p(f(x) + rest) == Some((y, rest))
  }

  lemma {:induction false} EncodeAllSnoc<T>(f: T -> bytes, xs: seq<T>, x: T)
    ensures EncodeAll(f, xs + [x]) == EncodeAll(f, xs) + f(x)
  {
    if xs == [] {
      assert xs + [x] == [x];
    } else {
      EncodeAllSnoc(f, xs[1..], x);
      assert (xs + [x])[1..] == xs[1..] + [x];
    }
  }

  /** One more item of a list encoded front to back. */
  lemma EncodeAllNext<T>(f: T -> bytes, xs: seq<T>, i: nat)
    requires i < |xs|
    ensures EncodeAll(f, xs[..i + 1]) == EncodeAll(f, xs[..i]) + f(xs[i])
  {
    EncodeAllSnoc(f, xs[..i], xs[i]);
    assert xs[..i + 1] == xs[..i] + [xs[i]];
  }

  /** What the parser does to each item it does to the list, stopping exactly at the list's end. */
  lemma {:induction false} ParseNYields<T, U>(f: T -> bytes, p: bytes -> Option<(U, bytes)>,
                                              xs: seq<T>, ys: seq<U>, rest: bytes)
    requires |xs| == |ys| && forall i :: 0 <= i < |xs| ==> Yields(f, p, xs[i], ys[i])
    ensures ParseN(p, |xs|, EncodeAll(f, xs) + rest) == Some((ys, rest))
  {
    if xs == [] {
      assert EncodeAll(f, xs) + rest == rest;
    } else {
      var tail := EncodeAll(f, xs[1..]) + rest;
      ParseNYields(f, p, xs[1..], ys[1..], rest);
      assert Yields(f, p, xs[0], ys[0]);
      assert p(f(xs[0]) + tail) == Some((ys[0], tail));
      assert EncodeAll(f, xs) + rest == f(xs[0]) + tail;
      assert [ys[0]] + ys[1..] == ys;
    }
  }

  /** Fewer items than announced: the parser runs out of bytes. */
  lemma {:induction false} ParseNRunsOut<T>(f: T -> bytes, p: bytes -> Option<(T, bytes)>, xs: seq<T>, n: nat)
    requires forall x <- xs :: Yields(f, p, x, x)
    requires |xs| < n && p([]) == None
    ensures ParseN(p, n, EncodeAll(f, xs)) == None
  {
    if xs != [] {
      assert Yields(f, p, xs[0], xs[0]);
      ParseNRunsOut(f, p, xs[1..], n - 1);
    }
  }

  ghost predicate Extends<T>(p: bytes -> Option<(T, bytes)>) {
    forall s: bytes, t: bytes :: p(s).Some? ==> p(s + t) == Some((p(s).value.0, p(s).value.1 + t))
  }

  /** If an item parser ignores what follows its item, so does the list parser. */
  lemma {:induction false} ParseNExtends<T>(p: bytes -> Option<(T, bytes)>, n: nat, s: bytes, t: bytes)
    requires Extends(p) && ParseN(p, n, s).Some?
    ensures ParseN(p, n, s + t) == Some((ParseN(p, n, s).value.0, ParseN(p, n, s).value.1 + t))
  {
    if n > 0 {
      ParseNExtends(p, n - 1, p(s).value.1, t);
      assert p(s + t) == Some((p(s).value.0, p(s).value.1 + t));
    }
  }

  ghost predicate Shrinks<T>(p: bytes -> Option<(T, bytes)>) {
    forall s: bytes :: p(s).Some? ==> |p(s).value.1| <= |s|
  }

  lemma {:induction false} ParseNShrinks<T>(p: bytes -> Option<(T, bytes)>, n: nat, s: bytes)
    requires Shrinks(p) && ParseN(p, n, s).Some?
    ensures |ParseN(p, n, s).value.1| <= |s|
  {
    if n > 0 {
      ParseNShrinks(p, n - 1, p(s).value.1);
    }
  }

  lemma Associate<T>(a: seq<T>, b: seq<T>, c: seq<T>)
    ensures (a + b) + c == a + (b + c)
  {
  }

  /** The parts of a concatenation, by offset. */
  lemma Halves<T>(a: seq<T>, b: seq<T>)
    ensures (a + b)[..|a|] == a && (a + b)[|a|..] == b
  {
  }

  lemma Thirds<T>(a: seq<T>, b: seq<T>, c: seq<T>)
    ensures var s, i := a + b + c, |a| + |b|; s[..|a|] == a && s[|a|..i] == b && s[i..] == c
  {
  }

  lemma Parts<T>(a: seq<T>, b: seq<T>, c: seq<T>, d: seq<T>, e: seq<T>, rest: seq<T>)
    ensures var s, i, j, k := a + b + c + d + e + rest, |a| + |b|, |a| + |b| + |c|, |a| + |b| + |c| + |d|;
            && s[..|a|] == a && s[|a|..i] == b && s[i..j] == c && s[j..k] == d
            && s[k..k + |e|] == e && s[k + |e|..] == rest
  {
  }
}
