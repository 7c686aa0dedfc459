/** Benchmark keys: a prefix and a number in fixed base, zero-padded to a minimum width
    (formatKey in dbbench/main.go, make_key in benchmarks/compaction_benchmark.py). */
module Keys {

  /** A lower-case hexadecimal digit. */
  function Digit(d: nat): char
    requires d < 16
  {
    if d < 10 then '0' + d as char else 'a' + (d - 10) as char
  }

  type Base = b: nat | b == 10 || b == 16 witness 10

  // Division by the base, one literal divisor at a time.
  function Quot(b: Base, n: nat): nat { if b == 10 then n / 10 else n / 16 }
  function Rem(b: Base, n: nat): nat { if b == 10 then n % 10 else n % 16 }

  /** n in base b, padded with zeros on the left to at least w digits: %0<w>d and %0<w>x. */
  function Pad(b: Base, n: nat, w: nat): (s: string)
    ensures |s| >= 1 && |s| >= w
    decreases n + w
  {
    if n < b && w <= 1 then [Digit(n)]
    else Pad(b, Quot(b, n), if w == 0 then 0 else w - 1) + [Digit(Rem(b, n))]
  }

  /** dbbench/main.go: 16 decimal digits at least, whatever the key-size flag says. */
  function FormatKey(prefix: string, n: nat): string {
    prefix + Pad(10, n, 16)
  }

  /** benchmarks/compaction_benchmark.py: 16 hexadecimal digits at least. */
  function MakeKey(n: nat): string {
    "gc_test:" + Pad(16, n, 16)
  }

  // ---------- Injectivity ----------

  lemma DigitsDiffer(i: nat, j: nat)
    requires i < 16 && j < 16 && Digit(i) == Digit(j)
    ensures i == j
  {
  }

  /** Padded numbers are injective at every width and size. */
  lemma {:induction false} PadInjective(b: Base, m: nat, n: nat, w: nat)
    requires Pad(b, m, w) == Pad(b, n, w)
    ensures m == n
    decreases m + n + w
  {
    LastOf(b, m, w);
    LastOf(b, n, w);
    DigitsDiffer(Rem(b, m), Rem(b, n));
    if w <= 1 && (m < b || n < b) {
      OneDigit(b, m, w);
      OneDigit(b, n, w);
      SameQuotient(b, m, n);
    } else {
      PadInjective(b, Quot(b, m), Quot(b, n), if w == 0 then 0 else w - 1);
      SameQuotient(b, m, n);
    }
  }

  lemma SameQuotient(b: Base, m: nat, n: nat)
    requires Rem(b, m) == Rem(b, n)
    ensures Quot(b, m) == Quot(b, n) || (m < b && n < b) ==> m == n
  {
  }

  /** The last digit and the digits before it. */
  lemma LastOf(b: Base, n: nat, w: nat)
    ensures var s := Pad(b, n, w);
            && s[|s| - 1] == Digit(Rem(b, n))
            && (n >= b || w > 1 ==> Quot(b, n) + (if w == 0 then 0 else w - 1) < n + w
                                    && s[..|s| - 1] == Pad(b, Quot(b, n), if w == 0 then 0 else w - 1))
  {
  }

  lemma OneDigit(b: Base, n: nat, w: nat)
    requires w <= 1
    ensures |Pad(b, n, w)| == 1 <==> n < b
  {
  }

  lemma {:induction false} FormatKeyInjective(prefix: string, m: nat, n: nat)
    requires FormatKey(prefix, m) == FormatKey(prefix, n)
    ensures m == n
  {
    assert FormatKey(prefix, m)[|prefix|..] == Pad(10, m, 16);
    assert FormatKey(prefix, n)[|prefix|..] == Pad(10, n, 16);
    PadInjective(10, m, n, 16);
  }

  lemma {:induction false} MakeKeyInjective(m: nat, n: nat)
    requires MakeKey(m) == MakeKey(n)
    ensures m == n
  {
    assert MakeKey(m)[|"gc_test:"|..] == Pad(16, m, 16);
    assert MakeKey(n)[|"gc_test:"|..] == Pad(16, n, 16);
    PadInjective(16, m, n, 16);
  }

  // ---------- Order ----------

  /** Byte-lexicographic order, a proper prefix coming first. */
  predicate LexLess(s: string, t: string) {
    t != [] && (s == [] || s[0] < t[0] || (s[0] == t[0] && LexLess(s[1..], t[1..])))
  }

  lemma {:induction false} LexSnoc(s: string, t: string, x: char, y: char)
    requires |s| == |t|
    ensures LexLess(s + [x], t + [y]) <==> LexLess(s, t) || (s == t && x < y)
  {
    if s == [] {
      assert [x][1..] == [] && [y][1..] == [];
    } else {
      LexSnoc(s[1..], t[1..], x, y);
      assert (s + [x])[1..] == s[1..] + [x] && (t + [y])[1..] == t[1..] + [y];
      assert s == t <==> s[0] == t[0] && s[1..] == t[1..];
    }
  }

  lemma {:induction false} LexPrefix(p: string, s: string, t: string)
    ensures LexLess(p + s, p + t) <==> LexLess(s, t)
  {
    if p == [] {
      assert p + s == s && p + t == t;
    } else {
      LexPrefix(p[1..], s, t);
      assert (p + s)[1..] == p[1..] + s && (p + t)[1..] == p[1..] + t;
    }
  }

  /** Against a longer string only the part of equal length matters; on a tie the shorter is less. */
  lemma {:induction false} LexLonger(s: string, t: string, u: string)
    requires |s| == |t| && u != []
    ensures LexLess(s, t + u) <==> LexLess(s, t) || s == t
  {
    if s == [] {
      assert t + u == u;
    } else {
      LexLonger(s[1..], t[1..], u);
      assert (t + u)[1..] == t[1..] + u;
      assert s == t <==> s[0] == t[0] && s[1..] == t[1..];
    }
  }

  lemma DigitsOrdered(i: nat, j: nat)
    requires i < 10 && j < 10
    ensures Digit(i) < Digit(j) <==> i < j
  {
  }

  /** Decimal numbers written with equally many digits compare as numbers. */
  lemma {:induction false} SameWidthOrder(m: nat, n: nat, w: nat)
    requires |Pad(10, m, w)| == |Pad(10, n, w)|
    ensures LexLess(Pad(10, m, w), Pad(10, n, w)) <==> m < n
    decreases m + n + w
  {
    var s, t := Pad(10, m, w), Pad(10, n, w);
    DigitsOrdered(m % 10, n % 10);
    if w <= 1 && (m < 10 || n < 10) {
      OneDigit(10, m, w);
      OneDigit(10, n, w);
      LexSnoc([], [], Digit(m), Digit(n));
      assert [] + [Digit(m)] == s && [] + [Digit(n)] == t;
    } else {
      var v := if w == 0 then 0 else w - 1;
      SameWidthOrder(m / 10, n / 10, v);
      LexSnoc(Pad(10, m / 10, v), Pad(10, n / 10, v), Digit(m % 10), Digit(n % 10));
      if m / 10 == n / 10 {
      } else if Pad(10, m / 10, v) == Pad(10, n / 10, v) {
        PadInjective(10, m / 10, n / 10, v);
      }
    }
  }

  function Pow10(k: nat): (r: nat)
    ensures r >= 1
  {
    if k == 0 then 1 else 10 * Pow10(k - 1)
  }

  /** A number below 10^w takes exactly w digits (at least one). */
  lemma {:induction false} Width(n: nat, w: nat)
    ensures n < Pow10(w) ==> |Pad(10, n, w)| == if w == 0 then 1 else w
    ensures w >= 1 && n >= Pow10(w) ==> |Pad(10, n, w)| > w
    decreases w
  {
    if w >= 1 {
      if n < 10 && w == 1 {
        assert Pow10(1) == 10 * Pow10(0);
      } else if w == 1 {
        assert Pow10(1) == 10 * Pow10(0);
      } else {
        Width(n / 10, w - 1);
      }
    }
  }

  /** Padding by one digit less changes nothing when the digits are there anyway. */
  lemma {:induction false} PaddingUnneeded(n: nat, w: nat)
    requires n >= Pow10(w)
    ensures Pad(10, n, w) == Pad(10, n, w + 1)
    decreases n + w
  {
    if n >= 10 || w > 0 {
      if w == 0 {
      } else {
        PaddingUnneeded(n / 10, w - 1);
      }
    }
  }

  lemma {:induction false} WidthMonotone(m: nat, n: nat, w: nat)
    requires m <= n
    ensures |Pad(10, m, w)| <= |Pad(10, n, w)|
    decreases n + w
  {
    if n < 10 && w <= 1 {
    } else if m < 10 && w <= 1 {
    } else {
      WidthMonotone(m / 10, n / 10, if w == 0 then 0 else w - 1);
    }
  }

  /** n without its last k digits. */
  function Chop(n: nat, k: nat): nat {
    if k == 0 then n else Chop(n / 10, k - 1)
  }

  lemma {:induction false} AtMostChopped(m: nat, n: nat, k: nat)
    ensures m <= Chop(n, k) <==> m * Pow10(k) <= n
  {
    if k > 0 {
      AtMostChopped(m, n / 10, k - 1);
      assert m * Pow10(k) == 10 * (m * Pow10(k - 1));
    }
  }

  /** A number with more than w digits is its quotient's digits and one more. */
  lemma LastDigit(n: nat, w: nat)
    requires w >= 1 && |Pad(10, n, w)| > w
    ensures Pad(10, n, w) == Pad(10, n / 10, w) + [Digit(n % 10)]
  {
    Width(n, w);
    assert Pow10(w) == 10 * Pow10(w - 1);
    PaddingUnneeded(n / 10, w - 1);
  }

  /** Chopping a number chops its digits, as long as w remain. */
  lemma {:induction false} ChopDigits(n: nat, k: nat, w: nat)
    requires w >= 1 && |Pad(10, n, w)| >= w + k
    ensures |Pad(10, Chop(n, k), w)| == |Pad(10, n, w)| - k
    ensures Pad(10, Chop(n, k), w) <= Pad(10, n, w)
  {
    if k > 0 {
      LastDigit(n, w);
      ChopDigits(n / 10, k - 1, w);
    }
  }

  function KeyWidth(n: nat): nat { |Pad(10, n, 16)| }

  /** Keys of smaller indices come first in byte order exactly when the smaller index, filled up with
      zeros to the digits of the larger, does not exceed it. */
  lemma {:induction false} KeyOrder(prefix: string, m: nat, n: nat)
    requires m < n
    ensures KeyWidth(m) <= KeyWidth(n)
    ensures LexLess(FormatKey(prefix, m), FormatKey(prefix, n)) <==> m * Pow10(KeyWidth(n) - KeyWidth(m)) <= n
  {
    var s, t := Pad(10, m, 16), Pad(10, n, 16);
    LexPrefix(prefix, s, t);
    WidthMonotone(m, n, 16);
    var k := |t| - |s|;
    var c := Chop(n, k);
    ChopDigits(n, k, 16);
    AtMostChopped(m, n, k);
    SameWidthOrder(m, c, 16);
    if k > 0 {
      var p := Pad(10, c, 16);
      assert t == p + t[|p|..];
      LexLonger(s, p, t[|p|..]);
      if s == p {
        PadInjective(10, m, c, 16);
      }
    }
  }

  lemma Pow10Of16()
    ensures Pow10(16) == 10000000000000000
  {
    assert Pow10(4) == 10000;
    assert Pow10(8) == 100000000;
    assert Pow10(12) == 1000000000000;
  }

  /** Below 10^16 all keys are equally long and their byte order is the numeric order. */
  lemma {:induction false} KeyOrderBelowLimit(prefix: string, m: nat, n: nat)
    requires m < 10000000000000000 && n < 10000000000000000
    ensures |FormatKey(prefix, m)| == |FormatKey(prefix, n)| == |prefix| + 16
    ensures LexLess(FormatKey(prefix, m), FormatKey(prefix, n)) <==> m < n
  {
    Pow10Of16();
    Width(m, 16);
    Width(n, 16);
    LexPrefix(prefix, Pad(10, m, 16), Pad(10, n, 16));
    SameWidthOrder(m, n, 16);
  }

  /** Past 10^16 the order breaks: a 17-digit index sorts before every smaller 16-digit one that
      exceeds a tenth of it, 10^16 before 10^16 - 1 for instance. */
  lemma KeyOrderBreaks(prefix: string, m: nat, n: nat)
    requires m < 10000000000000000 <= n < 10 * m
    ensures m < n && !LexLess(FormatKey(prefix, m), FormatKey(prefix, n))
  {
    LongerKey(m, n);
    KeyOrder(prefix, m, n);
    TenTimes(m, KeyWidth(n) - KeyWidth(m));
  }

  lemma LongerKey(m: nat, n: nat)
    requires m < 10000000000000000 <= n
    ensures KeyWidth(n) > KeyWidth(m)
  {
    Pow10Of16();
    Width(m, 16);
    Width(n, 16);
  }

  lemma {:induction false} TenTimes(m: nat, k: nat)
    ensures k >= 1 ==> m * Pow10(k) >= 10 * m
    ensures m * Pow10(k) >= m
  {
    if k >= 1 {
      TenTimes(m, k - 1);
      assert m * Pow10(k) == 10 * (m * Pow10(k - 1));
    }
  }

  // ---------- What the digits say ----------

  /** The value of a digit character. */
  function ValueOf(c: char): nat {
    if '0' <= c <= '9' then (c - '0') as nat else if 'a' <= c <= 'f' then 10 + (c - 'a') as nat else 0
  }

  /** The number a string of digits is, read from the left. */
  function NumberOf(b: Base, s: string): nat {
    if s == [] then 0 else Times(b, NumberOf(b, s[..|s| - 1])) + ValueOf(s[|s| - 1])
  }

  function Times(b: Base, n: nat): nat { if b == 10 then 10 * n else 16 * n }

  lemma DigitIs(d: nat)
    requires d < 16
    ensures Digit(d) == "0123456789abcdef"[d] && ValueOf(Digit(d)) == d
  {
  }

  lemma QuotRem(b: Base, n: nat)
    ensures n == Times(b, Quot(b, n)) + Rem(b, n) && Rem(b, n) < b
  {
  }

  /** A padded number consists of digits of its base, is that number, has at least w digits, and no leading
      zero among more than w. */
  lemma {:induction false} PadReads(b: Base, n: nat, w: nat)
    ensures var s := Pad(b, n, w);
            && NumberOf(b, s) == n && |s| >= w
            && (forall c <- s :: c in "0123456789abcdef"[..b])
            && (|s| > w && |s| > 1 ==> s[0] != '0')
    decreases n + w
  {
    var s := Pad(b, n, w);
    DigitIs(Rem(b, n));
    QuotRem(b, n);
    if n < b && w <= 1 {
      DigitIs(n);
      OneDigitReads(b, n);
    } else {
      var v := if w == 0 then 0 else w - 1;
      var front := Pad(b, Quot(b, n), v);
      PadReads(b, Quot(b, n), v);
      assert s[..|s| - 1] == front;
      if |front| == 1 && v == 0 {
        OneDigit(b, Quot(b, n), 0);
        OneDigitIs(b, Quot(b, n));
      }
    }
  }

  lemma OneDigitReads(b: Base, n: nat)
    requires n < b
    ensures NumberOf(b, [Digit(n)]) == n && Digit(n) in "0123456789abcdef"[..b]
  {
    DigitIs(n);
    assert [Digit(n)][..0] == [];
    assert "0123456789abcdef"[..b][n] == Digit(n);
  }

  lemma OneDigitIs(b: Base, n: nat)
    requires 0 < n < b
    ensures Pad(b, n, 0)[0] != '0'
  {
    DigitIs(n);
  }

  /** The key is the prefix and then the index in decimal, with at least 16 digits. */
  lemma {:induction false} FormatKeyIs(prefix: string, n: nat)
    ensures var s := FormatKey(prefix, n);
            && |s| >= |prefix| + 16 && s[..|prefix|] == prefix
            && NumberOf(10, s[|prefix|..]) == n && (forall c <- s[|prefix|..] :: '0' <= c <= '9')
            && (|s| > |prefix| + 16 ==> s[|prefix|] != '0')
  {
    PadReads(10, n, 16);
    assert FormatKey(prefix, n)[|prefix|..] == Pad(10, n, 16);
  }

  /** The key of the compaction benchmark: "gc_test:" and the index in hexadecimal. */
  lemma {:induction false} MakeKeyIs(n: nat)
    ensures var s := MakeKey(n);
            && |s| >= 24 && s[..8] == "gc_test:"
            && NumberOf(16, s[8..]) == n && (forall c <- s[8..] :: '0' <= c <= '9' || 'a' <= c <= 'f')
            && (|s| > 24 ==> s[8] != '0')
  {
    PadReads(16, n, 16);
    assert MakeKey(n)[8..] == Pad(16, n, 16);
  }
}
