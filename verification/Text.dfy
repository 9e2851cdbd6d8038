/** Bytes, numbers as text, and the order of texts. */
module Text {

  datatype Option<+T> = None | Some(value: T)

  type byte = x: int | 0 <= x < 256

  /** The largest 64-bit number. */
  const U64_MAX: nat := 0xFFFF_FFFF_FFFF_FFFF

  function Digit(d: nat): (c: char)
    requires d < 10
    ensures IsDigit(c) && DigitValue(c) == d
  {
    ('0' as int + d) as char
  }

  predicate IsDigit(c: char) {
    '0' <= c <= '9'
  }

  function DigitValue(c: char): (d: nat)
    requires IsDigit(c)
    ensures d < 10
  {
    c as int - '0' as int
  }

  /** `n` in decimal, with zeros in front up to `width`. */
  function PadNat(n: nat, width: nat): string
    decreases n, width
  {
    if n < 10 && width <= 1 then [Digit(n)]
    else PadNat(n / 10, if width == 0 then 0 else width - 1) + [Digit(n % 10)]
  }

  /** A signed number, its sign counted in the width, as `{:0width}` writes it. */
  function Pad(n: int, width: nat): string {
    if n < 0 then "-" + PadNat(-n, if width == 0 then 0 else width - 1) else PadNat(n, width)
  }

  predicate AllDigits(s: string) {
    forall i :: 0 <= i < |s| ==> IsDigit(s[i])
  }

  function Value(s: string): nat
    requires AllDigits(s)
  {
    if s == [] then 0 else 10 * Value(s[..|s| - 1]) + DigitValue(s[|s| - 1])
  }

  function Pow10(width: nat): nat {
    if width == 0 then 1 else 10 * Pow10(width - 1)
  }

  lemma Pow10Grows(width: nat)
    requires width > 1
    ensures Pow10(width) == 10 * Pow10(width - 1) && Pow10(1) == 10
  {
    assert Pow10(1) == 10 * Pow10(0);
  }

  lemma ReadsLast(s: string, c: char)
    requires AllDigits(s) && IsDigit(c)
    ensures AllDigits(s + [c]) && Value(s + [c]) == 10 * Value(s) + DigitValue(c)
  {
    assert (s + [c])[..|s|] == s;
  }

  lemma OneDigitReads(d: nat)
    requires d < 10
    ensures AllDigits([Digit(d)]) && Value([Digit(d)]) == d
  {
    ReadsLast([], Digit(d));
    assert [] + [Digit(d)] == [Digit(d)];
  }

  lemma {:induction false} PadReads(n: nat, width: nat)
    ensures AllDigits(PadNat(n, width)) && Value(PadNat(n, width)) == n && PadNat(n, width) != []
    ensures width > 0 && n < Pow10(width) ==> |PadNat(n, width)| == width
    decreases n, width
  {
    hide AllDigits, Value;
    if n < 10 && width <= 1 {
      OneDigitReads(n);
    } else {
      var less := if width == 0 then 0 else width - 1;
      PadReads(n / 10, less);
      ReadsLast(PadNat(n / 10, less), Digit(n % 10));
      if width > 1 {
        Pow10Grows(width);
      } else {
        Pow10Grows(2);
      }
    }
  }

  // ---- The order of texts ----

  predicate Less(a: string, b: string) {
    if b == [] then false
    else if a == [] then true
    else a[0] < b[0] || (a[0] == b[0] && Less(a[1..], b[1..]))
  }

  lemma {:induction false} LessOrders(a: string, b: string, c: string)
    ensures !(Less(a, b) && Less(b, a))
    ensures Less(a, b) && Less(b, c) ==> Less(a, c)
    ensures !Less(a, b) && !Less(b, a) ==> a == b
  {
    if a != [] && b != [] {
      LessOrders(a[1..], b[1..], if c == [] then [] else c[1..]);
      if a[0] == b[0] && a[1..] == b[1..] {
        assert a == [a[0]] + a[1..] && b == [b[0]] + b[1..];
      }
    }
  }

  lemma {:induction false} LessThen(a: string, b: string, x: string, y: string)
    requires |a| == |b| && Less(a, b)
    ensures Less(a + x, b + y)
  {
    assert (a + x)[1..] == a[1..] + x && (b + y)[1..] == b[1..] + y;
    if a[0] == b[0] {
      LessThen(a[1..], b[1..], x, y);
    }
  }

  lemma {:induction false} SameThenLess(a: string, x: string, y: string)
    requires Less(x, y)
    ensures Less(a + x, a + y)
  {
    if a == [] {
      assert a + x == x && a + y == y;
    } else {
      SameThenLess(a[1..], x, y);
      assert (a + x)[1..] == a[1..] + x && (a + y)[1..] == a[1..] + y;
    }
  }

  /** Numbers that fit the width are in the order of their texts. */
  lemma {:induction false} PadInOrder(n: nat, m: nat, width: nat)
    requires n < m < Pow10(width) && width > 0
    ensures Less(PadNat(n, width), PadNat(m, width))
    decreases width
  {
    Pow10Grows(if width > 1 then width else 2);
    if width == 1 {
      assert PadNat(n, 1) == [Digit(n)] && PadNat(m, 1) == [Digit(m)];
    } else {
      assert n / 10 == m / 10 ==> n % 10 < m % 10;
      if n / 10 < m / 10 {
        PadInOrder(n / 10, m / 10, width - 1);
      }
      LastInOrder(n / 10, n % 10, m / 10, m % 10, width);
    }
  }

  lemma LastInOrder(n: nat, a: nat, m: nat, b: nat, width: nat)
    requires width > 1 && a < 10 && b < 10 && n < Pow10(width - 1) && m < Pow10(width - 1)
    requires Less(PadNat(n, width - 1), PadNat(m, width - 1)) || (n == m && a < b)
    ensures Less(PadNat(n, width - 1) + [Digit(a)], PadNat(m, width - 1) + [Digit(b)])
  {
    hide PadNat;
    PadReads(n, width - 1);
    PadReads(m, width - 1);
    if n == m && a < b {
      SameThenLess(PadNat(n, width - 1), [Digit(a)], [Digit(b)]);
    } else {
      LessThen(PadNat(n, width - 1), PadNat(m, width - 1), [Digit(a)], [Digit(b)]);
    }
  }
}
