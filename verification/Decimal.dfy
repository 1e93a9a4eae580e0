/** Decimal text of integers: plain as `str` and `%d` print it, and padded to a fixed width. */
module Decimal {
  import opened Ordering

  function Digit(d: nat): char
    requires d < 10
  {
    '0' + d as char
  }

  predicate IsDigit(c: char) { '0' <= c <= '9' }

  predicate AllDigits(s: string) { forall i :: 0 <= i < |s| ==> IsDigit(s[i]) }

  /** `str(n)` */
  function Str(n: nat): string {
    if n < 10 then [Digit(n)] else Str(n / 10) + [Digit(n % 10)]
  }

  /** `str(i)` of a possibly negative integer. */
  function IntStr(i: int): string {
    if i < 0 then "-" + Str(-i) else Str(i)
  }

  /** The last `width` decimal digits of n, leading zeros included. */
  function Pad(n: nat, width: nat): string {
    if width == 0 then "" else Pad(n / 10, width - 1) + [Digit(n % 10)]
  }

  /** `f"{n:0{width}d}"`: at least `width` digits. */
  function ZeroPadded(n: nat, width: nat): string {
    Zeros(width, |Str(n)|) + Str(n)
  }

  function Zeros(width: nat, used: nat): string {
    if used >= width then "" else "0" + Zeros(width - 1, used)
  }

  /** The number a digit string denotes. */
  function Value(s: string): nat
    requires AllDigits(s)
  {
    if s == [] then 0 else Value(s[..|s| - 1]) * 10 + (s[|s| - 1] - '0') as nat
  }

  lemma {:induction false} StrValue(n: nat)
    ensures Str(n) != [] && AllDigits(Str(n)) && Value(Str(n)) == n
  {
    if n >= 10 {
      StrValue(n / 10);
      assert Str(n)[..|Str(n)| - 1] == Str(n / 10);
    } else {
      assert Str(n)[..0] == "";
    }
  }

  lemma StrInjective(m: nat, n: nat)
    requires Str(m) == Str(n)
    ensures m == n
  {
    StrValue(m);
    StrValue(n);
  }

  lemma IntStrInjective(i: int, j: int)
    requires IntStr(i) == IntStr(j)
    ensures i == j
  {
    StrValue(if i < 0 then -i else i);
    StrValue(if j < 0 then -j else j);
    assert (i < 0) == (IntStr(i)[0] == '-') && (j < 0) == (IntStr(j)[0] == '-');
    if i < 0 {
      assert Str(-i) == IntStr(i)[1..] && Str(-j) == IntStr(j)[1..];
    }
  }

  lemma {:induction false} ZerosValue(z: nat, used: nat, s: string)
    requires AllDigits(s)
    ensures AllDigits(Zeros(z, used)) && AllDigits(Zeros(z, used) + s)
    ensures Value(Zeros(z, used) + s) == Value(s)
    decreases z, |s|
  {
    if used < z {
      ZerosValue(z - 1, used, "");
    }
    var zs := Zeros(z, used);
    if s == [] {
      if used < z {
        var tail := Zeros(z - 1, used);
        assert tail + "" == tail && zs + "" == "0" + tail;
        LeadingZero(tail);
      }
    } else {
      ZerosValue(z, used, s[..|s| - 1]);
      assert (zs + s)[..|zs + s| - 1] == zs + s[..|s| - 1];
    }
  }

  lemma {:induction false} LeadingZero(s: string)
    requires AllDigits(s)
    ensures AllDigits("0" + s) && Value("0" + s) == Value(s)
  {
    if s == [] {
      assert ("0" + s)[..0] == "";
    } else {
      LeadingZero(s[..|s| - 1]);
      assert ("0" + s)[..|s|] == "0" + s[..|s| - 1];
    }
  }

  lemma ZeroPaddedInjective(m: nat, n: nat, width: nat)
    requires ZeroPadded(m, width) == ZeroPadded(n, width)
    ensures m == n
  {
    StrValue(m);
    StrValue(n);
    ZerosValue(width, |Str(m)|, Str(m));
    ZerosValue(width, |Str(n)|, Str(n));
  }

  function Power10(k: nat): nat {
    if k == 0 then 1 else 10 * Power10(k - 1)
  }

  lemma {:induction false} PadLength(n: nat, width: nat)
    ensures |Pad(n, width)| == width && AllDigits(Pad(n, width))
  {
    if width > 0 {
      PadLength(n / 10, width - 1);
    }
  }

  /** Fixed-width fields compare as numbers; what follows decides only between equal fields. */
  lemma {:induction false} FieldOrder(a: nat, b: nat, width: nat, x: string, y: string)
    requires a < Power10(width) && b < Power10(width)
    ensures Less(Pad(a, width) + x, Pad(b, width) + y) == (a < b || (a == b && Less(x, y)))
    decreases width
  {
    if width == 0 {
      assert Pad(a, width) + x == x && Pad(b, width) + y == y;
    } else {
      var x', y' := [Digit(a % 10)] + x, [Digit(b % 10)] + y;
      assert Pad(a, width) + x == Pad(a / 10, width - 1) + x';
      assert Pad(b, width) + y == Pad(b / 10, width - 1) + y';
      assert x'[1..] == x && y'[1..] == y;
      FieldOrder(a / 10, b / 10, width - 1, x', y');
    }
  }

  // ----- separators -----

  predicate Without(s: string, sep: char) { forall i :: 0 <= i < |s| ==> s[i] != sep }

  /** A field that does not contain the separator is read back from the joined text. */
  lemma SplitAtFirst(a: string, x: string, b: string, y: string, sep: char)
    requires Without(a, sep) && Without(b, sep)
    requires a + [sep] + x == b + [sep] + y
    ensures a == b && x == y
  {
    var s := a + [sep] + x;
    assert s[|a|] == sep && s[|b|] == sep;
    assert forall i :: 0 <= i < |a| ==> s[i] == a[i];
    assert forall i :: 0 <= i < |b| ==> s[i] == b[i];
    assert a == s[..|a|] == b;
    assert x == s[|a| + 1..] == y;
  }

  /** The same from the right. */
  lemma SplitAtLast(a: string, x: string, b: string, y: string, sep: char)
    requires Without(x, sep) && Without(y, sep)
    requires a + [sep] + x == b + [sep] + y
    ensures a == b && x == y
  {
    var s := a + [sep] + x;
    assert s[|a|] == sep && s[|b|] == sep;
    assert forall i :: |a| < i < |s| ==> s[i] == x[i - |a| - 1];
    assert forall i :: |b| < i < |s| ==> s[i] == y[i - |b| - 1];
    assert a == s[..|a|] == b;
    assert x == s[|a| + 1..] == y;
  }
}
