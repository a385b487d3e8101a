/** The integer conversions of alt_log_private_printf and the %x of alt_printf. */
module IntegerPrint {
  import opened Common

  const SIGN_BIT := 0x8000_0000

  // ---------------------------------------------------------------- numerals

  /** The number written by digits in a base, most significant first. */
  function ValueOf(ds: seq<nat>, base: nat): nat {
    if ds == [] then 0 else ValueOf(ds[..|ds| - 1], base) * base + ds[|ds| - 1]
  }

  predicate DigitsBelow(ds: seq<nat>, base: nat) {
    forall i :: 0 <= i < |ds| ==> ds[i] < base
  }

  /** ds is how v is written in a base: no leading zero, and at least one digit. */
  predicate IsNumeral(ds: seq<nat>, base: nat, v: nat) {
    ds != [] && DigitsBelow(ds, base) && ValueOf(ds, base) == v && (|ds| > 1 ==> ds[0] != 0)
  }

  function Numeral(v: nat, base: nat): (ds: seq<nat>)
    requires base >= 2
    ensures IsNumeral(ds, base, v)
    ensures v != 0 ==> ds[0] != 0
    decreases v
  {
    if v < base then [v]
    else
      DivSmaller(v, base);
      var high := Numeral(v / base, base);
      assert (high + [v % base])[..|high|] == high;
      high + [v % base]
  }

  lemma DivSmaller(v: nat, base: nat)
    requires base >= 2 && v >= base
    ensures 0 < v / base < v && v == (v / base) * base + v % base
  {
  }

  /** A number has only one numeral. */
  lemma {:induction false} NumeralUnique(a: seq<nat>, b: seq<nat>, base: nat, v: nat)
    requires base >= 2 && IsNumeral(a, base, v) && IsNumeral(b, base, v)
    ensures a == b
    decreases |a|
  {
    var (a0, b0) := (a[..|a| - 1], b[..|b| - 1]);
    var (x, y) := (a[|a| - 1], b[|b| - 1]);
    SameLast(ValueOf(a0, base), x, ValueOf(b0, base), y, base);
    if a0 == [] || b0 == [] {
      LeadingDigit(a0, base);
      LeadingDigit(b0, base);
    } else {
      NumeralUnique(a0, b0, base, ValueOf(a0, base));
    }
    assert a == a0 + [x] && b == b0 + [y];
  }

  lemma {:induction false} LeadingDigit(ds: seq<nat>, base: nat)
    requires base >= 2 && ds != [] ==> ds[0] != 0
    ensures base >= 2 && ds != [] ==> ValueOf(ds, base) > 0
    decreases |ds|
  {
    if base >= 2 && |ds| > 1 {
      LeadingDigit(ds[..|ds| - 1], base);
      assert ValueOf(ds[..|ds| - 1], base) * base >= 1;
    }
  }

  lemma MulAdd(a: int, b: int, c: int)
    ensures (a + b) * c == a * c + b * c
  {
  }

  lemma MulAssoc(a: int, b: int, c: int)
    ensures (a * b) * c == a * (b * c)
  {
  }

  lemma SameLast(p: nat, x: nat, q: nat, y: nat, base: nat)
    requires x < base && y < base && p * base + x == q * base + y
    ensures p == q && x == y
  {
    if p < q {
      MulLe(p + 1, q, base);
      MulAdd(p, 1, base);
    } else if q < p {
      MulLe(q + 1, p, base);
      MulAdd(q, 1, base);
    }
  }

  function DigitChar(d: nat, upper: bool): char
    requires d < 16
  {
    if d <= 9 then '0' + d as char else (if upper then 'A' else 'a') + (d - 10) as char
  }

  function Text(ds: seq<nat>, upper: bool): (s: string)
    requires DigitsBelow(ds, 16)
    ensures |s| == |ds|
  {
    if ds == [] then "" else Text(ds[..|ds| - 1], upper) + [DigitChar(ds[|ds| - 1], upper)]
  }

  function Repeat(c: char, n: int): (s: string)
    ensures |s| == (if n > 0 then n else 0) && forall i :: 0 <= i < |s| ==> s[i] == c
  {
    if n <= 0 then "" else Repeat(c, n - 1) + [c]
  }

  // ---------------------------------------------------------------- the conversion

  /** The value a 32-bit argument stands for. */
  function Meaning(raw: nat, signed: bool): int {
    if signed && raw >= SIGN_BIT then raw - WRAP else raw
  }

  function Abs(x: int): nat {
    if x < 0 then -x else x
  }

  /** What goes in front of the digits: zeros after the sign, or spaces before it. */
  function Leading(negative: bool, zero: bool, pad: int): string {
    var sign := if negative then "-" else "";
    if zero then sign + Repeat('0', pad) else Repeat(' ', pad) + sign
  }

  /** Digits padded on the left to a width. */
  function Padded(digits: string, negative: bool, zero: bool, width: int): string {
    Leading(negative, zero, width - |digits| - (if negative then 1 else 0)) + digits
  }

  /** What a conversion writes for an argument. */
  function Converted(raw: nat, signed: bool, base: nat, upper: bool, zero: bool, width: int): string
    requires 2 <= base <= 16
  {
    var v := Meaning(raw, signed);
    Padded(Text(Numeral(Abs(v), base), upper), v < 0, zero, width)
  }

  /** alt_log_repchar */
  method RepChar(c: char, r: int, out0: string) returns (out: string)
    ensures out == out0 + Repeat(c, r)
  {
    out := out0;
    var left := r;
    while left > 0
      invariant left <= r || r <= 0
      invariant out == out0 + Repeat(c, r - (if left > 0 then left else if r > 0 then 0 else r))
    {
      out := out + [c];
      left := left - 1;
    }
  }

  /** s is what is left of v above place p. */
  predicate Shrunk(v: nat, s: nat, p: nat) {
    s * p <= v < (s + 1) * p
  }

  /** The largest place value of v and the number of its digits; `p` is a 32-bit variable. */
  method PlaceValue(v: nat, base: nat) returns (p: nat, digitCount: nat)
    requires 2 <= base <= 16 && v < WRAP
    ensures digitCount >= 1 && p == Power(base, digitCount - 1)
    ensures v < p * base && (v >= p || digitCount == 1)
  {
    hide Shrunk;
    var vShrink: nat := v;
    p, digitCount := 1, 1;
    ShrinkStart(v);
    while vShrink / base > 0
      invariant digitCount >= 1 && p == Power(base, digitCount - 1)
      invariant p >= 1 && (v >= p || digitCount == 1)
      invariant Shrunk(v, vShrink, p)
      decreases vShrink
    {
      ShrinkStep(v, vShrink, p, base);
      vShrink := vShrink / base;
      digitCount := digitCount + 1;
      p := (p * base) % WRAP;
    }
    LastShrink(v, vShrink, p, base);
  }

  lemma ShrinkStart(v: nat)
    ensures Shrunk(v, v, 1)
  {
  }

  function Power(base: nat, k: nat): nat {
    if k == 0 then 1 else Power(base, k - 1) * base
  }

  lemma PlaceBelow(q: nat, s: nat, p: nat, base: nat)
    requires q * base <= s
    ensures q * (p * base) <= s * p
  {
    MulAssoc(q, base, p);
    MulLe(q * base, s, p);
    assert base * p == p * base;
  }

  lemma PlaceAbove(q: nat, s: nat, p: nat, base: nat)
    requires s <= q * base
    ensures s * p <= q * (p * base)
  {
    MulAssoc(q, base, p);
    MulLe(s, q * base, p);
    assert base * p == p * base;
  }

  /** The place value stays within the value, so it does not overflow. */
  lemma ShrinkStep(v: nat, s: nat, p: nat, base: nat)
    requires 2 <= base && v < WRAP && p >= 1 && Shrunk(v, s, p) && s / base > 0
    ensures s / base < s && 1 <= p * base <= v && (p * base) % WRAP == p * base
    ensures Shrunk(v, s / base, p * base)
  {
    var q := s / base;
    DivSmaller(s, base);
    PlaceBelow(q, s, p, base);
    MulAdd(q, 1, base);
    PlaceAbove(q + 1, s + 1, p, base);
    MulLe(1, q, p * base);
  }

  lemma LastShrink(v: nat, s: nat, p: nat, base: nat)
    requires base >= 2 && p >= 1 && Shrunk(v, s, p) && s / base == 0
    ensures v < p * base
  {
    assert s + 1 <= base;
    assert (s + 1) * p <= base * p;
  }

  /** Part-way through the digit loop: ds is written, v is left, and p is the next place. */
  predicate Remains(v0: nat, ds: seq<nat>, v: nat, p: nat, base: nat) {
    v < p * base && v0 == ValueOf(ds, base) * (p * base) + v
  }

  lemma DigitStep(v0: nat, ds: seq<nat>, v: nat, p: nat, base: nat, k: nat)
    returns (d: nat, rest: nat, next: nat)
    requires base >= 2 && p == Power(base, k) && Remains(v0, ds, v, p, base)
    ensures p > 0 && d == v / p && rest == v % p && next == p / base
    ensures d < base && rest < p
    ensures k > 0 ==> 0 < next < p && next == Power(base, k - 1) && Remains(v0, ds + [d], rest, next, base)
    ensures k == 0 ==> next == 0 && ValueOf(ds + [d], base) == v0
  {
    PowerPositive(base, k);
    d, rest := v / p, v % p;
    var done := ValueOf(ds, base);
    PlaceStep(v0, done, v, p, base);
    assert (ds + [d])[..|ds|] == ds;
    assert ValueOf(ds + [d], base) == done * base + d;
    if k > 0 {
      PowerDown(base, k);
      next := Power(base, k - 1);
      MulLe(2, base, next);
    } else {
      next := 0;
    }
  }

  /** The digit loop: it writes the value place by place. */
  method PrintDigits(v0: nat, p0: nat, ghost k0: nat, base: nat, upper: bool, out0: string) returns (out: string)
    requires 2 <= base <= 16 && p0 == Power(base, k0) && v0 < p0 * base && (v0 >= p0 || k0 == 0)
    ensures out == out0 + Text(Numeral(v0, base), upper) && |Numeral(v0, base)| == k0 + 1
  {
    hide Remains, Power, ValueOf, Numeral;
    var v: nat, p: nat := v0, p0;
    ghost var ds: seq<nat>, k := [], k0;
    out := out0;
    PowerPositive(base, k0);
    NothingDone(v0, p0, base);
    while p != 0
      invariant DigitsBelow(ds, base) && out == out0 + Text(ds, upper)
      invariant if p != 0 then p == Power(base, k) && |ds| == k0 - k && Remains(v0, ds, v, p, base)
                else ValueOf(ds, base) == v0 && |ds| == k0 + 1
      invariant if ds == [] then v == v0 && p == p0 else ds[0] == v0 / p0
      decreases p
    {
      ghost var digit, rest, next := DigitStep(v0, ds, v, p, base, k);
      var d := v / p;
      TextAppend(ds, d, upper);
      out := out + [DigitChar(d, upper)];
      ds := ds + [d];
      v := v % p;
      p := p / base;
      k := if k > 0 then k - 1 else 0;
    }
    if k0 > 0 {
      FirstDigit(v0, p0);
    }
    NumeralUnique(ds, Numeral(v0, base), base, v0);
  }

  lemma NothingDone(v0: nat, p0: nat, base: nat)
    requires v0 < p0 * base && p0 > 0
    ensures Remains(v0, [], v0, p0, base)
  {
  }

  lemma TextAppend(ds: seq<nat>, d: nat, upper: bool)
    requires DigitsBelow(ds, 16) && d < 16
    ensures Text(ds + [d], upper) == Text(ds, upper) + [DigitChar(d, upper)]
  {
    assert (ds + [d])[..|ds|] == ds;
  }

  lemma PlaceStep(v0: nat, done: nat, v: nat, p: nat, base: nat)
    requires base >= 2 && p > 0 && v < p * base && v0 == done * (p * base) + v
    ensures v / p < base && v0 == (done * base + v / p) * p + v % p
  {
    var (d, r) := (v / p, v % p);
    assert v == d * p + r;
    if d >= base {
      MulLe(base, d, p);
    }
    MulAssoc(done, base, p);
    MulAdd(done * base, d, p);
    assert base * p == p * base;
  }

  lemma PowerDown(base: nat, k: nat)
    requires base >= 2 && k > 0
    ensures Power(base, k) / base == Power(base, k - 1) > 0 && Power(base, k - 1) * base == Power(base, k)
  {
    PowerPositive(base, k - 1);
    DivExact(Power(base, k - 1), base);
  }

  lemma DivExact(q: nat, base: nat)
    requires base >= 1
    ensures (q * base) / base == q
  {
    var x := (q * base) / base;
    assert q * base == x * base + (q * base) % base;
    if x < q {
      MulLe(x + 1, q, base);
      MulAdd(x, 1, base);
    } else if q < x {
      MulLe(q + 1, x, base);
      MulAdd(q, 1, base);
    }
  }

  lemma PowerPositive(base: nat, k: nat)
    requires base >= 2
    ensures Power(base, k) > 0
  {
  }

  lemma FirstDigit(v: nat, p: nat)
    requires v >= p > 0
    ensures v / p > 0
  {
  }
  /** The sign and the padding; `pad` is the width left after the digits. */
  method PrintLeading(sign: bool, zero: bool, pad0: int, out0: string) returns (out: string)
    ensures out == out0 + Leading(sign, zero, pad0 - (if sign then 1 else 0))
  {
    var pad := pad0;
    out := out0;
    if zero {
      if sign {
        out := out + ['-'];
        pad := pad - 1;
      }
      out := RepChar('0', pad, out);
    } else {
      if sign {
        pad := pad - 1;
      }
      out := RepChar(' ', pad, out);
      if sign {
        out := out + ['-'];
      }
    }
  }

  /** The integer branch of alt_log_private_printf. */
  method PrintInteger(raw: nat, signed: bool, base: nat, upper: bool, zero: bool, width: int, out0: string)
    returns (out: string)
    requires raw < WRAP && 2 <= base <= 16
    ensures out == out0 + Converted(raw, signed, base, upper, zero, width)
  {
    hide Numeral, Text, Leading, Power;
    var v := raw;
    var sign := false;
    if signed && v >= SIGN_BIT {
      v := (WRAP - 1 - v + 1) % WRAP;   // ~v + 1
      sign := true;
    }
    var p, digitCount := PlaceValue(v, base);
    out := PrintLeading(sign, zero, width - digitCount, out0);
    out := PrintDigits(v, p, digitCount - 1, base, upper, out);
  }

  // ---------------------------------------------------------------- reading the output back

  function CharDigit(c: char): nat {
    if '0' <= c <= '9' then (c - '0') as nat
    else if 'a' <= c <= 'f' then (c - 'a') as nat + 10
    else if 'A' <= c <= 'F' then (c - 'A') as nat + 10
    else 0
  }

  function ScanDigits(s: string, base: nat): nat {
    if s == "" then 0 else ScanDigits(s[..|s| - 1], base) * base + CharDigit(s[|s| - 1])
  }

  function SkipSpaces(s: string): string {
    if s != "" && s[0] == ' ' then SkipSpaces(s[1..]) else s
  }

  /** Behind its spaces, the text has a minus sign. */
  predicate Signed(s: string) {
    SkipSpaces(s) != "" && SkipSpaces(s)[0] == '-'
  }

  /** What follows the spaces and the sign. */
  function Unsigned(s: string): string {
    if Signed(s) then SkipSpaces(s)[1..] else SkipSpaces(s)
  }

  /** Read spaces, an optional minus sign, and digits. */
  function Scan(s: string, base: nat): int {
    if Signed(s) then 0 - ScanDigits(Unsigned(s), base) else ScanDigits(Unsigned(s), base)
  }

  /** c is a digit of the base, in the case asked for. */
  predicate DigitOf(c: char, base: nat, upper: bool) {
    || ('0' <= c <= '9' && (c - '0') as nat < base)
    || (base == 16 && if upper then 'A' <= c <= 'F' else 'a' <= c <= 'f')
  }

  predicate AllDigits(s: string, base: nat, upper: bool) {
    forall i :: 0 <= i < |s| ==> DigitOf(s[i], base, upper)
  }

  /** No zeros in front, unless the number is zero. */
  predicate Tight(s: string) {
    s != "" && (|s| > 1 ==> s[0] != '0')
  }

  /** What a caller may expect of an integer written to a field: it reads back as the number, in the
      digits of the base, is as wide as asked for and no wider than it must be, and is filled up with
      zeros behind the sign or with spaces in front of it. */
  predicate Spells(text: string, v: int, base: nat, upper: bool, zero: bool, width: int) {
    && Scan(text, base) == v && (Signed(text) <==> v < 0)
    && Unsigned(text) != "" && AllDigits(Unsigned(text), base, upper)
    && (if zero then text[0] != ' ' else Tight(Unsigned(text)))
    && |text| >= width && (|text| > width ==> text[0] != ' ' && Tight(Unsigned(text)))
  }

  lemma ScanAppend(s: string, c: char, base: nat)
    ensures ScanDigits(s + [c], base) == ScanDigits(s, base) * base + CharDigit(c)
  {
    assert (s + [c])[..|s|] == s;
  }

  lemma CharRoundTrip(d: nat, upper: bool)
    requires d < 16
    ensures CharDigit(DigitChar(d, upper)) == d
  {
  }

  lemma {:induction false} ScanZeros(n: int, base: nat)
    ensures ScanDigits(Repeat('0', n), base) == 0
    decreases if n > 0 then n else 0
  {
    if n > 0 {
      ScanZeros(n - 1, base);
      ScanAppend(Repeat('0', n - 1), '0', base);
    }
  }

  lemma {:induction false} ScanText(zeros: int, ds: seq<nat>, upper: bool, base: nat)
    requires DigitsBelow(ds, 16)
    ensures ScanDigits(Repeat('0', zeros) + Text(ds, upper), base) == ValueOf(ds, base)
    decreases |ds|
  {
    hide ScanDigits, CharDigit, DigitChar, Repeat;
    if ds != [] {
      var (init, last) := (ds[..|ds| - 1], ds[|ds| - 1]);
      var s := Repeat('0', zeros) + Text(init, upper);
      ScanText(zeros, init, upper, base);
      ScanAppend(s, DigitChar(last, upper), base);
      CharRoundTrip(last, upper);
      assert Repeat('0', zeros) + Text(ds, upper) == s + [DigitChar(last, upper)];
    } else {
      ScanZeros(zeros, base);
      assert Repeat('0', zeros) + "" == Repeat('0', zeros);
    }
  }

  lemma {:induction false} SkipPadding(n: int, t: string)
    requires t != "" && t[0] != ' '
    ensures SkipSpaces(Repeat(' ', n) + t) == t
    decreases if n > 0 then n else 0
  {
    if n > 0 {
      RepeatFront(' ', n);
      assert (Repeat(' ', n) + t)[1..] == Repeat(' ', n - 1) + t;
      SkipPadding(n - 1, t);
    } else {
      assert Repeat(' ', n) + t == t;
    }
  }

  lemma {:induction false} RepeatFront(c: char, n: int)
    requires n > 0
    ensures Repeat(c, n) == [c] + Repeat(c, n - 1)
  {
    if n > 1 {
      RepeatFront(c, n - 1);
    }
  }

  /** Reading the leading characters of a field. */
  lemma LeadingRead(negative: bool, zero: bool, pad: int, digits: string)
    requires digits != "" && digits[0] != ' ' && digits[0] != '-'
    ensures var text := Leading(negative, zero, pad) + digits;
            && (Signed(text) <==> negative)
            && |text| == (if pad > 0 then pad else 0) + (if negative then 1 else 0) + |digits|
            && Unsigned(text) == Repeat('0', if zero then pad else 0) + digits
            && text[0] == if !zero && pad > 0 then ' ' else if negative then '-' else if pad > 0 then '0' else digits[0]
  {
    hide SkipSpaces, Repeat;
    var sign := if negative then "-" else "";
    var body := sign + (Repeat('0', if zero then pad else 0) + digits);
    var spaces := if zero then 0 else pad;
    assert Leading(negative, zero, pad) + digits == Repeat(' ', spaces) + body;
    SkipPadding(spaces, body);
  }

  lemma {:induction false} TextAt(ds: seq<nat>, upper: bool, i: nat)
    requires DigitsBelow(ds, 16) && i < |ds|
    ensures Text(ds, upper)[i] == DigitChar(ds[i], upper)
    decreases |ds|
  {
    if i < |ds| - 1 {
      TextAt(ds[..|ds| - 1], upper, i);
    }
  }

  lemma CharOf(d: nat, base: nat, upper: bool)
    requires d < base && base in {8, 10, 16}
    ensures DigitOf(DigitChar(d, upper), base, upper) && (DigitChar(d, upper) == '0' <==> d == 0)
    ensures DigitChar(d, upper) != ' ' && DigitChar(d, upper) != '-'
  {
  }

  /** Digits with zeros in front are digits; a numeral alone has no zeros in front. */
  lemma NumeralDigits(zeros: int, ds: seq<nat>, base: nat, upper: bool, v: nat)
    requires IsNumeral(ds, base, v) && base in {8, 10, 16}
    ensures AllDigits(Repeat('0', zeros) + Text(ds, upper), base, upper)
    ensures Tight(Text(ds, upper)) && Text(ds, upper)[0] != ' ' && Text(ds, upper)[0] != '-'
  {
    hide DigitOf, DigitChar, ValueOf;
    forall i | 0 <= i < |ds|
      ensures DigitOf(Text(ds, upper)[i], base, upper)
    {
      TextAt(ds, upper, i);
      CharOf(ds[i], base, upper);
    }
    TextAt(ds, upper, 0);
    CharOf(ds[0], base, upper);
    CharOf(0, base, upper);
  }

  /** Round trip: for every 32-bit argument, base, case, zero flag and width, the text spells the
      argument's value, and it is as long as the width asks for and no longer than it and the digits
      with their sign need. */
  lemma ConversionRoundTrip(raw: nat, signed: bool, base: nat, upper: bool, zero: bool, width: int)
    requires raw < WRAP && base in {8, 10, 16}
    ensures var s := Converted(raw, signed, base, upper, zero, width);
            var v := Meaning(raw, signed);
            var needed := |Numeral(Abs(v), base)| + if v < 0 then 1 else 0;
            && Spells(s, v, base, upper, zero, width)
            && |s| == if width > needed then width else needed
  {
    hide ScanDigits, ValueOf, Text, Numeral, AllDigits, Tight, Signed, Unsigned, IsNumeral, Repeat, Leading;
    var v := Meaning(raw, signed);
    var ds := Numeral(Abs(v), base);
    var pad := width - |ds| - (if v < 0 then 1 else 0);
    NumeralRead(ds, base, upper, Abs(v), if zero then pad else 0);
    NoRepeat('0', Text(ds, upper));
    LeadingRead(v < 0, zero, pad, Text(ds, upper));
  }

  lemma NumeralRead(ds: seq<nat>, base: nat, upper: bool, v: nat, zeros: int)
    requires IsNumeral(ds, base, v) && base in {8, 10, 16}
    ensures DigitsBelow(ds, 16)
    ensures var digits := Text(ds, upper);
            && ScanDigits(Repeat('0', zeros) + digits, base) == v && AllDigits(Repeat('0', zeros) + digits, base, upper)
            && Tight(digits) && digits != "" && digits[0] != ' ' && digits[0] != '-'
  {
    hide ScanDigits, ValueOf, Text, AllDigits, Tight, Repeat;
    ScanText(zeros, ds, upper, base);
    NumeralDigits(zeros, ds, base, upper, v);
  }

  lemma NoRepeat(c: char, s: string)
    ensures Repeat(c, 0) + s == s
  {
  }

  // ---------------------------------------------------------------- only one text

  lemma DigitValue(c: char, d: char, base: nat, upper: bool)
    requires DigitOf(c, base, upper) && DigitOf(d, base, upper) && base <= 16
    ensures CharDigit(c) < base && (CharDigit(c) == CharDigit(d) ==> c == d) && (CharDigit(c) == 0 ==> c == '0')
  {
  }

  lemma {:induction false} LeadingPositive(s: string, base: nat, upper: bool)
    requires 2 <= base <= 16 && AllDigits(s, base, upper) && s != "" && s[0] != '0'
    ensures ScanDigits(s, base) > 0
    decreases |s|
  {
    DigitValue(s[0], s[0], base, upper);
    if |s| > 1 {
      LeadingPositive(s[..|s| - 1], base, upper);
      MulLe(1, ScanDigits(s[..|s| - 1], base), base);
    }
  }

  /** Digits that read the same are the same, if the longer ones have no zeros in front. */
  lemma {:induction false} DigitsOnce(a: string, b: string, base: nat, upper: bool)
    requires 2 <= base <= 16 && AllDigits(a, base, upper) && AllDigits(b, base, upper)
    requires ScanDigits(a, base) == ScanDigits(b, base)
    requires |a| >= |b| > 0 && (|a| > |b| ==> Tight(a))
    ensures a == b
    decreases |a|
  {
    hide DigitOf, CharDigit;
    var (a0, x, b0, y) := (a[..|a| - 1], a[|a| - 1], b[..|b| - 1], b[|b| - 1]);
    DigitValue(x, y, base, upper);
    DigitValue(y, x, base, upper);
    SameLast(ScanDigits(a0, base), CharDigit(x), ScanDigits(b0, base), CharDigit(y), base);
    if b0 != "" {
      DigitsOnce(a0, b0, base, upper);
    } else if a0 != "" {
      LeadingPositive(a0, base, upper);
    }
    assert a == a0 + [x] && b == b0 + [y];
  }

  lemma {:induction false} TextParts(s: string)
    ensures |Unsigned(s)| + (if Signed(s) then 1 else 0) == |SkipSpaces(s)| <= |s|
    ensures forall i :: 0 <= i < |s| - |SkipSpaces(s)| ==> s[i] == ' '
    ensures s[|s| - |SkipSpaces(s)|..] == SkipSpaces(s)
    ensures s != "" && s[0] != ' ' ==> |s| == |SkipSpaces(s)|
    decreases |s|
  {
    if s != "" && s[0] == ' ' {
      TextParts(s[1..]);
      var n := |s[1..]| - |SkipSpaces(s[1..])|;
      forall i | 0 <= i < n + 1 ensures s[i] == ' ' {
        if i > 0 {
          assert s[i] == s[1..][i - 1];
        }
      }
    }
  }

  /** The expectations leave a single text. */
  lemma SpellsOnce(s: string, t: string, v: int, base: nat, upper: bool, zero: bool, width: int)
    requires 2 <= base <= 16
    requires Spells(s, v, base, upper, zero, width) && Spells(t, v, base, upper, zero, width)
    ensures s == t
  {
    hide SkipSpaces, ScanDigits, AllDigits;
    TextParts(s);
    TextParts(t);
    if |Unsigned(s)| >= |Unsigned(t)| {
      DigitsOnce(Unsigned(s), Unsigned(t), base, upper);
    } else {
      DigitsOnce(Unsigned(t), Unsigned(s), base, upper);
    }
    var n := |s| - |SkipSpaces(s)|;
    assert SkipSpaces(s) == SkipSpaces(t);
    assert s == s[..n] + s[n..] && t == t[..n] + t[n..];
  }

  // ---------------------------------------------------------------- alt_printf's %x

  /** v & (0xF << shift) */
  function MaskNibble(v: nat, shift: nat): nat {
    PowerPositive(2, shift);
    ((v / Power(2, shift)) % 16) * Power(2, shift)
  }

  lemma {:induction false} ShiftIsPlace(k: nat)
    ensures Power(2, 4 * k) == Power(16, k) > 0
  {
    if k > 0 {
      ShiftIsPlace(k - 1);
      var n := 4 * (k - 1);
      assert Power(2, n + 1) == Power(2, n) * 2 && Power(2, n + 2) == Power(2, n + 1) * 2;
      assert Power(2, n + 3) == Power(2, n + 2) * 2 && Power(2, n + 4) == Power(2, n + 3) * 2;
    }
  }

  lemma DivUnique(v: nat, m: nat, y: nat, w: nat)
    requires m > 0 && v == y * m + w && w < m
    ensures v / m == y
  {
    SameLast(v / m, v % m, y, w, m);
  }

  /** Dropping one more hexadecimal digit. */
  lemma DropDigit(v: nat, q: nat)
    requires q > 0
    ensures q * 16 > 0 && v / (q * 16) == (v / q) / 16
  {
    var (x, r) := (v / q, v % q);
    var (y, z) := (x / 16, x % 16);
    Regroup(q, r, y, z);
    DivUnique(v, q * 16, y, z * q + r);
  }

  lemma Regroup(q: nat, r: nat, y: nat, z: nat)
    requires r < q && z < 16
    ensures z * q + r < q * 16
    ensures (y * 16 + z) * q + r == y * (q * 16) + (z * q + r)
  {
    MulLe(z, 15, q);
    MulAdd(y * 16, z, q);
    MulAssoc(y, 16, q);
  }

  /** The digit the code extracts at a shift, and the test for a zero digit. */
  lemma NibbleAt(v: nat, k: nat)
    ensures Power(2, 4 * k) > 0 && Power(16, k) > 0
    ensures MaskNibble(v, 4 * k) / Power(2, 4 * k) == (v / Power(16, k)) % 16
    ensures MaskNibble(v, 4 * k) == 0 <==> (v / Power(16, k)) % 16 == 0
    ensures v / Power(16, k + 1) == (v / Power(16, k)) / 16
  {
    ShiftIsPlace(k);
    DivExact((v / Power(16, k)) % 16, Power(16, k));
    DropDigit(v, Power(16, k));
    if (v / Power(16, k)) % 16 > 0 {
      MulLe(1, (v / Power(16, k)) % 16, Power(16, k));
    }
  }

  /** A numeral one digit longer. */
  lemma NumeralAppend(ds: seq<nat>, v: nat)
    requires if ds == [] then v / 16 == 0 && v != 0 else IsNumeral(ds, 16, v / 16) && v / 16 != 0
    ensures IsNumeral(ds + [v % 16], 16, v)
  {
    assert (ds + [v % 16])[..|ds|] == ds;
    if ds == [] {
      assert ValueOf([], 16) == 0;
    } else if |ds| == 1 {
      assert ds[..0] == [] && ValueOf(ds, 16) == ds[0];
    }
  }

  /** ds is what has been written of v when j places are left. */
  predicate Written(v: nat, j: nat, ds: seq<nat>) {
    PowerPositive(16, j);
    var high := v / Power(16, j);
    if high == 0 then ds == [] else IsNumeral(ds, 16, high)
  }

  /** The digit at place j is the first one that is not zero, or comes after it. */
  predicate Started(v: nat, j: nat) {
    PowerPositive(16, j);
    v / Power(16, j) != 0
  }

  lemma HexStep(v: nat, j: nat, ds: seq<nat>)
    requires Written(v, j + 1, ds) && Started(v, j)
    ensures Power(2, 4 * j) > 0
    ensures var d := MaskNibble(v, 4 * j) / Power(2, 4 * j);
            d < 16 && Written(v, j, ds + [d])
    ensures j > 0 ==> Started(v, j - 1)
  {
    NibbleAt(v, j);
    NumeralAppend(ds, v / Power(16, j));
    if j > 0 {
      NibbleAt(v, j - 1);
    }
  }

  lemma HexSkip(v: nat, j: nat)
    requires !Started(v, j + 1) && v != 0
    ensures MaskNibble(v, 4 * j) == 0 ==> j > 0 && !Started(v, j)
    ensures MaskNibble(v, 4 * j) != 0 ==> Started(v, j)
  {
    NibbleAt(v, j);
    if j == 0 {
      assert Power(16, 0) == 1;
    }
  }

  lemma HexEnds(v: nat, ds: seq<nat>)
    requires v != 0
    ensures v < WRAP ==> !Started(v, 8)
    ensures Written(v, 0, ds) ==> ds == Numeral(v, 16)
  {
    assert Power(16, 0) == 1 && Power(16, 1) == 16 && Power(16, 2) == 0x100 && Power(16, 3) == 0x1000;
    assert Power(16, 4) == 0x1_0000 && Power(16, 5) == 0x10_0000 && Power(16, 6) == 0x100_0000;
    assert Power(16, 7) == 0x1000_0000 && Power(16, 8) == WRAP;
    if Written(v, 0, ds) {
      NumeralUnique(ds, Numeral(v, 16), 16, v);
    }
  }

  lemma ZeroText()
    ensures Text(Numeral(0, 16), false) == "0"
  {
    assert Numeral(0, 16) == [0];
    TextAppend([], 0, false);
  }

  lemma NothingWritten(v: nat, j: nat)
    requires !Started(v, j)
    ensures Written(v, j, [])
  {
  }

  /** Find the first digit that is not zero. */
  method FirstNonZero(v: nat) returns (shift: int)
    requires 0 < v < WRAP
    ensures 0 <= shift <= 28 && shift % 4 == 0
    ensures Started(v, shift / 4) && !Started(v, shift / 4 + 1)
  {
    hide MaskNibble, Started, Power;
    HexEnds(v, []);
    shift := 28;
    HexSkip(v, 7);
    while MaskNibble(v, shift) == 0
      invariant 0 <= shift <= 28 && shift % 4 == 0 && !Started(v, shift / 4 + 1)
      invariant MaskNibble(v, shift) != 0 ==> Started(v, shift / 4)
      decreases shift
    {
      HexSkip(v, shift / 4);
      shift := shift - 4;
      HexSkip(v, shift / 4);
    }
  }

  /** The %x branch of alt_printf. */
  method PrintHex(v: nat, out0: string) returns (out: string)
    requires v < WRAP
    ensures out == out0 + Text(Numeral(v, 16), false)
  {
    hide Numeral, MaskNibble, ValueOf, Written, Started, Power;
    if v == 0 {
      ZeroText();
      return out0 + "0";
    }
    var shift := FirstNonZero(v);
    out := out0;
    ghost var ds: seq<nat> := [];
    ghost var left: nat := shift / 4 + 1;
    NothingWritten(v, left);
    while shift >= 0
      invariant shift == 4 * (left - 1) && DigitsBelow(ds, 16)
      invariant Written(v, left, ds) && (left > 0 ==> Started(v, left - 1))
      invariant out == out0 + Text(ds, false)
      decreases left
    {
      HexStep(v, left - 1, ds);
      var digit := MaskNibble(v, shift) / Power(2, shift);
      TextAppend(ds, digit, false);
      out := out + [DigitChar(digit, false)];
      shift := shift - 4;
      ds := ds + [digit];
      left := left - 1;
    }
    HexEnds(v, ds);
  }

  /** Both printers write the same text for %x of every 32-bit value. */
  method HexBothWays(v: nat) returns (a: string, b: string)
    requires v < WRAP
    ensures a == b
    ensures Scan(a, 16) == v && a != ""
  {
    a := PrintHex(v, "");
    b := PrintInteger(v, false, 16, false, false, -1, "");
    HexIsConversion(v);
    ConversionRoundTrip(v, false, 16, false, false, -1);
  }

  lemma HexIsConversion(v: nat)
    requires v < WRAP
    ensures Converted(v, false, 16, false, false, -1) == Text(Numeral(v, 16), false)
  {
    assert Repeat(' ', -1 - |Numeral(v, 16)|) == "";
  }
}
