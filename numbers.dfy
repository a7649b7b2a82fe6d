/**
 * Decimal number literals: the shape a formula accepts for a number
 * (`(\d+\.\d* | \d*\.\d+ | \d+)([eE][+-]?\d+)?`, matched at the front of a
 * string), the value a literal denotes, and the canonical text a number is
 * rendered to when a formula or a cell is turned back into text.
 *
 * A literal denotes `mantissa * 10^exponent` exactly; numbers are `real`, so
 * the rounding of IEEE doubles is not part of this model, and the canonical
 * rendering is positional decimal notation rather than .NET's shortest
 * round-trip format.
 */
module Numbers {
  import opened Basics

  datatype Decimal = Decimal(mantissa: int, exponent: int)

  function Pow10(n: nat): (r: nat)
    ensures r >= 1
  {
    if n == 0 then 1 else 10 * Pow10(n - 1)
  }

  /** The number a decimal denotes. */
  function Value(d: Decimal): real {
    if d.exponent >= 0 then (d.mantissa * Pow10(d.exponent)) as real
    else d.mantissa as real / Pow10(-d.exponent) as real
  }

  // ---------------------------------------------------------------------------
  // Digit strings

  function DigitValue(c: char): nat
    requires IsDigit(c)
  {
    c as int - '0' as int
  }

  function DigitChar(n: nat): (c: char)
    requires n < 10
    ensures IsDigit(c) && DigitValue(c) == n
  {
    ('0' as int + n) as char
  }

  /** The value of a string of decimal digits (the empty string is 0). */
  function ParseDigits(s: string): nat
    requires AllDigits(s)
  {
    if s == [] then 0 else 10 * ParseDigits(s[..|s| - 1]) + DigitValue(s[|s| - 1])
  }

  /** The decimal digits of `n`, most significant first, without leading zeros. */
  function NatDigits(n: nat): (s: string)
    ensures |s| >= 1 && AllDigits(s)
  {
    if n < 10 then [DigitChar(n)] else NatDigits(n / 10) + [DigitChar(n % 10)]
  }

  function Zeros(k: nat): (s: string)
    ensures |s| == k && AllDigits(s)
    ensures forall i :: 0 <= i < k ==> s[i] == '0'
  {
    if k == 0 then "" else Zeros(k - 1) + "0"
  }

  lemma {:induction false} DigitsRoundTrip(n: nat)
    ensures ParseDigits(NatDigits(n)) == n
  {
    if n >= 10 {
      var s := NatDigits(n);
      assert s[..|s| - 1] == NatDigits(n / 10);
      DigitsRoundTrip(n / 10);
    }
  }

  lemma AllDigitsAppend(a: string, b: string)
    requires AllDigits(a) && AllDigits(b)
    ensures AllDigits(a + b)
  {
    forall i | 0 <= i < |a + b| ensures IsDigit((a + b)[i]) {
      if i >= |a| { assert (a + b)[i] == b[i - |a|]; }
    }
  }

  lemma ShiftDigit(pa: int, p: int, pb: int, last: int)
    ensures 10 * (pa * p + pb) + last == pa * (10 * p) + (10 * pb + last)
  {
  }

  lemma {:induction false} ParseDigitsAppend(a: string, b: string)
    requires AllDigits(a) && AllDigits(b)
    ensures AllDigits(a + b)
    ensures ParseDigits(a + b) == ParseDigits(a) * Pow10(|b|) + ParseDigits(b)
    decreases |b|
  {
    AllDigitsAppend(a, b);
    if b == [] {
      assert a + b == a;
    } else {
      var b' := b[..|b| - 1];
      var last := DigitValue(b[|b| - 1]);
      assert (a + b)[..|a + b| - 1] == a + b';
      assert (a + b)[|a + b| - 1] == b[|b| - 1];
      ParseDigitsAppend(a, b');
      var pa, pb, p := ParseDigits(a), ParseDigits(b'), Pow10(|b'|);
      assert ParseDigits(a + b) == 10 * (pa * p + pb) + last;
      assert ParseDigits(b) == 10 * pb + last;
      assert Pow10(|b|) == 10 * p;
      ShiftDigit(pa, p, pb, last);
    }
  }

  lemma {:induction false} ZerosParseToZero(k: nat)
    ensures ParseDigits(Zeros(k)) == 0
  {
    if k > 0 {
      assert Zeros(k)[..k - 1] == Zeros(k - 1);
      ZerosParseToZero(k - 1);
    }
  }

  lemma LeadingZeros(k: nat, s: string)
    requires AllDigits(s)
    ensures AllDigits(Zeros(k) + s) && ParseDigits(Zeros(k) + s) == ParseDigits(s)
  {
    ParseDigitsAppend(Zeros(k), s);
    ZerosParseToZero(k);
    var p := Pow10(|s|);
    assert 0 * p == 0;
  }

  // ---------------------------------------------------------------------------
  // Canonical form

  /** A decimal in lowest terms: zero is 0E0, otherwise the mantissa has no trailing zero. */
  predicate IsNormal(d: Decimal) {
    if d.mantissa == 0 then d.exponent == 0 else d.mantissa % 10 != 0
  }

  /** Strips trailing zeros from the mantissa into the exponent. */
  function Normalize(d: Decimal): (n: Decimal)
    ensures IsNormal(n)
    decreases if d.mantissa < 0 then -d.mantissa else d.mantissa
  {
    if d.mantissa == 0 then Decimal(0, 0)
    else if d.mantissa % 10 == 0 then Normalize(Decimal(d.mantissa / 10, d.exponent + 1))
    else d
  }

  lemma NormalizeNormal(d: Decimal)
    requires IsNormal(d)
    ensures Normalize(d) == d
  {
  }

  lemma {:induction false} NormalizeScaled(m: int, e: int, k: nat)
    ensures Normalize(Decimal(m * Pow10(k), e)) == Normalize(Decimal(m, e + k))
    decreases k
  {
    if k > 0 && m != 0 {
      var q := m * Pow10(k - 1);
      assert m * Pow10(k) == 10 * q;
      assert q != 0;
      assert Normalize(Decimal(10 * q, e)) == Normalize(Decimal(q, e + 1));
      NormalizeScaled(m, e + 1, k - 1);
    }
  }

  lemma ValueShift(q: int, e: int)
    ensures Value(Decimal(10 * q, e)) == Value(Decimal(q, e + 1))
  {
    if e >= 0 {
      assert 10 * q * Pow10(e) == q * Pow10(e + 1);
    } else if e == -1 {
      assert Pow10(1) == 10;
    } else {
      var p := Pow10(-e - 1);
      assert Pow10(-e) == 10 * p;
      var x := q as real;
      var y := p as real;
      assert (10 * q) as real / (10 * p) as real == (10.0 * x) / (10.0 * y);
      assert (10.0 * x) / (10.0 * y) == x / y;
    }
  }

  lemma {:induction false} ValueScaled(m: int, e: int, k: nat)
    ensures Value(Decimal(m * Pow10(k), e)) == Value(Decimal(m, e + k))
    decreases k
  {
    if k > 0 {
      var q := m * Pow10(k - 1);
      assert m * Pow10(k) == 10 * q;
      ValueShift(q, e);
      ValueScaled(m, e + 1, k - 1);
    }
  }

  lemma {:induction false} NormalizeKeepsValue(d: Decimal)
    ensures Value(Normalize(d)) == Value(d)
    decreases if d.mantissa < 0 then -d.mantissa else d.mantissa
  {
    if d.mantissa == 0 {
      assert Value(d) == 0.0;
    } else if d.mantissa % 10 == 0 {
      var q := d.mantissa / 10;
      assert d.mantissa == 10 * q;
      ValueShift(q, d.exponent);
      NormalizeKeepsValue(Decimal(q, d.exponent + 1));
    }
  }

  lemma MulCancel(x: int, y: int, p: int)
    requires p >= 1
    ensures x * p == y * p ==> x == y
  {
    assert x < y ==> x * p < y * p;
    assert y < x ==> y * p < x * p;
  }

  lemma SameExponentSameValue(x: int, y: int, e: int)
    requires Value(Decimal(x, e)) == Value(Decimal(y, e))
    ensures x == y
  {
    if e >= 0 {
      var p := Pow10(e);
      assert (x * p) as real == (y * p) as real;
      MulCancel(x, y, p);
    } else {
      var p := Pow10(-e) as real;
      assert x as real / p == y as real / p;
      assert x as real == (x as real / p) * p;
      assert y as real == (y as real / p) * p;
    }
  }

  lemma TimesPowerOfTen(q: int, k: nat)
    ensures k > 0 ==> (q * Pow10(k)) % 10 == 0
    ensures q * Pow10(k) == 0 ==> q == 0
  {
    if k > 0 {
      var r := q * Pow10(k - 1);
      assert q * Pow10(k) == 10 * r;
    }
    MulCancel(q, 0, Pow10(k));
  }

  /** Two decimals in lowest terms with the same value are the same decimal. */
  lemma NormalFormUnique(a: Decimal, b: Decimal)
    requires IsNormal(a) && IsNormal(b) && Value(a) == Value(b)
    ensures a == b
  {
    if a.exponent <= b.exponent {
      NormalFormUniqueOrdered(a, b);
    } else {
      NormalFormUniqueOrdered(b, a);
    }
  }

  lemma NormalFormUniqueOrdered(a: Decimal, b: Decimal)
    requires IsNormal(a) && IsNormal(b) && Value(a) == Value(b)
    requires a.exponent <= b.exponent
    ensures a == b
  {
    var k: nat := b.exponent - a.exponent;
    var scaled := b.mantissa * Pow10(k);
    ValueScaled(b.mantissa, a.exponent, k);
    SameExponentSameValue(a.mantissa, scaled, a.exponent);
    TimesPowerOfTen(b.mantissa, k);
    assert k == 0;
  }

  // ---------------------------------------------------------------------------
  // Rendering

  /** Positional text of `m * 10^e` for a non-negative mantissa. */
  function Positional(m: nat, e: int): string {
    var ds := NatDigits(m);
    if e >= 0 then ds + Zeros(e)
    else
      var k := -e;
      var whole := if |ds| > k then ds[..|ds| - k] else "0";
      var fraction := if |ds| > k then ds[|ds| - k..] else Zeros(k - |ds|) + ds;
      whole + "." + fraction
  }

  /**
   * The canonical text of a number (the stand-in for `double.ToString()`): the
   * positional notation of its lowest-terms decimal, with a leading '-' when
   * negative.
   */
  function Render(d: Decimal): string {
    Signed(Normalize(d))
  }

  /** Positional text with a leading '-' for a negative mantissa. */
  function Signed(n: Decimal): string {
    if n.mantissa < 0 then "-" + Positional(-n.mantissa, n.exponent)
    else Positional(n.mantissa, n.exponent)
  }

  // ---------------------------------------------------------------------------
  // Scanning

  /** Number of digits at the front of `t`. */
  function DigitRun(t: string): (k: nat)
    ensures k <= |t|
    ensures AllDigits(t[..k])
    ensures k < |t| ==> !IsDigit(t[k])
  {
    if t != [] && IsDigit(t[0]) then
      var k := 1 + DigitRun(t[1..]);
      assert t[..k] == [t[0]] + t[1..][..k - 1];
      k
    else 0
  }

  datatype NumberScan = NoNumber | Number(length: nat, literal: Decimal)

  /** Matches the optional exponent part `[eE][+-]?\d+` at the front of `t`: its length and value. */
  function ScanExponent(t: string): (r: (nat, int))
    ensures r.0 <= |t|
  {
    if t != [] && (t[0] == 'e' || t[0] == 'E') then
      var signLen := if |t| > 1 && (t[1] == '+' || t[1] == '-') then 1 else 0;
      var ds := DigitRun(t[1 + signLen..]);
      if ds > 0 then
        var magnitude: int := ParseDigits(t[1 + signLen..][..ds]);
        (1 + signLen + ds, if signLen == 1 && t[1] == '-' then -magnitude else magnitude)
      else (0, 0)
    else (0, 0)
  }

  /**
   * Matches the number pattern at the front of `t`, trying its alternatives in
   * the regex engine's order: digits-point-digits*, then point-digits+, then
   * digits+, each followed greedily by an optional exponent.
   */
  function ScanNumber(t: string): (r: NumberScan)
    ensures r.Number? ==> 0 < r.length <= |t| && r.literal.mantissa >= 0
  {
    var d1 := DigitRun(t);
    if TakesPoint(t, d1) then ScanFraction(t, d1, DigitRun(t[d1 + 1..]))
    else if d1 == 0 then NoNumber
    else
      var ex := ScanExponent(t[d1..]);
      Number(d1 + ex.0, Decimal(ParseDigits(t[..d1]), ex.1))
  }

  /**
   * The point after the leading digits belongs to the literal when there is a
   * digit on at least one side of it.
   */
  predicate TakesPoint(t: string, d1: nat)
    requires d1 <= |t|
  {
    d1 < |t| && t[d1] == '.' && d1 + DigitRun(t[d1 + 1..]) > 0
  }

  /** The literal `t[..d1] . t[d1+1..][..d2]`, followed by an optional exponent. */
  function ScanFraction(t: string, d1: nat, d2: nat): (r: NumberScan)
    requires d1 + 1 + d2 <= |t| && d1 + d2 > 0
    requires AllDigits(t[..d1]) && AllDigits(t[d1 + 1..][..d2])
    ensures r.Number? && 0 < r.length <= |t| && r.literal.mantissa >= 0
  {
    var ex := ScanExponent(t[d1 + 1 + d2..]);
    var mantissa := ParseDigits(t[..d1]) * Pow10(d2) + ParseDigits(t[d1 + 1..][..d2]);
    Number(d1 + 1 + d2 + ex.0, Decimal(mantissa, ex.1 - d2))
  }

  /** Drops leading white space. */
  function TrimStart(s: string): (r: string)
    ensures |r| <= |s| && (r == [] || !IsWhitespace(r[0]))
  {
    if s != [] && IsWhitespace(s[0]) then TrimStart(s[1..]) else s
  }

  /** Drops trailing white space. */
  function TrimEnd(s: string): (r: string)
    ensures |r| <= |s| && (r == [] || !IsWhitespace(r[|r| - 1]))
  {
    if s != [] && IsWhitespace(s[|s| - 1]) then TrimEnd(s[..|s| - 1]) else s
  }

  /**
   * `double.TryParse` on a cell's whole text, restricted to optional white
   * space, an optional sign, exactly one number literal and optional white
   * space.
   */
  function ParseDouble(s: string): (r: Option<Decimal>)
    ensures s != [] && IsWhitespace(s[0]) ==> r == ParseDouble(s[1..])
    ensures (forall i :: 0 <= i < |s| ==> IsWhitespace(s[i])) ==> r.None?
  {
    if forall i :: 0 <= i < |s| ==> IsWhitespace(s[i]) then
      TrimStartBlank(s);
      assert TrimEnd(TrimStart(s)) == [];
      ParseSigned(TrimEnd(TrimStart(s)))
    else
      ParseSigned(TrimEnd(TrimStart(s)))
  }

  lemma {:induction false} TrimStartBlank(s: string)
    requires forall i :: 0 <= i < |s| ==> IsWhitespace(s[i])
    ensures TrimStart(s) == []
    decreases |s|
  {
    if s != [] {
      assert forall i :: 0 <= i < |s[1..]| ==> IsWhitespace(s[1..][i]) by {
        forall i | 0 <= i < |s[1..]| ensures IsWhitespace(s[1..][i]) { assert s[1..][i] == s[i + 1]; }
      }
      TrimStartBlank(s[1..]);
    }
  }

  function ParseSigned(s: string): Option<Decimal> {
    var signLen := if s != [] && (s[0] == '+' || s[0] == '-') then 1 else 0;
    var body := s[signLen..];
    match ScanNumber(body)
    case NoNumber => None
    case Number(len, lit) =>
      if len != |body| then None
      else if signLen == 1 && s[0] == '-' then Some(Decimal(-lit.mantissa, lit.exponent))
      else Some(lit)
  }

  /** A character that could extend a number literal that precedes it. */
  predicate ExtendsNumber(c: char) {
    IsDigit(c) || c == '.' || c == 'e' || c == 'E'
  }

  // ---------------------------------------------------------------------------
  // Round trips

  lemma DigitRunAppend(a: string, b: string)
    requires AllDigits(a)
    requires b == [] || !IsDigit(b[0])
    ensures DigitRun(a + b) == |a|
    decreases |a|
  {
    if a != [] {
      assert (a + b)[1..] == a[1..] + b;
      DigitRunAppend(a[1..], b);
    }
  }

  lemma DigitRunAll(a: string)
    requires AllDigits(a)
    ensures DigitRun(a) == |a|
  {
    DigitRunAppend(a, "");
    assert a + "" == a;
  }

  /**
   * Scanning the rendering of a non-negative number, followed by anything
   * that cannot continue a literal, reads back exactly the rendering, and
   * the literal read has the canonical form of the number rendered.
   */
  lemma RenderScansBack(d: Decimal, rest: string)
    requires d.mantissa >= 0
    requires rest == [] || !ExtendsNumber(rest[0])
    ensures ScanNumber(Render(d) + rest).Number?
    ensures ScanNumber(Render(d) + rest).length == |Render(d)|
    ensures Normalize(ScanNumber(Render(d) + rest).literal) == Normalize(d)
  {
    var n := Normalize(d);
    assert n.mantissa >= 0 by { NormalizeSign(d); }
    PositionalScansBack(n.mantissa, n.exponent, rest);
  }

  lemma {:induction false} NormalizeSign(d: Decimal)
    ensures (Normalize(d).mantissa >= 0) == (d.mantissa >= 0)
    decreases if d.mantissa < 0 then -d.mantissa else d.mantissa
  {
    if d.mantissa != 0 && d.mantissa % 10 == 0 {
      NormalizeSign(Decimal(d.mantissa / 10, d.exponent + 1));
    }
  }

  lemma NoExponent(rest: string)
    requires rest == [] || !ExtendsNumber(rest[0])
    ensures ScanExponent(rest) == (0, 0)
  {
  }

  /** An integer literal followed by a non-continuation scans as exactly that literal. */
  lemma ScanIntegerShape(a: string, rest: string)
    requires |a| >= 1 && AllDigits(a)
    requires rest == [] || !ExtendsNumber(rest[0])
    ensures ScanNumber(a + rest) == Number(|a|, Decimal(ParseDigits(a), 0))
  {
    var t := a + rest;
    DigitRunAppend(a, rest);
    assert t[..|a|] == a;
    assert t[|a|..] == rest;
    assert a + "" == a;
    NoExponent(rest);
  }

  /** A literal with a point and digits on the left scans as exactly that literal. */
  lemma ScanPointShape(ip: string, fp: string, rest: string)
    requires |ip| >= 1 && AllDigits(ip) && AllDigits(fp)
    requires rest == [] || !ExtendsNumber(rest[0])
    ensures ScanNumber(ip + "." + fp + rest)
         == Number(|ip| + 1 + |fp|, Decimal(ParseDigits(ip) * Pow10(|fp|) + ParseDigits(fp), -|fp|))
  {
    var t := ip + "." + fp + rest;
    var d1 := |ip|;
    PointRuns(ip, fp, rest);
    PointPieces(ip, fp, rest);
    NoExponent(rest);
    assert ScanNumber(t) == ScanFraction(t, d1, |fp|);
  }

  /** The digit runs on either side of the point in `ip.fp rest`. */
  lemma PointRuns(ip: string, fp: string, rest: string)
    requires |ip| >= 1 && AllDigits(ip) && AllDigits(fp)
    requires rest == [] || !ExtendsNumber(rest[0])
    ensures var t := ip + "." + fp + rest;
            DigitRun(t) == |ip| && t[|ip| + 1..] == fp + rest && DigitRun(t[|ip| + 1..]) == |fp|
            && TakesPoint(t, |ip|)
  {
    var t := ip + "." + fp + rest;
    var pt := "." + (fp + rest);
    assert pt[0] == '.';
    assert t == ip + pt;
    DigitRunAppend(ip, pt);
    assert t[|ip| + 1..] == fp + rest;
    DigitRunAppend(fp, rest);
  }

  /** The slices of `ip.fp rest` that the scanner reads. */
  lemma PointPieces(ip: string, fp: string, rest: string)
    ensures var t := ip + "." + fp + rest;
            t[..|ip|] == ip && t[|ip| + 1..][..|fp|] == fp && t[|ip| + 1 + |fp|..] == rest
  {
    var t := ip + "." + fp + rest;
    assert t[|ip| + 1..] == fp + rest;
  }

  lemma PositionalScansBack(m: nat, e: int, rest: string)
    requires IsNormal(Decimal(m, e))
    requires rest == [] || !ExtendsNumber(rest[0])
    ensures ScanNumber(Positional(m, e) + rest).Number?
    ensures ScanNumber(Positional(m, e) + rest).length == |Positional(m, e)|
    ensures Normalize(ScanNumber(Positional(m, e) + rest).literal) == Decimal(m, e)
  {
    if e >= 0 {
      PositionalIntegerScansBack(m, e, rest);
    } else {
      PositionalPointScansBack(m, e, rest);
    }
  }

  lemma PositionalIntegerScansBack(m: nat, e: int, rest: string)
    requires IsNormal(Decimal(m, e)) && e >= 0
    requires rest == [] || !ExtendsNumber(rest[0])
    ensures ScanNumber(Positional(m, e) + rest)
         == Number(|Positional(m, e)|, Decimal(m * Pow10(e), 0))
    ensures Normalize(Decimal(m * Pow10(e), 0)) == Decimal(m, e)
  {
    var ds := NatDigits(m);
    var t := ds + Zeros(e);
    assert AllDigits(t) && ParseDigits(t) == m * Pow10(e) by {
      DigitsRoundTrip(m);
      ParseDigitsAppend(ds, Zeros(e));
      ZerosParseToZero(e);
    }
    assert Positional(m, e) == t;
    ScanIntegerShape(t, rest);
    assert Normalize(Decimal(m * Pow10(e), 0)) == Decimal(m, e) by {
      NormalizeScaled(m, 0, e);
      NormalizeNormal(Decimal(m, e));
    }
  }

  lemma PositionalPointScansBack(m: nat, e: int, rest: string)
    requires IsNormal(Decimal(m, e)) && e < 0
    requires rest == [] || !ExtendsNumber(rest[0])
    ensures ScanNumber(Positional(m, e) + rest) == Number(|Positional(m, e)|, Decimal(m, e))
  {
    DigitsRoundTrip(m);
    if |NatDigits(m)| > -e {
      LongPointScansBack(m, e, rest);
    } else {
      ShortPointScansBack(m, e, rest);
    }
  }

  lemma LongPointScansBack(m: nat, e: int, rest: string)
    requires e < 0 && |NatDigits(m)| > -e && ParseDigits(NatDigits(m)) == m
    requires rest == [] || !ExtendsNumber(rest[0])
    ensures ScanNumber(Positional(m, e) + rest) == Number(|Positional(m, e)|, Decimal(m, e))
  {
    var ds := NatDigits(m);
    var k := -e;
    var ip, fp := ds[..|ds| - k], ds[|ds| - k..];
    assert ip + fp == ds;
    PointScansBack(ip, fp, m, rest, Positional(m, e));
  }

  lemma ShortPointScansBack(m: nat, e: int, rest: string)
    requires e < 0 && |NatDigits(m)| <= -e && ParseDigits(NatDigits(m)) == m
    requires rest == [] || !ExtendsNumber(rest[0])
    ensures ScanNumber(Positional(m, e) + rest) == Number(|Positional(m, e)|, Decimal(m, e))
  {
    var ds := NatDigits(m);
    var fp := Zeros(-e - |ds|) + ds;
    assert |fp| == -e;
    assert AllDigits(fp) && ParseDigits("0" + fp) == m by {
      LeadingZeros(-e - |ds|, ds);
      LeadingZeros(1, fp);
      assert Zeros(1) == "0";
    }
    assert Positional(m, e) == "0" + "." + fp by { ShortPositional(m, e); }
    PointScansBack("0", fp, m, rest, Positional(m, e));
  }

  lemma ShortPositional(m: nat, e: int)
    requires e < 0 && |NatDigits(m)| <= -e
    ensures Positional(m, e) == "0" + "." + (Zeros(-e - |NatDigits(m)|) + NatDigits(m))
  {
  }

  lemma PointScansBack(ip: string, fp: string, m: nat, rest: string, text: string)
    requires |ip| >= 1 && AllDigits(ip) && AllDigits(fp)
    requires ParseDigits(ip + fp) == m
    requires rest == [] || !ExtendsNumber(rest[0])
    requires text == ip + "." + fp
    ensures ScanNumber(text + rest) == Number(|text|, Decimal(m, -|fp|))
  {
    ParseDigitsAppend(ip, fp);
    ScanPointShape(ip, fp, rest);
  }

  lemma PositionalStartsWithDigit(m: nat, e: int)
    ensures Positional(m, e) != [] && IsDigit(Positional(m, e)[0])
  {
    var ds := NatDigits(m);
    if e < 0 && |ds| > -e {
      assert ds[..|ds| + e][0] == ds[0];
    }
  }

  lemma PositionalEndsInDigit(m: nat, e: int)
    ensures |Positional(m, e)| > 0 && IsDigit(Positional(m, e)[|Positional(m, e)| - 1])
  {
    var ds := NatDigits(m);
    if e >= 0 {
      var t := ds + Zeros(e);
      assert t[|t| - 1] == if e == 0 then ds[|ds| - 1] else Zeros(e)[e - 1];
    } else {
      var k := -e;
      var whole := if |ds| > k then ds[..|ds| - k] else "0";
      var fraction := if |ds| > k then ds[|ds| - k..] else Zeros(k - |ds|) + ds;
      assert |fraction| == k && AllDigits(fraction) by {
        if |ds| <= k { LeadingZeros(k - |ds|, ds); }
      }
      var t := whole + "." + fraction;
      assert t[|t| - 1] == fraction[k - 1];
    }
  }

  lemma ParseDoubleUnsigned(body: string)
    requires body != [] && IsDigit(body[0])
    requires ScanNumber(body).Number? && ScanNumber(body).length == |body|
    requires !IsWhitespace(body[|body| - 1])
    ensures ParseDouble(body) == Some(ScanNumber(body).literal)
    ensures ParseDouble("-" + body)
         == Some(Decimal(-ScanNumber(body).literal.mantissa, ScanNumber(body).literal.exponent))
  {
    var neg := "-" + body;
    assert neg[|neg| - 1] == body[|body| - 1];
    NothingToTrim(body);
    NothingToTrim(neg);
    ParseSignedUnsigned(body);
    ParseSignedNegative(body);
  }

  lemma ParseSignedUnsigned(body: string)
    requires body != [] && IsDigit(body[0])
    requires ScanNumber(body).Number? && ScanNumber(body).length == |body|
    ensures ParseSigned(body) == Some(ScanNumber(body).literal)
  {
  }

  lemma ParseSignedNegative(body: string)
    requires ScanNumber(body).Number? && ScanNumber(body).length == |body|
    ensures ParseSigned("-" + body)
         == Some(Decimal(-ScanNumber(body).literal.mantissa, ScanNumber(body).literal.exponent))
  {
    assert ("-" + body)[1..] == body;
  }

  lemma NothingToTrim(s: string)
    requires s != [] && !IsWhitespace(s[0]) && !IsWhitespace(s[|s| - 1])
    ensures TrimEnd(TrimStart(s)) == s
  {
  }

  /** The canonical text of a cell number parses back to the same number. */
  lemma RenderParsesBack(d: Decimal)
    ensures ParseDouble(Render(d)).Some?
    ensures Normalize(ParseDouble(Render(d)).value) == Normalize(d)
  {
    var n := Normalize(d);
    NormalizeNormal(n);
    SignedParsesBack(n);
  }

  /** The signed positional text of a lowest-terms decimal parses back to it. */
  lemma SignedParsesBack(n: Decimal)
    requires IsNormal(n)
    ensures ParseDouble(Signed(n)).Some? && Normalize(ParseDouble(Signed(n)).value) == n
  {
    NormalMagnitude(n);
    if n.mantissa < 0 {
      NegativeParsesBack(-n.mantissa, n.exponent);
    } else {
      NonNegativeParsesBack(n.mantissa, n.exponent);
    }
  }

  lemma NonNegativeParsesBack(m: nat, e: int)
    requires IsNormal(Decimal(m, e))
    ensures ParseDouble(Positional(m, e)).Some? && Normalize(ParseDouble(Positional(m, e)).value) == Decimal(m, e)
  {
    PositionalParses(m, e);
    ParseDoubleUnsigned(Positional(m, e));
  }

  lemma NegativeParsesBack(m: nat, e: int)
    requires IsNormal(Decimal(m, e))
    ensures var p := ParseDouble("-" + Positional(m, e));
            p.Some? && Normalize(p.value) == Decimal(-(m as int), e)
  {
    var body := Positional(m, e);
    PositionalParses(m, e);
    ParseDoubleUnsigned(body);
    NegateNormalize(ScanNumber(body).literal);
  }

  /** The positional text of a lowest-terms decimal scans whole, back to that decimal, and starts and ends with a digit. */
  lemma PositionalParses(m: nat, e: int)
    requires IsNormal(Decimal(m, e))
    ensures var body := Positional(m, e);
            && ScanNumber(body).Number? && ScanNumber(body).length == |body|
            && Normalize(ScanNumber(body).literal) == Decimal(m, e)
            && body != [] && IsDigit(body[0]) && !IsWhitespace(body[|body| - 1])
  {
    var body := Positional(m, e);
    PositionalScansBack(m, e, "");
    assert body + "" == body;
    PositionalStartsWithDigit(m, e);
    PositionalEndsInDigit(m, e);
  }

  /** A decimal in lowest terms stays in lowest terms when its sign is dropped. */
  lemma NormalMagnitude(n: Decimal)
    requires IsNormal(n)
    ensures IsNormal(Decimal(if n.mantissa < 0 then -n.mantissa else n.mantissa, n.exponent))
  {
  }

  lemma {:induction false} NegateNormalize(d: Decimal)
    ensures Normalize(Decimal(-d.mantissa, d.exponent))
         == Decimal(-Normalize(d).mantissa, Normalize(d).exponent)
    decreases if d.mantissa < 0 then -d.mantissa else d.mantissa
  {
    if d.mantissa != 0 && d.mantissa % 10 == 0 {
      assert (-d.mantissa) % 10 == 0;
      assert (-d.mantissa) / 10 == -(d.mantissa / 10);
      NegateNormalize(Decimal(d.mantissa / 10, d.exponent + 1));
    } else if d.mantissa != 0 {
      assert (-d.mantissa) % 10 != 0;
    }
  }

  /**
   * The rendering is canonical and faithful: two numbers render to the same
   * text exactly when they have the same value.
   */
  lemma RenderCanonical(a: Decimal, b: Decimal)
    ensures Render(a) == Render(b) <==> Value(a) == Value(b)
  {
    NormalizeKeepsValue(a);
    NormalizeKeepsValue(b);
    if Value(a) == Value(b) {
      NormalFormUnique(Normalize(a), Normalize(b));
    }
    if Render(a) == Render(b) {
      RenderParsesBack(a);
      RenderParsesBack(b);
    }
  }
}
