/** Text primitives used by the benchmark: C++ `int` values, `std::to_string`
    for them, and the formatted extractions `iss >> word` and `iss >> int`
    that the trace parser performs on one line. */
module Text {

  /** A C++ `int` on the platforms the benchmark targets: 32-bit two's complement. */
  type int32 = x: int | -0x8000_0000 <= x < 0x8000_0000

  datatype Option<T> = None | Some(value: T)

  /** The characters `isspace` accepts in the "C" locale. */
  predicate IsSpace(c: char) {
    c == ' ' || c == '\t' || c == '\n' || c == '\U{B}' || c == '\U{C}' || c == '\r'
  }

  predicate IsDigit(c: char) {
    '0' <= c <= '9'
  }

  predicate AllDigits(s: string) {
    forall i :: 0 <= i < |s| ==> IsDigit(s[i])
  }

  /** Drops the leading whitespace, as every formatted extraction does first. */
  function SkipSpace(s: string): (r: string)
    ensures |r| <= |s|
    ensures r == [] || !IsSpace(r[0])
  {
    if s != [] && IsSpace(s[0]) then SkipSpace(s[1..]) else s
  }

  /** Length of the longest prefix of `s` that holds no whitespace. */
  function WordLength(s: string): (n: nat)
    ensures n <= |s|
    ensures n == |s| || IsSpace(s[n])
  {
    if s != [] && !IsSpace(s[0]) then 1 + WordLength(s[1..]) else 0
  }

  /** Length of the longest prefix of `s` made of decimal digits. */
  function DigitRun(s: string): (n: nat)
    ensures n <= |s|
    ensures AllDigits(s[..n])
    ensures n == |s| || !IsDigit(s[n])
  {
    if s != [] && IsDigit(s[0]) then 1 + DigitRun(s[1..]) else 0
  }

  /** `iss >> word`: skip whitespace, then take the longest run of
      non-whitespace characters; the stream is left just after the word. */
  function SplitWord(s: string): (r: (string, string))
    ensures SkipSpace(s) == r.0 + r.1
    ensures r.1 == [] || IsSpace(r.1[0])
  {
    var t := SkipSpace(s);
    var n := WordLength(t);
    assert t[..n] + t[n..] == t;
    (t[..n], t[n..])
  }

  function DigitChar(d: nat): (c: char)
    requires d < 10
    ensures IsDigit(c)
  {
    ('0' as int + d) as char
  }

  function DigitValue(c: char): (d: nat)
    requires IsDigit(c)
    ensures d < 10 && DigitChar(d) == c
  {
    c as int - '0' as int
  }

  /** The number a string of decimal digits denotes. */
  function DigitsValue(s: string): nat
    requires AllDigits(s)
  {
    if s == [] then 0 else 10 * DigitsValue(s[..|s| - 1]) + DigitValue(s[|s| - 1])
  }

  /** Decimal digits of a natural number, without leading zeros. */
  function NatDecimal(n: nat): (s: string)
    ensures s != [] && AllDigits(s)
  {
    if n < 10 then [DigitChar(n)] else NatDecimal(n / 10) + [DigitChar(n % 10)]
  }

  /** `std::to_string(int)`: a minus sign for negative values, then the digits. */
  function Decimal(n: int): (s: string)
    ensures s != [] && !IsSpace(s[0])
  {
    if n < 0 then "-" + NatDecimal(-n) else NatDecimal(n)
  }

  /** `iss >> n` for an `int n` that succeeds: skip whitespace, an optional
      sign, then the longest run of decimal digits, whose value must fit in an
      `int`. `None` stands for every extraction that sets the failbit (no
      digits, or a value out of range). On success the rest of the line, just
      after the last digit, is returned with the value. */
  function ReadInt(s: string): (r: Option<(int32, string)>)
    ensures r.Some? ==> |r.value.1| < |s|
    ensures r.Some? ==> r.value.1 == [] || !IsDigit(r.value.1[0])
  {
    ReadSigned(SkipSpace(s))
  }

  /** The extraction once the whitespace is skipped: an optional sign, then
      the digits. */
  function ReadSigned(t: string): (r: Option<(int32, string)>)
    ensures r.Some? ==> |r.value.1| < |t|
    ensures r.Some? ==> r.value.1 == [] || !IsDigit(r.value.1[0])
  {
    if t != [] && t[0] == '-' then ReadMagnitude(true, t[1..])
    else if t != [] && t[0] == '+' then ReadMagnitude(false, t[1..])
    else ReadMagnitude(false, t)
  }

  /** The digits after the optional sign, negated when the sign was `-`. */
  function ReadMagnitude(negative: bool, u: string): (r: Option<(int32, string)>)
    ensures r.Some? ==> |r.value.1| < |u|
    ensures r.Some? ==> r.value.1 == [] || !IsDigit(r.value.1[0])
  {
    var n := DigitRun(u);
    if n == 0 then None
    else
      var magnitude: int := DigitsValue(u[..n]);
      var v := if negative then -magnitude else magnitude;
      if -0x8000_0000 <= v < 0x8000_0000 then Some((v, u[n..])) else None
  }

  /** The value read, or `fallback` when the extraction failed. */
  function ValueOr(r: Option<(int32, string)>, fallback: int32): int32 {
    if r.Some? then r.value.0 else fallback
  }

  lemma {:induction false} NatDecimalValue(n: nat)
    ensures DigitsValue(NatDecimal(n)) == n
  {
    var s := NatDecimal(n);
    if n >= 10 {
      NatDecimalValue(n / 10);
      assert s[..|s| - 1] == NatDecimal(n / 10);
    }
  }

  lemma {:induction false} DigitRunOf(ds: string, rest: string)
    requires AllDigits(ds)
    requires rest == [] || !IsDigit(rest[0])
    ensures DigitRun(ds + rest) == |ds|
  {
    if ds != [] {
      DigitRunOf(ds[1..], rest);
      assert (ds + rest)[1..] == ds[1..] + rest;
    }
  }

  /** Reading back what `Decimal` writes gives the same value, and the stream
      stops right after the number. */
  lemma {:induction false} ReadDecimal(n: int32, rest: string)
    requires rest == [] || !IsDigit(rest[0])
    ensures ReadInt(Decimal(n) + rest) == Some((n, rest))
  {
    var s := Decimal(n) + rest;
    assert s[0] == Decimal(n)[0];
    assert SkipSpace(s) == s;
    ReadSignedDecimal(n, rest);
  }

  lemma {:induction false} ReadSignedDecimal(n: int32, rest: string)
    requires rest == [] || !IsDigit(rest[0])
    ensures ReadSigned(Decimal(n) + rest) == Some((n, rest))
  {
    var s := Decimal(n) + rest;
    if n < 0 {
      var m: nat := -(n as int);
      assert s == "-" + (NatDecimal(m) + rest);
      assert s[0] == '-' && s[1..] == NatDecimal(m) + rest;
      ReadDigits(true, m, rest);
    } else {
      assert s == NatDecimal(n) + rest;
      assert IsDigit(s[0]);
      ReadDigits(false, n, rest);
    }
  }

  /** The digits of `m` followed by a non-digit read back as `m`, negated
      when a minus sign came first, provided the result fits an `int`. */
  lemma {:induction false} ReadDigits(negative: bool, m: nat, rest: string)
    requires rest == [] || !IsDigit(rest[0])
    requires -0x8000_0000 <= (if negative then -(m as int) else m) < 0x8000_0000
    ensures ReadMagnitude(negative, NatDecimal(m) + rest) == Some((if negative then -(m as int) else m, rest))
  {
    var ds := NatDecimal(m);
    var u := ds + rest;
    DigitRunOf(ds, rest);
    assert u[..|ds|] == ds;
    assert u[|ds|..] == rest;
    NatDecimalValue(m);
  }

  /** The same, with whitespace before the number, as in a trace line. */
  lemma {:induction false} ReadSpacedDecimal(n: int32, rest: string)
    requires rest == [] || !IsDigit(rest[0])
    ensures ReadInt(" " + Decimal(n) + rest) == Some((n, rest))
  {
    var s := " " + Decimal(n) + rest;
    var t := Decimal(n) + rest;
    assert s == [' '] + t && s[1..] == t;
    assert t[0] == Decimal(n)[0];
    assert SkipSpace(t) == t;
    assert SkipSpace(s) == t;
    ReadSignedDecimal(n, rest);
  }

  /** The word `iss >> word` takes holds no whitespace. */
  lemma SplitWordIsWord(s: string)
    ensures forall i :: 0 <= i < |SplitWord(s).0| ==> !IsSpace(SplitWord(s).0[i])
  {
    WordHasNoSpace(SkipSpace(s));
  }

  lemma {:induction false} WordHasNoSpace(s: string)
    ensures forall i :: 0 <= i < WordLength(s) ==> !IsSpace(s[i])
  {
    if s != [] && !IsSpace(s[0]) {
      WordHasNoSpace(s[1..]);
    }
  }

  /** Skipping whitespace removes exactly a prefix made of whitespace. */
  lemma {:induction false} SkipSpaceDropsSpace(s: string)
    ensures var r := SkipSpace(s);
      r == s[|s| - |r|..] && forall i :: 0 <= i < |s| - |r| ==> IsSpace(s[i])
  {
    if s != [] && IsSpace(s[0]) {
      SkipSpaceDropsSpace(s[1..]);
    }
  }

  /** A word followed by whitespace splits off at that whitespace. */
  lemma {:induction false} SplitWordOf(w: string, rest: string)
    requires w != [] && forall i :: 0 <= i < |w| ==> !IsSpace(w[i])
    requires rest == [] || IsSpace(rest[0])
    ensures SplitWord(w + rest) == (w, rest)
  {
    WordLengthOf(w, rest);
    var s := w + rest;
    assert s[..|w|] == w && s[|w|..] == rest;
  }

  lemma {:induction false} WordLengthOf(w: string, rest: string)
    requires forall i :: 0 <= i < |w| ==> !IsSpace(w[i])
    requires rest == [] || IsSpace(rest[0])
    ensures WordLength(w + rest) == |w|
  {
    if w != [] {
      WordLengthOf(w[1..], rest);
      assert (w + rest)[1..] == w[1..] + rest;
    }
  }
}
