// The 32-bit arithmetic helpers of kernel/kernel.c: page rounding, the decimal
// parser used for CREATE's size argument, and the decimal formatter used by LIST.

module Numbers {
  import opened CStrings

  const U32: int := 0x1_0000_0000

  /** uint32_t */
  type uint32 = x: int | 0 <= x < 0x1_0000_0000

  const PAGE_SIZE: int := 4096

  // ---------------------------------------------------------------------------
  // round_up_page

  /** `(n + 4095) & ~4095` in uint32_t arithmetic. The sum wraps modulo 2^32,
      and clearing the low twelve bits of `x` leaves `x - x % 4096`. */
  function RoundUpPage(n: uint32): (r: uint32)
    ensures r % PAGE_SIZE == 0
    ensures n <= U32 - PAGE_SIZE ==> n <= r < n + PAGE_SIZE
    ensures n > U32 - PAGE_SIZE ==> r == 0
  {
    var x := (n + PAGE_SIZE - 1) % U32;
    x - x % PAGE_SIZE
  }

  /** Below the wrap-around point the rounded size is the least page multiple
      that is not below the request. */
  lemma RoundUpPageIsLeast(n: uint32, m: int)
    requires n <= U32 - PAGE_SIZE
    requires m % PAGE_SIZE == 0 && n <= m
    ensures RoundUpPage(n) <= m
  {
    var r := RoundUpPage(n);
    var a, b := r / PAGE_SIZE, m / PAGE_SIZE;
    assert r == a * PAGE_SIZE && m == b * PAGE_SIZE;
    assert a * PAGE_SIZE < (b + 1) * PAGE_SIZE;
  }

  // ---------------------------------------------------------------------------
  // Digit strings

  predicate IsDigit(c: char)
  {
    '0' <= c <= '9'
  }

  predicate AllDigits(s: seq<char>)
  {
    forall i :: 0 <= i < |s| ==> IsDigit(s[i])
  }

  function DigitValue(c: char): (d: nat)
    requires IsDigit(c)
  {
    c as int - '0' as int
  }

  /** `'0' + d` */
  function DigitChar(d: nat): (c: char)
    requires d < 10
    ensures IsDigit(c) && DigitValue(c) == d
  {
    ('0' as int + d) as char
  }

  /** The number a digit string denotes, most significant digit first. */
  function Value(ds: seq<char>): (v: nat)
    requires AllDigits(ds)
  {
    if ds == [] then 0 else Value(ds[..|ds| - 1]) * 10 + DigitValue(ds[|ds| - 1])
  }

  /** The longest prefix of the string made of decimal digits. */
  function DigitPrefix(t: Text): (ds: Text)
    ensures |ds| <= |t| && ds == t[..|ds|]
    ensures AllDigits(ds)
    ensures |ds| < |t| ==> !IsDigit(t[|ds|])
  {
    if t != [] && IsDigit(t[0]) then
      var ds := DigitPrefix(t[1..]);
      assert [t[0]] + ds == t[..|ds| + 1];
      [t[0]] + ds
    else []
  }

  // ---------------------------------------------------------------------------
  // parse_uint

  /** What parse_uint returns for a C string: after any leading spaces, the value
      of the longest run of digits, reduced modulo 2^32 (0 when there is no digit). */
  function ParseValue(t: Text): (r: uint32)
    ensures AllDigits(t) ==> r == Value(t) % U32
    ensures SkipSpaces(t) == [] || !IsDigit(SkipSpaces(t)[0]) ==> r == 0
  {
    var r := Value(DigitPrefix(SkipSpaces(t))) % U32;
    assert AllDigits(t) ==> r == Value(t) % U32 by {
      if AllDigits(t) && t != [] {
        assert t[0] != ' ';
        assert t[..|t|] == t;
        DigitPrefixAt(t, |t|);
      }
    }
    r
  }

  lemma ModAddMultiple(a: nat, b: nat)
    ensures (a * U32 + b) % U32 == b % U32
  {
  }

  /** Reducing modulo 2^32 at every step gives the same result as reducing once at the end. */
  lemma ModStep(x: nat, d: nat)
    ensures ((x % U32) * 10 + d) % U32 == (x * 10 + d) % U32
  {
    var q := x / U32;
    assert x * 10 + d == (q * 10) * U32 + ((x % U32) * 10 + d);
    ModAddMultiple(q * 10, (x % U32) * 10 + d);
  }

  /** One step of parse_uint's accumulator: `v * 10 + (c - '0')` in uint32_t. */
  function Accumulate(v: uint32, c: char): (r: uint32)
    requires IsDigit(c)
  {
    (v * 10 + DigitValue(c)) % U32
  }

  lemma AccumulateValue(ds: seq<char>, c: char)
    requires AllDigits(ds) && IsDigit(c)
    ensures AllDigits(ds + [c])
    ensures Accumulate(Value(ds) % U32, c) == Value(ds + [c]) % U32
  {
    assert (ds + [c])[..|ds|] == ds;
    ModStep(Value(ds), DigitValue(c));
  }

  /** The digit run that starts a string ends at the first non-digit. */
  lemma DigitPrefixAt(t: Text, n: nat)
    requires n <= |t| && AllDigits(t[..n])
    requires n == |t| || !IsDigit(t[n])
    ensures DigitPrefix(t) == t[..n]
  {
    var ds := DigitPrefix(t);
    assert forall k :: 0 <= k < n ==> IsDigit(t[k]) by {
      forall k | 0 <= k < n ensures IsDigit(t[k]) {
        assert t[..n][k] == t[k];
      }
    }
    assert forall k :: 0 <= k < |ds| ==> IsDigit(t[k]) by {
      forall k | 0 <= k < |ds| ensures IsDigit(t[k]) {
        assert ds[k] == t[k];
      }
    }
  }

  /** ParseValue read off the positions where the spaces and the digits end. */
  lemma ParseValueAt(s: Text, start: nat, end: nat)
    requires start <= end <= |s|
    requires forall k :: 0 <= k < start ==> s[k] == ' '
    requires start == |s| || s[start] != ' '
    requires AllDigits(s[start..end])
    requires end == |s| || !IsDigit(s[end])
    ensures ParseValue(s) == Value(s[start..end]) % U32
  {
    SkipSpacesAt(s, start);
    var t := s[start..];
    assert t[..end - start] == s[start..end];
    DigitPrefixAt(t, end - start);
    assert SkipSpaces(s) == t;
    assert DigitPrefix(SkipSpaces(s)) == s[start..end];
  }

  /** parse_uint: skips spaces, then accumulates `v = v * 10 + digit` in uint32_t
      arithmetic while digits follow; anything after the digits is ignored. */
  method ParseUint(s: Text) returns (r: uint32)
    ensures r == ParseValue(s)
  {
    var i := 0;
    while i < |s| && s[i] == ' '
      invariant 0 <= i <= |s|
      invariant forall k :: 0 <= k < i ==> s[k] == ' '
    {
      i := i + 1;
    }
    var start := i;
    var v: uint32 := 0;
    var any := false;
    while i < |s| && IsDigit(s[i])
      invariant start <= i <= |s|
      invariant AllDigits(s[start..i])
      invariant v == Value(s[start..i]) % U32
      invariant any == (i > start)
    {
      assert s[start..i + 1] == s[start..i] + [s[i]];
      AccumulateValue(s[start..i], s[i]);
      any := true;
      v := Accumulate(v, s[i]);
      i := i + 1;
    }
    ParseValueAt(s, start, i);
    r := if any then v else 0;
  }

  // ---------------------------------------------------------------------------
  // dec_to_ascii

  /** The decimal digits of `v`, least significant first (empty for 0). */
  function Digits(v: nat): (ds: seq<char>)
    ensures AllDigits(ds)
  {
    if v == 0 then [] else [DigitChar(v % 10)] + Digits(v / 10)
  }

  /** The decimal numeral of `v` without leading zeros ("0" for 0). */
  function Decimal(v: nat): (s: Text)
    ensures |s| >= 1 && AllDigits(s)
    ensures s == "0" <==> v == 0
    ensures |s| > 1 ==> s[0] != '0'
  {
    if v < 10 then [DigitChar(v)] else Decimal(v / 10) + [DigitChar(v % 10)]
  }

  function Reverse(s: seq<char>): (r: seq<char>)
    ensures |r| == |s|
  {
    if s == [] then [] else Reverse(s[1..]) + [s[0]]
  }

  lemma {:induction false} ReverseAt(s: seq<char>, k: nat)
    requires k < |s|
    ensures Reverse(s)[k] == s[|s| - 1 - k]
  {
    if k < |s| - 1 {
      ReverseAt(s[1..], k);
    }
  }

  lemma {:induction false} DecimalIsReversedDigits(v: nat)
    requires v > 0
    ensures Decimal(v) == Reverse(Digits(v))
  {
    var ds := Digits(v);
    assert ds[1..] == Digits(v / 10);
    if v >= 10 {
      DecimalIsReversedDigits(v / 10);
    }
  }

  lemma DigitsStep(acc: seq<char>, w: nat, v: nat)
    requires w != 0 && acc + Digits(w) == Digits(v)
    ensures acc + [DigitChar(w % 10)] + Digits(w / 10) == Digits(v)
  {
    assert Digits(w) == [DigitChar(w % 10)] + Digits(w / 10);
  }

  /** A buffer that holds the digits of `v` in reverse order holds its numeral. */
  lemma ReversedDigitsAreDecimal(v: nat, ds: seq<char>, o: seq<char>)
    requires v > 0 && ds == Digits(v) && |ds| <= |o|
    requires forall k :: 0 <= k < |ds| ==> o[k] == ds[|ds| - 1 - k]
    ensures |Decimal(v)| == |ds| && o[..|ds|] == Decimal(v)
  {
    var d := Decimal(v);
    DecimalIsReversedDigits(v);
    forall k | 0 <= k < |ds|
      ensures o[k] == d[k]
    {
      ReverseAt(ds, k);
    }
  }

  function Pow10(k: nat): (p: nat)
  {
    if k == 0 then 1 else 10 * Pow10(k - 1)
  }

  lemma {:induction false} DigitsLength(v: nat, k: nat)
    requires v < Pow10(k)
    ensures |Digits(v)| <= k
  {
    if v > 0 {
      DigitsLength(v / 10, k - 1);
    }
  }

  /** A uint32_t has at most ten decimal digits, so dec_to_ascii's 15-digit cap never binds. */
  lemma Uint32Digits(v: uint32)
    ensures |Digits(v)| <= 10
    ensures |Decimal(v)| <= 10
  {
    assert Pow10(1) == 10;
    assert Pow10(2) == 100;
    assert Pow10(3) == 1000;
    assert Pow10(4) == 10000;
    assert Pow10(5) == 100000;
    assert Pow10(6) == 1000000;
    assert Pow10(7) == 10000000;
    assert Pow10(8) == 100000000;
    assert Pow10(9) == 1000000000;
    assert Pow10(10) == 10000000000;
    DigitsLength(v, 10);
    if v > 0 {
      DecimalIsReversedDigits(v);
    }
  }

  /** The first loop of dec_to_ascii: `buf[i++] = '0' + v % 10; v /= 10` while
      `v` is non-zero (and fewer than 15 digits are stored), leaving the digits
      of `v` in `buf`, least significant first. */
  method StoreDigits(v: uint32, buf: array<char>) returns (n: nat)
    requires buf.Length == 16
    modifies buf
    ensures n <= 10 && buf[..n] == Digits(v)
  {
    Uint32Digits(v);
    var i := 0;
    var w: nat := v;
    while w != 0 && i < 15
      invariant 0 <= i <= 15
      invariant buf[..i] + Digits(w) == Digits(v)
      decreases w
    {
      DigitsStep(buf[..i], w, v);
      buf[i] := DigitChar(w % 10);
      assert buf[..i + 1] == buf[..i] + [buf[i]];
      i := i + 1;
      w := w / 10;
    }
    assert w == 0 by {
      assert |buf[..i] + Digits(w)| <= 10;
    }
    n := i;
  }

  /** dec_to_ascii: writes the decimal numeral of `v` and a terminator into the
      16-character buffer `out`, leaving the rest of `out` as it was. */
  method DecToAscii(v: uint32, out: array<char>)
    requires out.Length == 16
    modifies out
    ensures |Decimal(v)| < out.Length
    ensures out[..|Decimal(v)|] == Decimal(v) && out[|Decimal(v)|] == NUL
    ensures forall i :: |Decimal(v)| < i < out.Length ==> out[i] == old(out[i])
  {
    if v == 0 {
      out[0] := '0';
      out[1] := NUL;
      return;
    }
    var buf := new char[16];
    var i := StoreDigits(v, buf);
    ghost var n := i;
    var j := 0;
    label Reversing:
    while i > 0
      invariant 0 <= i <= n && j == n - i
      invariant unchanged@Reversing(buf)
      invariant forall k :: 0 <= k < j ==> out[k] == buf[n - 1 - k]
      invariant forall k :: j <= k < out.Length ==> out[k] == old(out[k])
    {
      i := i - 1;
      out[j] := buf[i];
      j := j + 1;
    }
    out[j] := NUL;
    ReversedDigitsAreDecimal(v, buf[..n], out[..]);
  }

  /** The numeral of a value is all digits and denotes that value. */
  lemma {:induction false} ValueOfDecimal(v: nat)
    ensures Value(Decimal(v)) == v
  {
    var s := Decimal(v);
    if v >= 10 {
      assert s[..|s| - 1] == Decimal(v / 10);
      ValueOfDecimal(v / 10);
    }
  }

  /** parse_uint reads back exactly what dec_to_ascii writes. */
  lemma ParseDecimalRoundTrip(v: uint32)
    ensures ParseValue(Decimal(v)) == v
  {
    var s := Decimal(v);
    assert SkipSpaces(s) == s by {
      assert s[0] != ' ';
    }
    assert DigitPrefix(s) == s;
    ValueOfDecimal(v);
  }

  /** parse_uint reads the digits after any leading spaces and ignores whatever
      follows them: "12AB" reads as 12, and text with no leading digit reads as 0. */
  lemma ParseNumericPrefix(k: nat, ds: Text, rest: Text)
    requires AllDigits(ds)
    requires rest == [] || !IsDigit(rest[0])
    requires ds == [] ==> rest == [] || rest[0] != ' '
    ensures ParseValue(Spaces(k) + ds + rest) == Value(ds) % U32
  {
    var s := Spaces(k) + ds + rest;
    assert s[k..k + |ds|] == ds;
    if ds == [] {
      assert Value(ds) == 0;
    }
    ParseValueAt(s, k, k + |ds|);
  }

  /** For a request of n bytes with n > 2^32 - 4096 the uint32_t sum wraps and
      round_up_page yields 0: a zero-byte allocation for a non-empty request. */
  lemma RoundUpPageWraps()
    ensures RoundUpPage(U32 - 1) == 0
    ensures RoundUpPage(U32 - PAGE_SIZE + 1) == 0
    ensures RoundUpPage(U32 - PAGE_SIZE) == U32 - PAGE_SIZE
  {
  }
}
