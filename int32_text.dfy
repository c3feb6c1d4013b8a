/**
 * The 32-bit integers of the record's numeric fields, the subset of .NET's
 * `Int32.Parse` the loader depends on, and the decimal rendering (`int.ToString()`)
 * that the report uses for play counts and totals.
 */
module Int32Text {
  import opened Wrappers

  /** .NET's `int`: a signed 32-bit integer. */
  newtype int32 = x: int | InInt32Range(x)

  predicate InInt32Range(v: int)
  {
    -0x8000_0000 <= v < 0x8000_0000
  }

  predicate IsDigit(c: char)
  {
    '0' <= c <= '9'
  }

  /** The white space `Int32.Parse` skips around a number: U+0009 to U+000D and the space. */
  predicate IsWhite(c: char)
  {
    c == ' ' || '\t' <= c <= '\r'
  }

  predicate AllDigits(s: string)
  {
    forall i :: 0 <= i < |s| ==> IsDigit(s[i])
  }

  predicate AllWhite(s: string)
  {
    forall i :: 0 <= i < |s| ==> IsWhite(s[i])
  }

  /** The value of a string of decimal digits, most significant first. */
  function DigitsValue(s: string): nat
    requires AllDigits(s)
  {
    if s == [] then 0 else 10 * DigitsValue(s[..|s| - 1]) + (s[|s| - 1] as int - '0' as int)
  }

  function DigitChar(d: nat): (c: char)
    requires d < 10
    ensures IsDigit(c) && c as int - '0' as int == d
  {
    ('0' as int + d) as char
  }

  /** Shortest decimal numeral of `n`: digits only, no leading zero except for 0 itself. */
  function NatToString(n: nat): (s: string)
    ensures |s| >= 1 && AllDigits(s)
    ensures s[0] == '0' <==> n == 0
    ensures n == 0 ==> s == "0"
  {
    if n < 10 then [DigitChar(n)] else NatToString(n / 10) + [DigitChar(n % 10)]
  }

  /** `int.ToString()` under the invariant culture: a minus sign for a negative number, then the magnitude. */
  function IntToString(n: int): (s: string)
    ensures |s| >= 1 && (s[0] == '-' <==> n < 0)
    ensures forall i :: 0 < i < |s| ==> IsDigit(s[i])
    ensures n >= 0 ==> AllDigits(s)
    ensures s[(if n < 0 then 1 else 0)..] == NatToString(if n < 0 then -n else n)
  {
    if n < 0 then "-" + NatToString(-n) else NatToString(n)
  }

  /** `s` without its leading white space. */
  function TrimStart(s: string): string
  {
    if s != [] && IsWhite(s[0]) then TrimStart(s[1..]) else s
  }

  /** `s` without its trailing white space. */
  function TrimEnd(s: string): string
  {
    if s != [] && IsWhite(s[|s| - 1]) then TrimEnd(s[..|s| - 1]) else s
  }

  /**
   * Trimming the start drops white space only, and leaves a suffix of `s` that
   * does not begin with white space.
   */
  lemma {:induction false} TrimStartSuffix(s: string)
    ensures |TrimStart(s)| <= |s| && TrimStart(s) == s[|s| - |TrimStart(s)|..]
    ensures AllWhite(s[..|s| - |TrimStart(s)|])
    ensures TrimStart(s) == [] || !IsWhite(TrimStart(s)[0])
  {
    if s != [] && IsWhite(s[0]) {
      TrimStartSuffix(s[1..]);
    }
  }

  /**
   * Trimming the end drops white space only, and leaves a prefix of `s` that
   * does not end with white space.
   */
  lemma {:induction false} TrimEndPrefix(s: string)
    ensures |TrimEnd(s)| <= |s| && TrimEnd(s) == s[..|TrimEnd(s)|]
    ensures AllWhite(s[|TrimEnd(s)|..])
    ensures TrimEnd(s) == [] || !IsWhite(TrimEnd(s)[|TrimEnd(s)| - 1])
  {
    if s != [] && IsWhite(s[|s| - 1]) {
      var front := s[..|s| - 1];
      TrimEndPrefix(front);
      var k := |TrimEnd(front)|;
      assert TrimEnd(s) == TrimEnd(front);
      assert s[k..] == front[k..] + [s[|s| - 1]];
    }
  }

  /** The value of a run of digits, negated after a minus sign. */
  function Signed(digits: string, negative: bool): int
    requires AllDigits(digits)
  {
    if negative then -(DigitsValue(digits) as int) else DigitsValue(digits)
  }

  /**
   * A run of digits read as a magnitude, negated for a minus sign. It succeeds
   * exactly when the run is not empty, is all digits and its value fits 32 bits.
   */
  function ParseMagnitude(digits: string, negative: bool): (r: Option<int32>)
    ensures r.Some? <==> digits != [] && AllDigits(digits) && InInt32Range(Signed(digits, negative))
    ensures r.Some? ==> r.value as int == Signed(digits, negative)
    ensures r.Some? && r.value < 0 ==> negative
  {
    if digits != [] && AllDigits(digits) then
      var v := Signed(digits, negative);
      if InInt32Range(v) then Some(v as int32) else None
    else
      None
  }

  /**
   * `Int32.Parse(s)` with the default number style: optional white space, an
   * optional sign, one or more ASCII digits, optional white space, and a value
   * that fits 32 bits. `None` stands for the exception the parse throws.
   */
  function ParseInt32(s: string): Option<int32>
  {
    var t := TrimEnd(TrimStart(s));
    if t != [] && (t[0] == '-' || t[0] == '+') then ParseMagnitude(t[1..], t[0] == '-')
    else ParseMagnitude(t, false)
  }

  /** White space in front of a text that does not start with white space is trimmed away. */
  lemma {:induction false} TrimStartWhite(w: string, t: string)
    requires AllWhite(w)
    requires t == [] || !IsWhite(t[0])
    ensures TrimStart(w + t) == t
  {
    if w == [] {
      assert w + t == t;
    } else {
      assert (w + t)[1..] == w[1..] + t;
      TrimStartWhite(w[1..], t);
    }
  }

  /** White space after a text that does not end with white space is trimmed away. */
  lemma {:induction false} TrimEndWhite(t: string, w: string)
    requires AllWhite(w)
    requires t == [] || !IsWhite(t[|t| - 1])
    ensures TrimEnd(t + w) == t
  {
    if w == [] {
      assert t + w == t;
    } else {
      assert (t + w)[..|t + w| - 1] == t + w[..|w| - 1];
      TrimEndWhite(t, w[..|w| - 1]);
    }
  }

  /** An optional sign and then one or more digits: the text `Int32.Parse` reads as a number. */
  predicate Numeral(t: string)
  {
    if t != [] && (t[0] == '-' || t[0] == '+') then |t| > 1 && AllDigits(t[1..])
    else t != [] && AllDigits(t)
  }

  /**
   * `Int32.Parse` accepts white space around the number, a leading `+` or `-`
   * and leading zeros, and gives the value of the digits, negated after a
   * minus sign; when that value does not fit 32 bits, it throws.
   */
  lemma ParseInt32Accepts(lead: string, sign: string, digits: string, trail: string)
    requires AllWhite(lead) && AllWhite(trail)
    requires sign == "" || sign == "+" || sign == "-"
    requires digits != [] && AllDigits(digits)
    ensures ParseInt32(lead + sign + digits + trail).Some? <==> InInt32Range(Signed(digits, sign == "-"))
    ensures ParseInt32(lead + sign + digits + trail).Some? ==>
              ParseInt32(lead + sign + digits + trail).value as int == Signed(digits, sign == "-")
  {
    var core := sign + digits;
    assert core[|core| - 1] == digits[|digits| - 1];
    assert IsDigit(core[0]) || core[0] == '+' || core[0] == '-';
    assert lead + sign + digits + trail == lead + (core + trail);
    TrimStartWhite(lead, core + trail);
    TrimEndWhite(core, trail);
    if sign == "" {
      assert core == digits;
      assert IsDigit(core[0]);
    } else {
      assert core[1..] == digits;
    }
  }

  /**
   * Conversely, `Int32.Parse` succeeds only on a numeral with nothing but white
   * space around it.
   */
  lemma ParseInt32Shape(s: string)
    ensures ParseInt32(s).Some? ==>
              exists i, j :: 0 <= i <= j <= |s| && AllWhite(s[..i]) && Numeral(s[i..j]) && AllWhite(s[j..])
  {
    var u := TrimStart(s);
    var t := TrimEnd(u);
    TrimStartSuffix(s);
    TrimEndPrefix(u);
    var i := |s| - |u|;
    var j := i + |t|;
    assert s[i..j] == t;
    assert s[j..] == u[|t|..];
    if ParseInt32(s).Some? {
      assert Numeral(s[i..j]);
    }
  }

  /** A leading zero does not change the value of a run of digits. */
  lemma {:induction false} DigitsValueLeadingZero(d: string)
    requires AllDigits(d)
    ensures AllDigits("0" + d) && DigitsValue("0" + d) == DigitsValue(d)
    decreases |d|
  {
    var z := "0" + d;
    assert AllDigits(z);
    if d != [] {
      assert z[..|z| - 1] == "0" + d[..|d| - 1];
      assert z[|z| - 1] == d[|d| - 1];
      DigitsValueLeadingZero(d[..|d| - 1]);
    } else {
      assert z[..|z| - 1] == [];
    }
  }

  /** `Int32.Parse` ignores leading zeros: they change neither whether a number parses nor its value. */
  lemma LeadingZeroIgnored(d: string, negative: bool)
    requires d != [] && AllDigits(d)
    ensures ParseMagnitude("0" + d, negative) == ParseMagnitude(d, negative)
  {
    DigitsValueLeadingZero(d);
  }

  /** Reading back the numeral of `n` gives `n`. */
  lemma {:induction false} DigitsOfNat(n: nat)
    ensures DigitsValue(NatToString(n)) == n
  {
    if n >= 10 {
      var s := NatToString(n);
      DigitsOfNat(n / 10);
      assert s[..|s| - 1] == NatToString(n / 10);
    }
  }

  /** Parsing the rendering of any 32-bit value gives that value back. */
  lemma ParseIntToString(n: int32)
    ensures ParseInt32(IntToString(n as int)) == Some(n)
  {
    if n < 0 {
      var m := -(n as int);
      var digits := NatToString(m);
      var s := "-" + digits;
      assert IntToString(n as int) == s;
      assert TrimStart(s) == s;
      assert s[|s| - 1] == digits[|digits| - 1];
      assert TrimEnd(s) == s;
      assert s[1..] == digits;
      DigitsOfNat(m);
      assert ParseMagnitude(digits, true) == Some(n);
    } else {
      var s := NatToString(n as int);
      assert IntToString(n as int) == s;
      assert TrimStart(s) == s;
      assert TrimEnd(s) == s;
      DigitsOfNat(n as int);
      assert ParseMagnitude(s, false) == Some(n);
    }
  }

  /** A field without a single digit never parses (an empty field, say). */
  lemma NoDigitNoNumber(s: string)
    requires forall i :: 0 <= i < |s| ==> !IsDigit(s[i])
    ensures ParseInt32(s) == None
  {
    var u := TrimStart(s);
    var t := TrimEnd(u);
    TrimStartSuffix(s);
    TrimEndPrefix(u);
    assert forall j :: 0 <= j < |t| ==> t[j] == s[|s| - |u| + j];
    if t != [] && (t[0] == '-' || t[0] == '+') {
      if |t| > 1 {
        assert !IsDigit(t[1]);
      }
    } else if t != [] {
      assert !IsDigit(t[0]);
    }
  }
}
