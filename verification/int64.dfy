/**
 * `long.TryParse(string, out long)` with the default `NumberStyles.Integer`:
 * optional leading and trailing white space, an optional '+' or '-' sign,
 * one or more decimal digits, and a value inside the signed 64-bit range.
 * `Show` renders an integer the way a sender writes a Unix timestamp.
 */
module Int64 {
  import opened Wrappers

  const MinValue: int := -0x8000_0000_0000_0000
  const MaxValue: int := 0x7FFF_FFFF_FFFF_FFFF

  /** The white space .NET's number parser skips: U+0009 to U+000D and U+0020. */
  predicate IsWhite(c: char) { c == ' ' || '\t' <= c <= '\r' }

  predicate IsDigit(c: char) { '0' <= c <= '9' }

  predicate IsSign(c: char) { c == '+' || c == '-' }

  predicate AllDigits(s: string) { forall i :: 0 <= i < |s| ==> IsDigit(s[i]) }

  function TrimStart(s: string): string
  {
    if s != [] && IsWhite(s[0]) then TrimStart(s[1..]) else s
  }

  function TrimEnd(s: string): string
  {
    if s != [] && IsWhite(s[|s| - 1]) then TrimEnd(s[..|s| - 1]) else s
  }

  /** TrimStart drops exactly the leading white space. */
  lemma {:induction false} TrimStartShape(s: string)
    ensures var t := TrimStart(s);
      |t| <= |s| && t == s[|s| - |t|..] && (t != [] ==> !IsWhite(t[0]))
      && forall i :: 0 <= i < |s| - |t| ==> IsWhite(s[i])
  {
    if s != [] && IsWhite(s[0]) {
      TrimStartShape(s[1..]);
      var t := TrimStart(s[1..]);
      assert TrimStart(s) == t;
      assert s[1..][|s| - 1 - |t|..] == s[|s| - |t|..];
      forall i | 0 < i < |s| - |t|
        ensures IsWhite(s[i])
      {
        assert s[i] == s[1..][i - 1];
      }
    } else {
      assert s[0..] == s;
    }
  }

  /** TrimEnd drops exactly the trailing white space. */
  lemma {:induction false} TrimEndShape(s: string)
    ensures var t := TrimEnd(s);
      |t| <= |s| && t == s[..|t|] && (t != [] ==> !IsWhite(t[|t| - 1]))
      && forall i :: |t| <= i < |s| ==> IsWhite(s[i])
  {
    if s != [] && IsWhite(s[|s| - 1]) {
      TrimEndShape(s[..|s| - 1]);
    }
  }

  /** The value of a run of decimal digits, most significant first. */
  function DigitsValue(ds: string): nat
    requires AllDigits(ds)
  {
    if ds == [] then 0
    else DigitsValue(ds[..|ds| - 1]) * 10 + (ds[|ds| - 1] as int - '0' as int)
  }

  /** The optional sign and the digits that remain once white space is trimmed. */
  function Unsigned(t: string): string
  {
    if t != [] && IsSign(t[0]) then t[1..] else t
  }

  predicate AllWhite(s: string) { forall i :: 0 <= i < |s| ==> IsWhite(s[i]) }

  /** No sign, a '+' or a '-'. */
  predicate IsSignText(sign: string) { sign == [] || sign == "+" || sign == "-" }

  /**
   * The grammar `long.TryParse` accepts with the integer number style: white
   * space, an optional sign, one or more decimal digits (leading zeros
   * allowed), white space.
   */
  predicate Numeral(s: string, pre: string, sign: string, ds: string, post: string)
  {
    s == pre + sign + ds + post && AllWhite(pre) && AllWhite(post)
    && IsSignText(sign) && ds != [] && AllDigits(ds)
  }

  /** The value a numeral denotes, before the range check. */
  function SignedValue(sign: string, ds: string): int
    requires AllDigits(ds)
  {
    if sign == "-" then -(DigitsValue(ds) as int) else DigitsValue(ds)
  }

  function TryParse(s: string): (r: Option<int>)
    ensures r.Some? ==> MinValue <= r.value <= MaxValue
  {
    var t := TrimEnd(TrimStart(s));
    var ds := Unsigned(t);
    if ds == [] || !AllDigits(ds) then None
    else
      var magnitude: int := DigitsValue(ds);
      var v := if t[0] == '-' then -magnitude else magnitude;
      if MinValue <= v <= MaxValue then Some(v) else None
  }

  function DigitChar(d: nat): char
    requires d < 10
  {
    ('0' as int + d) as char
  }

  function ShowNat(n: nat): string
  {
    if n < 10 then [DigitChar(n)] else ShowNat(n / 10) + [DigitChar(n % 10)]
  }

  /** Decimal rendering: a '-' for negative values, no leading zeros. */
  function Show(n: int): string
  {
    if n < 0 then "-" + ShowNat(-n) else ShowNat(n)
  }

  /** Appending a digit to a rendering renders the number ten times larger plus that digit. */
  lemma ShowNatAppend(n: nat, d: nat)
    requires 1 <= n && d < 10
    ensures ShowNat(n * 10 + d) == ShowNat(n) + [DigitChar(d)]
  {
  }

  lemma {:induction false} ShowNatDigits(n: nat)
    ensures ShowNat(n) != [] && AllDigits(ShowNat(n)) && DigitsValue(ShowNat(n)) == n
  {
    if n >= 10 {
      ShowNatDigits(n / 10);
      var s := ShowNat(n);
      assert s[..|s| - 1] == ShowNat(n / 10);
    }
  }

  /** Text with no white space at either end is left alone by the trimming. */
  lemma TrimUntouched(s: string)
    requires s != [] && !IsWhite(s[0]) && !IsWhite(s[|s| - 1])
    ensures TrimEnd(TrimStart(s)) == s
  {
    assert TrimStart(s) == s;
  }

  /**
   * A rendered integer parses back to itself when it fits in 64 bits and is
   * rejected otherwise: an overflowing numeral is never wrapped into range.
   */
  lemma ParseShow(n: int)
    ensures TryParse(Show(n)) == if MinValue <= n <= MaxValue then Some(n) else None
  {
    var m: nat := if n < 0 then -n else n;
    ShowNatDigits(m);
    var digits := ShowNat(m);
    var s := Show(n);
    assert s == if n < 0 then "-" + digits else digits;
    assert s[|s| - 1] == digits[|digits| - 1];
    TrimUntouched(s);
    assert Unsigned(s) == digits;
  }

  /** A leading '+' and surrounding white space leave the parsed value unchanged. */
  lemma ParsePlusPadded(n: nat, pre: string, post: string)
    requires forall i :: 0 <= i < |pre| ==> IsWhite(pre[i])
    requires forall i :: 0 <= i < |post| ==> IsWhite(post[i])
    ensures TryParse(pre + "+" + Show(n) + post) == TryParse(Show(n))
  {
    var digits := ShowNat(n);
    ShowNatDigits(n);
    assert Show(n) == digits;
    var core := "+" + digits;
    assert core[|core| - 1] == digits[|digits| - 1];
    var s := pre + "+" + Show(n) + post;
    assert s == pre + (core + post);
    TrimStartPrefix(pre, core + post);
    TrimEndSuffix(core, post);
    assert TrimEnd(TrimStart(s)) == core;
    assert Unsigned(core) == digits;
    ParseShow(n);
  }

  /**
   * Every numeral parses to the value it denotes when that value fits in 64
   * bits, and is rejected otherwise.
   */
  lemma ParseNumeral(pre: string, sign: string, ds: string, post: string)
    requires Numeral(pre + sign + ds + post, pre, sign, ds, post)
    ensures var v := SignedValue(sign, ds);
      TryParse(pre + sign + ds + post) == if MinValue <= v <= MaxValue then Some(v) else None
  {
    var core := sign + ds;
    assert core[|core| - 1] == ds[|ds| - 1];
    assert core[0] == if sign == [] then ds[0] else sign[0];
    assert pre + sign + ds + post == pre + (core + post);
    TrimStartPrefix(pre, core + post);
    TrimEndSuffix(core, post);
    if sign != [] {
      assert core[1..] == ds;
    }
    assert Unsigned(core) == ds;
  }

  /** Conversely, every text that parses is a numeral, and its value is the one it denotes. */
  lemma ParsedNumeral(s: string)
    requires TryParse(s).Some?
    ensures exists pre, sign, ds, post ::
      Numeral(s, pre, sign, ds, post) && TryParse(s) == Some(SignedValue(sign, ds))
  {
    var u := TrimStart(s);
    var t := TrimEnd(u);
    TrimStartShape(s);
    TrimEndShape(u);
    var pre := WhitePrefix(s, u);
    var post := WhiteSuffix(u, t);
    var sign, ds := SignOf(t), Unsigned(t);
    SignSplit(t);
    Regroup(s, pre, u, t, post, sign, ds);
    ParsedValue(s);
    assert Numeral(s, pre, sign, ds, post);
  }

  /** The value parsed is the one denoted by the sign and digits left after trimming. */
  lemma ParsedValue(s: string)
    requires TryParse(s).Some?
    ensures var t := TrimEnd(TrimStart(s));
      AllDigits(Unsigned(t)) && TryParse(s) == Some(SignedValue(SignOf(t), Unsigned(t)))
  {
    SignSplit(TrimEnd(TrimStart(s)));
  }

  lemma Regroup(s: string, pre: string, u: string, t: string, post: string, sign: string, ds: string)
    requires s == pre + u && u == t + post && t == sign + ds
    ensures s == pre + sign + ds + post
  {
    assert pre + sign + ds + post == pre + (sign + ds + post);
  }

  /** The leading sign of `t`, if any. */
  function SignOf(t: string): string
  {
    if t != [] && IsSign(t[0]) then [t[0]] else []
  }

  lemma SignSplit(t: string)
    ensures t == SignOf(t) + Unsigned(t) && IsSignText(SignOf(t))
    ensures t != [] ==> (SignOf(t) == "-" <==> t[0] == '-')
  {
  }

  /** `s` is white space followed by its suffix `u`; returns that white space. */
  lemma WhitePrefix(s: string, u: string) returns (pre: string)
    requires |u| <= |s| && u == s[|s| - |u|..]
    requires forall i :: 0 <= i < |s| - |u| ==> IsWhite(s[i])
    ensures s == pre + u && AllWhite(pre)
  {
    pre := s[..|s| - |u|];
  }

  /** `u` is its prefix `t` followed by white space; returns that white space. */
  lemma WhiteSuffix(u: string, t: string) returns (post: string)
    requires |t| <= |u| && t == u[..|t|]
    requires forall i :: |t| <= i < |u| ==> IsWhite(u[i])
    ensures u == t + post && AllWhite(post)
  {
    post := u[|t|..];
    forall i | 0 <= i < |post|
      ensures IsWhite(post[i])
    {
      assert post[i] == u[|t| + i];
    }
  }

  /** `-5` with white space in front keeps its sign. */
  lemma NegativeExample()
    ensures TryParse(" -5") == Some(-5)
  {
    assert " -5" == " " + "-" + "5" + "";
    assert DigitsValue("5") == 5;
    ParseNumeral(" ", "-", "5", "");
  }

  /** `0123` parses to 123: leading zeros are allowed. */
  lemma LeadingZeroExample()
    ensures TryParse("0123") == Some(123)
  {
    assert "0123" == "" + "" + "0123" + "";
    assert DigitsValue("0") == 0;
    assert "01"[..1] == "0";
    assert DigitsValue("01") == 1;
    assert "012"[..2] == "01";
    assert DigitsValue("012") == 12;
    assert "0123"[..3] == "012";
    assert DigitsValue("0123") == 123;
    ParseNumeral("", "", "0123", "");
  }

  /** Leading white space is dropped up to the first other character. */
  lemma {:induction false} TrimStartPrefix(pre: string, t: string)
    requires forall i :: 0 <= i < |pre| ==> IsWhite(pre[i])
    requires t != [] && !IsWhite(t[0])
    ensures TrimStart(pre + t) == t
  {
    if pre != [] {
      assert (pre + t)[1..] == pre[1..] + t;
      TrimStartPrefix(pre[1..], t);
    }
  }

  /** Trailing white space is dropped back to the last other character. */
  lemma {:induction false} TrimEndSuffix(t: string, post: string)
    requires forall i :: 0 <= i < |post| ==> IsWhite(post[i])
    requires t != [] && !IsWhite(t[|t| - 1])
    ensures TrimEnd(t + post) == t
  {
    if post != [] {
      assert (t + post)[..|t + post| - 1] == t + post[..|post| - 1];
      TrimEndSuffix(t, post[..|post| - 1]);
    }
  }

  /** Text that TryParse accepts holds only white space, a sign and digits. */
  lemma ParsedCharset(s: string)
    requires TryParse(s).Some?
    ensures forall i :: 0 <= i < |s| ==> IsWhite(s[i]) || IsSign(s[i]) || IsDigit(s[i])
  {
    var u := TrimStart(s);
    var t := TrimEnd(u);
    var ds := Unsigned(t);
    TrimStartShape(s);
    TrimEndShape(u);
    forall i | 0 <= i < |s|
      ensures IsWhite(s[i]) || IsSign(s[i]) || IsDigit(s[i])
    {
      var k := |s| - |u|;
      if k <= i < k + |t| {
        assert s[i] == u[i - k] == t[i - k];
        if i - k > 0 || !IsSign(t[0]) {
          assert ds == t[1..] || ds == t;
          if ds == t[1..] {
            assert t[i - k] == ds[i - k - 1];
          } else {
            assert t[i - k] == ds[i - k];
          }
        }
      } else if i >= k + |t| {
        assert s[i] == u[i - k];
      }
    }
  }

  /** The rendering of the Unix time 1700000000. */
  lemma ShowExample()
    ensures Show(1700000000) == "1700000000"
  {
    assert ShowNat(1) == "1";
    ShowNatAppend(1, 7);
    assert ShowNat(17) == "1" + "7" == "17";
    ShowNatAppend(17, 0);
    assert ShowNat(170) == "17" + "0" == "170";
    ShowNatAppend(170, 0);
    assert ShowNat(1700) == "170" + "0" == "1700";
    ShowNatAppend(1700, 0);
    assert ShowNat(17000) == "1700" + "0" == "17000";
    ShowNatAppend(17000, 0);
    assert ShowNat(170000) == "17000" + "0" == "170000";
    ShowNatAppend(170000, 0);
    assert ShowNat(1700000) == "170000" + "0" == "1700000";
    ShowNatAppend(1700000, 0);
    assert ShowNat(17000000) == "1700000" + "0" == "17000000";
    ShowNatAppend(17000000, 0);
    assert ShowNat(170000000) == "17000000" + "0" == "170000000";
    ShowNatAppend(170000000, 0);
    assert ShowNat(1700000000) == "170000000" + "0" == "1700000000";
  }

  /** Text starting with anything but white space, a sign or a digit is rejected. */
  lemma NonNumericRejected(s: string)
    requires s != [] && !IsWhite(s[0]) && !IsSign(s[0]) && !IsDigit(s[0])
    ensures TryParse(s) == None
  {
    assert TrimStart(s) == s;
    var t := TrimEnd(s);
    TrimEndShape(s);
    if t != [] {
      assert t[0] == s[0];
      assert Unsigned(t) == t;
    }
  }

  lemma RejectedExamples()
    ensures TryParse("abc") == None
    ensures TryParse("garbage") == None
    ensures TryParse("") == None
  {
    NonNumericRejected("abc");
    NonNumericRejected("garbage");
  }
}
