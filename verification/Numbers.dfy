/** Decimal numbers as text: `%d` on the way out, `strtol`, `atoi` and `str_to_int` on the way in. */
module Numbers {
  import opened Basics
  import opened Text

  /** The width of a C `long`: 32 bits on Windows, 64 bits on the POSIX systems. */
  datatype LongWidth = Long32 | Long64

  function LongMax(w: LongWidth): int { if w == Long32 then INT_MAX else 0x7fff_ffff_ffff_ffff }
  function LongMin(w: LongWidth): int { -LongMax(w) - 1 }

  /** Where `strtol` stops when a number leaves the range of `long`. */
  function Clamp(v: int, w: LongWidth): int { Max(LongMin(w), Min(v, LongMax(w))) }

  predicate IsDigit(c: char) { '0' <= c <= '9' }

  function DigitChar(d: nat): char
    requires d < 10
  {
    '0' + d as char
  }

  function DigitValue(c: char): nat
    requires IsDigit(c)
  {
    c as nat - '0' as nat
  }

  /** `%d` of a number that is not negative. */
  function Decimal(n: nat): (s: string)
    ensures s != "" && forall c | c in s :: IsDigit(c)
  {
    if n < 10 then [DigitChar(n)] else Decimal(n / 10) + [DigitChar(n % 10)]
  }

  /** `%d` of any number, and how a signed number is typed. */
  function SignedDecimal(k: int): string { if k < 0 then "-" + Decimal(-k) else Decimal(k) }

  /** The value of a run of digits. */
  function DigitsValue(s: string): nat
    requires forall c | c in s :: IsDigit(c)
  {
    if s == "" then 0 else DigitsValue(s[..|s| - 1]) * 10 + DigitValue(s[|s| - 1])
  }

  /** How many digits `s` starts with. */
  function DigitRun(s: string): (k: nat)
    ensures k <= |s| && forall c | c in s[..k] :: IsDigit(c)
  {
    if s != "" && IsDigit(s[0]) then
      var k := 1 + DigitRun(s[1..]);
      assert s[..k] == [s[0]] + s[1..][..k - 1];
      k
    else 0
  }

  /** What `strtol` makes of the text, saturating at the ends of `long`, and what it leaves unread. */
  datatype Scan = Scan(value: int, rest: string)

  function Strtol(s: string, w: LongWidth): Scan {
    var t := TrimLeft(s);
    var negative := t != "" && t[0] == '-';
    var u := if t != "" && (t[0] == '-' || t[0] == '+') then t[1..] else t;
    var k := DigitRun(u);
    if k == 0 then Scan(0, s)
    else
      var d: int := DigitsValue(u[..k]);
      Scan(Clamp(if negative then -d else d, w), u[k..])
  }

  /** The conversion of a `long` to an `int`: the low 32 bits, read as two's complement. */
  function ToInt32(v: int): (w: int)
    ensures -0x8000_0000 <= w <= INT_MAX
    ensures -0x8000_0000 <= v <= INT_MAX ==> w == v
  {
    var m := v % 0x1_0000_0000;
    if m <= INT_MAX then m else m - 0x1_0000_0000
  }

  function Atoi(s: string, w: LongWidth): int { ToInt32(Strtol(s, w).value) }

  /** `str_to_int`: refused unless the whole text is one number. */
  function StrToInt(s: string, w: LongWidth): Option<int> {
    if IsBlank(s) || Strtol(s, w).rest != "" then None else Some(ToInt32(Strtol(s, w).value))
  }

  lemma {:induction false} DigitsValueOfDecimal(n: nat)
    ensures DigitsValue(Decimal(n)) == n
  {
    if n >= 10 {
      DigitsValueOfDecimal(n / 10);
      var s := Decimal(n);
      assert s[..|s| - 1] == Decimal(n / 10);
    } else {
      assert Decimal(n)[..0] == "";
    }
  }

  lemma {:induction false} DigitRunAll(s: string, t: string)
    requires (forall c | c in s :: IsDigit(c)) && (t != "" ==> !IsDigit(t[0]))
    ensures DigitRun(s + t) == |s|
  {
    if s == "" {
      assert s + t == t;
    } else {
      assert (s + t)[1..] == s[1..] + t;
      assert s[0] in s;
      DigitRunAll(s[1..], t);
    }
  }

  function PowerOfTen(k: nat): nat { if k == 0 then 1 else 10 * PowerOfTen(k - 1) }

  lemma {:induction false} DecimalLength(n: nat, k: nat)
    requires 0 < k && n < PowerOfTen(k)
    ensures |Decimal(n)| <= k
  {
    assert PowerOfTen(1) == 10 * PowerOfTen(0);
    if n >= 10 {
      DecimalLength(n / 10, k - 1);
    }
  }

  /** A typed number is read in full and clamped. */
  lemma {:induction false} StrtolOfDecimal(k: int, w: LongWidth)
    ensures Strtol(SignedDecimal(k), w) == Scan(Clamp(k, w), "")
  {
    hide Decimal, DigitRun, DigitsValue, Clamp;
    var n: nat := if k < 0 then -k else k;
    var s, d := SignedDecimal(k), Decimal(n);
    assert IsDigit(d[0]);
    assert TrimLeft(s) == s;
    DigitRunAll(d, "");
    assert d + "" == d && d[..|d|] == d && d[|d|..] == "" && (k < 0 ==> s[1..] == d);
    DigitsValueOfDecimal(n);
  }

  /** A typed number is read back as itself within `int` range; beyond it, clamped to `long` and cut to 32 bits. */
  lemma {:induction false} StrToIntOfDecimal(k: int, w: LongWidth)
    ensures StrToInt(SignedDecimal(k), w) == Some(ToInt32(Clamp(k, w)))
    ensures -INT_MAX - 1 <= k <= INT_MAX ==>
              StrToInt(SignedDecimal(k), w) == Some(k) && Atoi(SignedDecimal(k), w) == k
  {
    hide Decimal, Strtol;
    StrtolOfDecimal(k, w);
    var s := SignedDecimal(k);
    assert s[0] in s && !IsSpace(s[0]);
  }

  /** A number as it may be typed: space, at most one sign, at least one digit and nothing else. */
  ghost predicate Typed(s: string, lead: string, sign: string, digits: string) {
    && s == lead + sign + digits && IsBlank(lead) && sign in ["", "+", "-"]
    && digits != "" && forall c | c in digits :: IsDigit(c)
  }

  /** A sign and a value. */
  function Signed(sign: string, value: int): int { if sign == "-" then -value else value }

  lemma PlainReads(s: string, w: LongWidth)
    requires var t := TrimLeft(s); t != "" && IsDigit(t[0]) && DigitRun(t) == |t|
    ensures Strtol(s, w) == Scan(Clamp(DigitsValue(TrimLeft(s)), w), "")
  {
    hide DigitRun, DigitsValue, Clamp, TrimLeft;
    var t := TrimLeft(s);
    assert t[..|t|] == t && t[|t|..] == "";
  }

  lemma MarkedReads(s: string, mark: char, digits: string, w: LongWidth)
    requires TrimLeft(s) == [mark] + digits && mark in "+-" && digits != "" && DigitRun(digits) == |digits|
    requires forall c | c in digits :: IsDigit(c)
    ensures Strtol(s, w) == Scan(Clamp(Signed([mark], DigitsValue(digits)), w), "")
  {
    hide DigitRun, DigitsValue, Clamp, TrimLeft;
    var t := TrimLeft(s);
    assert t[0] == mark && t[1..] == digits;
    assert digits[..|digits|] == digits && digits[|digits|..] == "";
  }

  /** Such a text is read as the number it spells, clamped and cut. */
  lemma TypedReads(s: string, lead: string, sign: string, digits: string, w: LongWidth)
    requires Typed(s, lead, sign, digits)
    ensures StrToInt(s, w) == Some(ToInt32(Clamp(Signed(sign, DigitsValue(digits)), w)))
    ensures Strtol(s, w) == Scan(Clamp(Signed(sign, DigitsValue(digits)), w), "")
    ensures !IsBlank(s)
  {
    hide DigitRun, DigitsValue, Clamp, TrimLeft, IsBlank, Strtol;
    assert digits[0] in digits && IsDigit(digits[0]);
    assert s == lead + (sign + digits);
    TrimLeftIs(lead, sign + digits);
    DigitRunAll(digits, "");
    assert digits + "" == digits;
    if sign == "" {
      assert sign + digits == digits;
      PlainReads(s, w);
    } else {
      assert sign == [sign[0]];
      MarkedReads(s, sign[0], digits, w);
    }
    NotBlankDigit(s, digits);
  }

  lemma NotBlankDigit(s: string, digits: string)
    requires digits != "" && IsDigit(digits[0]) && |digits| <= |s| && s[|s| - |digits|..] == digits
    ensures !IsBlank(s)
  {
    assert s[|s| - |digits|] == digits[0] && !IsSpace(digits[0]);
  }

  /** A typed text is taken as a number exactly when it is one. */
  lemma {:induction false} NumberIff(s: string, w: LongWidth)
    ensures StrToInt(s, w).Some? <==> exists lead, sign, digits :: Typed(s, lead, sign, digits)
  {
    hide DigitRun, DigitsValue, Clamp, TrimLeft, IsBlank;
    if lead, sign, digits :| Typed(s, lead, sign, digits) {
      TypedReads(s, lead, sign, digits, w);
    }
    if StrToInt(s, w).Some? {
      var lead := TrimLeftParts(s);
      var sign, digits := NumberParts(s, w);
      assert Typed(s, lead, sign, digits) by { Regroup(lead, sign, digits); }
    }
  }

  lemma NumberParts(s: string, w: LongWidth) returns (sign: string, digits: string)
    requires StrToInt(s, w).Some?
    ensures TrimLeft(s) == sign + digits && sign in ["", "+", "-"]
    ensures digits != "" && forall c | c in digits :: IsDigit(c)
  {
    hide DigitRun, DigitsValue, Clamp, TrimLeft, IsBlank;
    var t := TrimLeft(s);
    NotBlankSome(s);
    if t != "" && (t[0] == '-' || t[0] == '+') {
      sign, digits := [t[0]], t[1..];
    } else {
      sign, digits := "", t;
    }
    assert t == sign + digits;
    assert digits[..|digits|] == digits;
  }

  lemma NotBlankSome(s: string)
    requires !IsBlank(s)
    ensures s != ""
  {}
}
