/** The duration codec shared by all three revisions of HappyTime:
    `parseHours`, `stringHours` and `roundHours`. Hours are kept as integer
    hundredths; JavaScript's NaN, which flows through these functions without
    raising, is the `NaN` case. */
module Duration {
  import opened Digits
  import opened Text

  datatype Hours = Hundredths(n: nat) | NaN

  const Zero: Hours := Hundredths(0)

  /** JavaScript `+` on the running sum: NaN absorbs. */
  function Add(a: Hours, b: Hours): (r: Hours)
    ensures r.NaN? <==> a.NaN? || b.NaN?
    ensures r.Hundredths? ==> r.n == a.n + b.n
  {
    if a.NaN? || b.NaN? then NaN else Hundredths(a.n + b.n)
  }

  lemma AddAssociative(a: Hours, b: Hours, c: Hours)
    ensures Add(Add(a, b), c) == Add(a, Add(b, c))
  {
  }

  // ---------------------------------------------------------------------
  // Splitting comma-decimal text

  /** `split(',')[1]`: the text between the first and the second comma; empty when there is no comma. */
  function Segment1(s: string): string {
    Before(After(s, ','), ',')
  }

  // ---------------------------------------------------------------------
  // parseHours: `parseInt(string.replace(',', '.') * 100, 10)`

  /** The hundredths of a fraction's digits, truncated: the first two digits, a missing one counting as 0. */
  function LeadTwo(f: string): (v: nat)
    requires AllDigits(f)
    ensures v < 100
  {
    if |f| == 0 then 0
    else if |f| == 1 then 10 * DigitValue(f[0])
    else 10 * DigitValue(f[0]) + DigitValue(f[1])
  }

  /** Hours text in comma-decimal form read as hundredths, truncating
      further digits. The empty text is 0 (JavaScript's `"" * 100`); a second
      comma, a non-digit or a bare comma gives NaN. */
  function ParseHours(s: string): Hours {
    var w, f := Before(s, ','), After(s, ',');
    if ',' !in s then
      if AllDigits(s) then Hundredths(DigitsValue(s) * 100) else NaN
    else if AllDigits(w) && AllDigits(f) && (w != [] || f != []) then
      Hundredths(DigitsValue(w) * 100 + LeadTwo(f))
    else NaN
  }

  /** `parseHours` on text without a comma: whole hours when it is digits. */
  lemma ParseHoursWhole(s: string)
    ensures ',' !in s && AllDigits(s) ==> ParseHours(s) == Hundredths(DigitsValue(s) * 100)
  {
  }

  /** `parseHours` on digits around one comma: whole hours and the first two
      fraction digits, further digits truncated; either side may be empty, not both. */
  lemma ParseHoursFraction(w: string, f: string)
    requires AllDigits(w) && AllDigits(f) && (w != [] || f != [])
    ensures ParseHours(w + "," + f) == Hundredths(DigitsValue(w) * 100 + LeadTwo(f))
  {
    assert ',' !in w by { assert AllDigits(w); }
    ParseJoined(w + "," + f, w, f);
  }

  /** `ParseHoursFraction` for a text `s` already split at its first comma. */
  lemma ParseJoined(s: string, w: string, f: string)
    requires s == w + [','] + f && ',' !in w
    requires AllDigits(w) && AllDigits(f) && (w != [] || f != [])
    ensures ParseHours(s) == Hundredths(DigitsValue(w) * 100 + LeadTwo(f))
  {
    BeforeAfterOfJoin(w, f, ',');
    assert s[|w|] == ',';
  }

  /** `parseHours` gives NaN exactly when the text is not digits around at
      most one comma, or is a bare comma. */
  lemma ParseHoursNaN(s: string)
    ensures ParseHours(s).NaN? <==> !(AllDigits(Before(s, ',')) && AllDigits(After(s, ',')) && s != ",")
  {
  }

  // ---------------------------------------------------------------------
  // stringHours: `(hours / 100).toString().replace('.', ',')`

  /** The fraction of `r / 100` as JavaScript prints it: no comma for 0, trailing zero dropped. */
  function FractionText(r: nat): (t: string)
    requires r < 100
  {
    if r == 0 then ""
    else if r % 10 == 0 then [',', DigitChar(r / 10)]
    else [',', DigitChar(r / 10), DigitChar(r % 10)]
  }

  function StringHours(h: Hours): (s: string)
    ensures h.NaN? ==> s == "NaN"
  {
    match h
    case NaN => "NaN"
    case Hundredths(n) => NatToString(n / 100) + FractionText(n % 100)
  }

  /** What `stringHours(n)` denotes: the whole part is the canonical text of
      `n / 100`; there is a comma exactly when `n % 100 != 0`; the fraction is
      one or two digits without a trailing zero whose leading two digits make `n % 100`. */
  lemma StringHoursDenotes(n: nat)
    ensures Before(StringHours(Hundredths(n)), ',') == NatToString(n / 100)
    ensures (',' in StringHours(Hundredths(n))) <==> n % 100 != 0
    ensures AllDigits(After(StringHours(Hundredths(n)), ','))
    ensures |After(StringHours(Hundredths(n)), ',')| <= 2
    ensures LeadTwo(After(StringHours(Hundredths(n)), ',')) == n % 100
    ensures n % 100 != 0 ==> After(StringHours(Hundredths(n)), ',')[|After(StringHours(Hundredths(n)), ',')| - 1] != '0'
  {
    var w := NatToString(n / 100);
    assert ',' !in w by {
      assert AllDigits(w);
    }
    if n % 100 == 0 {
      BeforeOfSepFree(w, ',');
    } else {
      FractionDenotes(n % 100);
      var f := FractionText(n % 100)[1..];
      assert StringHours(Hundredths(n)) == w + "," + f;
      BeforeAfterOfJoin(w, f, ',');
    }
  }

  /** The digits after the comma of a nonzero fraction: one or two, no
      trailing zero, their leading two making `r`. */
  lemma FractionDenotes(r: nat)
    requires 0 < r < 100
    ensures var t := FractionText(r);
            && |t| > 1 && t[0] == ','
            && AllDigits(t[1..]) && |t[1..]| <= 2 && LeadTwo(t[1..]) == r && t[|t| - 1] != '0'
  {
  }

  lemma StringHoursExamples()
    ensures StringHours(Hundredths(150)) == "1,5"
    ensures StringHours(Hundredths(58)) == "0,58"
    ensures StringHours(Hundredths(100)) == "1"
  {
  }

  lemma ParseHoursExample()
    ensures ParseHours("1,5") == Hundredths(150)
  {
    BeforeAfterOfJoin("1", "5", ',');
    assert "1,5" == "1" + "," + "5";
  }

  lemma ParseHoursQuarterThird()
    ensures ParseHours("0,25") == Hundredths(25)
    ensures ParseHours("0,33") == Hundredths(33)
  {
    BeforeAfterOfJoin("0", "25", ',');
    assert "0,25" == "0" + "," + "25";
    BeforeAfterOfJoin("0", "33", ',');
    assert "0,33" == "0" + "," + "33";
  }

  // ---------------------------------------------------------------------
  // roundHours

  /** The source's threshold table on the first two fraction digits:
      4 = next whole hour, 3 = ",75", 2 = ",5", 1 = ",25", 0 = whole hour. */
  function Bucket(d0: nat, d1: nat): nat {
    if d0 >= 9 || (d0 >= 8 && d1 >= 3) then 4
    else if d0 >= 7 || (d0 >= 6 && d1 >= 3) then 3
    else if d0 >= 4 || (d0 >= 3 && d1 >= 3) then 2
    else if d0 >= 2 || (d0 >= 1 && d1 >= 3) then 1
    else 0
  }

  /** The bucket as a function of the two-digit value `10 * d0 + d1`. */
  lemma BucketThresholds(d0: nat, d1: nat)
    requires d0 < 10 && d1 < 10
    ensures var v := 10 * d0 + d1;
      && (Bucket(d0, d1) == 4 <==> 83 <= v)
      && (Bucket(d0, d1) == 3 <==> 63 <= v <= 82)
      && (Bucket(d0, d1) == 2 <==> 33 <= v <= 62)
      && (Bucket(d0, d1) == 1 <==> 13 <= v <= 32)
      && (Bucket(d0, d1) == 0 <==> v <= 12)
  {
  }

  /** Leading fraction digit `k` as the comparisons see it; a missing one never reaches a threshold. */
  function FracDigit(f: string, k: nat): (v: nat)
    ensures v < 10
  {
    if k < |f| then DigitOrZero(f[k]) else 0
  }

  /** `(segments[0] * 1) + 1` printed, for the whole parts `stringHours` produces:
      a digit string (the empty one is 0) gives its successor. Other text is
      read as NaN here, although `Number` would accept signs, spaces, '.' and exponents. */
  function WholePlusOne(w: string): (t: string)
    ensures ',' !in t
  {
    if AllDigits(w) then
      var t := NatToString(DigitsValue(w) + 1);
      assert AllDigits(t);
      t
    else "NaN"
  }

  function RoundHours(s: string): (r: string) {
    var w, seg := Before(s, ','), Segment1(s);
    if seg == [] then s
    else
      var b := Bucket(FracDigit(seg, 0), FracDigit(seg, 1));
      if b == 4 then WholePlusOne(w)
      else if b == 3 then w + "," + "75"
      else if b == 2 then w + "," + "5"
      else if b == 1 then w + "," + "25"
      else w
  }

  /** Without a non-empty part after the first comma the text is returned unchanged. */
  lemma RoundHoursKeepsBareText(s: string)
    requires Segment1(s) == []
    ensures RoundHours(s) == s
  {
  }

  /** With a fraction, the result is picked by the two leading fraction digits. */
  lemma RoundHoursBuckets(s: string)
    requires Segment1(s) != []
    ensures var v := 10 * FracDigit(Segment1(s), 0) + FracDigit(Segment1(s), 1);
      && (83 <= v ==> RoundHours(s) == WholePlusOne(Before(s, ',')))
      && (63 <= v <= 82 ==> RoundHours(s) == Before(s, ',') + "," + "75")
      && (33 <= v <= 62 ==> RoundHours(s) == Before(s, ',') + "," + "5")
      && (13 <= v <= 32 ==> RoundHours(s) == Before(s, ',') + "," + "25")
      && (v <= 12 ==> RoundHours(s) == Before(s, ','))
  {
    BucketThresholds(FracDigit(Segment1(s), 0), FracDigit(Segment1(s), 1));
  }

  lemma RoundHoursExamples()
    ensures RoundHours("0,58") == "0,5"
    ensures RoundHours("0,3") == "0,25"
  {
    assert "0,58" == "0" + "," + "58";
    BeforeAfterOfJoin("0", "58", ',');
    BeforeOfSepFree("58", ',');
    assert "0,3" == "0" + "," + "3";
    BeforeAfterOfJoin("0", "3", ',');
    BeforeOfSepFree("3", ',');
  }

  lemma RoundHoursUpperExamples()
    ensures RoundHours("0,8") == "0,75"
    ensures RoundHours("0,9") == "1"
  {
    assert "0,8" == "0" + "," + "8";
    BeforeAfterOfJoin("0", "8", ',');
    BeforeOfSepFree("8", ',');
    assert "0,9" == "0" + "," + "9";
    BeforeAfterOfJoin("0", "9", ',');
    BeforeOfSepFree("9", ',');
    assert DigitsValue("0") == 0;
  }

  lemma JoinParts(w: string, t: string)
    requires ',' !in w && ',' !in t
    ensures Before(w + "," + t, ',') == w && Segment1(w + "," + t) == t
  {
    BeforeAfterOfJoin(w, t, ',');
    BeforeOfSepFree(t, ',');
  }

  lemma CommaFreeParts(w: string)
    requires ',' !in w
    ensures Before(w, ',') == w && Segment1(w) == []
  {
    BeforeOfSepFree(w, ',');
  }

  /** The result's fraction is absent, "25", "5" or "75", and its whole part
      differs from the input's only in the top bucket. */
  lemma RoundHoursShape(s: string)
    ensures var r := RoundHours(s);
      && (Segment1(r) == [] || Segment1(r) == "25" || Segment1(r) == "5" || Segment1(r) == "75")
      && (Segment1(s) == [] || Bucket(FracDigit(Segment1(s), 0), FracDigit(Segment1(s), 1)) != 4 ==>
            Before(r, ',') == Before(s, ','))
  {
    var w, seg := Before(s, ','), Segment1(s);
    if seg != [] {
      var b := Bucket(FracDigit(seg, 0), FracDigit(seg, 1));
      if b == 4 {
        CommaFreeParts(WholePlusOne(w));
      } else if b == 3 {
        JoinParts(w, "75");
      } else if b == 2 {
        JoinParts(w, "5");
      } else if b == 1 {
        JoinParts(w, "25");
      } else {
        CommaFreeParts(w);
      }
    }
  }

  /** Rounding is idempotent. */
  lemma RoundHoursIdempotent(s: string)
    ensures RoundHours(RoundHours(s)) == RoundHours(s)
  {
    var w, seg := Before(s, ','), Segment1(s);
    if seg != [] {
      var b := Bucket(FracDigit(seg, 0), FracDigit(seg, 1));
      if b == 4 {
        CommaFreeParts(WholePlusOne(w));
      } else if b == 3 {
        JoinParts(w, "75");
      } else if b == 2 {
        JoinParts(w, "5");
      } else if b == 1 {
        JoinParts(w, "25");
      } else {
        CommaFreeParts(w);
      }
    }
  }

  /** The hundredths that rounding `n` hundredths lands on, stated on the value alone. */
  function QuarterRound(n: nat): nat {
    var v := n % 100;
    n / 100 * 100 + (if v >= 83 then 100 else if v >= 63 then 75 else if v >= 33 then 50 else if v >= 13 then 25 else 0)
  }

  lemma QuarterRoundBounds(n: nat)
    ensures QuarterRound(n) % 25 == 0
    ensures n - 12 <= QuarterRound(n) <= n + 17
  {
  }

  /** The text `roundHours(stringHours(n))` yields, stated on the value `n % 100`. */
  function RoundedText(n: nat): string {
    var w, v := NatToString(n / 100), n % 100;
    if v >= 83 then NatToString(n / 100 + 1)
    else if v >= 63 then w + "," + "75"
    else if v >= 33 then w + "," + "5"
    else if v >= 13 then w + "," + "25"
    else w
  }

  lemma {:induction false} RoundHoursOfStringHours(n: nat)
    ensures RoundHours(StringHours(Hundredths(n))) == RoundedText(n)
  {
    var s := StringHours(Hundredths(n));
    var w := NatToString(n / 100);
    StringHoursDenotes(n);
    var f := After(s, ',');
    assert ',' !in f by { assert AllDigits(f); }
    BeforeOfSepFree(f, ',');
    assert Segment1(s) == f;
    if n % 100 == 0 {
      assert ',' !in w by { assert AllDigits(w); }
      CommaFreeParts(w);
    } else {
      assert FracDigit(f, 0) * 10 + FracDigit(f, 1) == n % 100;
      BucketThresholds(FracDigit(f, 0), FracDigit(f, 1));
    }
  }

  lemma ParseWhole(w: string)
    requires AllDigits(w)
    ensures ParseHours(w) == Hundredths(DigitsValue(w) * 100)
  {
    assert ',' !in w by { assert AllDigits(w); }
    ParseHoursWhole(w);
  }

  lemma {:induction false} ParseWholeAndFraction(w: string, t: string)
    requires AllDigits(w) && AllDigits(t) && w != []
    ensures ParseHours(w + "," + t) == Hundredths(DigitsValue(w) * 100 + LeadTwo(t))
  {
    ParseHoursFraction(w, t);
  }

  lemma {:induction false} ParseQuarterText(w: string, t: string, k: nat)
    requires AllDigits(w) && w != []
    requires (t == "75" && k == 75) || (t == "5" && k == 50) || (t == "25" && k == 25)
    ensures ParseHours(w + "," + t) == Hundredths(DigitsValue(w) * 100 + k)
  {
    ParseWholeAndFraction(w, t);
  }

  lemma {:induction false} ParseRoundedText(n: nat)
    ensures ParseHours(RoundedText(n)) == Hundredths(QuarterRound(n))
  {
    var w, v := NatToString(n / 100), n % 100;
    var q := n / 100 * 100;
    assert DigitsValue(w) * 100 == q;
    if v >= 83 {
      ParseWhole(NatToString(n / 100 + 1));
      assert QuarterRound(n) == q + 100;
    } else if v >= 63 {
      ParseQuarterText(w, "75", 75);
      assert QuarterRound(n) == q + 75;
    } else if v >= 33 {
      ParseQuarterText(w, "5", 50);
      assert QuarterRound(n) == q + 50;
    } else if v >= 13 {
      ParseQuarterText(w, "25", 25);
      assert QuarterRound(n) == q + 25;
    } else {
      ParseWhole(w);
      assert QuarterRound(n) == q;
    }
  }

  /** Rounding the text of `n` hundredths and reading it back gives
      `QuarterRound(n)`, a multiple of 25. */
  lemma RoundedTextDenotes(n: nat)
    ensures ParseHours(RoundHours(StringHours(Hundredths(n)))) == Hundredths(QuarterRound(n))
  {
    RoundHoursOfStringHours(n);
    ParseRoundedText(n);
  }

  /** NaN hours print as "NaN", which rounding leaves alone and which reads back as NaN. */
  lemma NaNStaysNaN()
    ensures RoundHours(StringHours(NaN)) == "NaN"
    ensures ParseHours("NaN").NaN?
  {
    CommaFreeParts("NaN");
  }
}
