/**
 * `convertTrafficToK` of fetch-ahrefs.js: reads a traffic figure such as
 * "80.4M" or "500K" and returns it as a whole number of thousands.
 *
 * `parseFloat` and the multiplication by 1000 are modelled with exact
 * decimals (the digit string read and its number of fraction digits), and
 * `Math.round` as rounding half up.
 */
module Traffic {
  import opened Wrappers
  import opened Text

  /** The only error the conversion throws: a matched figure with no unit letter. */
  datatype UnitError = InvalidUnit(unit: string)

  predicate IsDigitOrDot(c: char) {
    IsDigit(c) || c == '.'
  }

  predicate IsUnitLetter(c: char) {
    c == 'K' || c == 'M' || c == 'k' || c == 'm'
  }

  /** What `[KMkm]?` accepts. */
  predicate IsUnitSuffix(u: string) {
    u == [] || (|u| == 1 && IsUnitLetter(u[0]))
  }

  /** `.replace(/[,\s]/g, '')`: drops every comma and white-space character. */
  function StripSeparators(s: string): (r: string)
    ensures |r| <= |s|
    ensures forall i :: 0 <= i < |r| ==> r[i] != ',' && !IsSpace(r[i])
    ensures (forall i :: 0 <= i < |s| ==> s[i] != ',' && !IsSpace(s[i])) ==> r == s
  {
    if s == [] then []
    else if s[0] == ',' || IsSpace(s[0]) then StripSeparators(s[1..])
    else [s[0]] + StripSeparators(s[1..])
  }

  /** The string the pattern is matched against: trimmed, then commas and white space removed. */
  function Clean(s: string): (c: string)
    ensures |c| <= |s|
  {
    StripSeparators(Trim(s))
  }

  /** The two groups of `/^([\d.]+)([KMkm]?)$/`. */
  datatype TrafficMatch = TrafficMatch(number: string, unit: string)

  /**
   * `cleaned.match(/^([\d.]+)([KMkm]?)$/)`. No unit letter is a digit or a dot,
   * so the greedy first group is the longest digit-or-dot prefix and the match,
   * when there is one, is unique.
   */
  function MatchTraffic(s: string): (m: Option<TrafficMatch>)
    ensures m.Some? ==> s == m.value.number + m.value.unit
    ensures m.Some? ==> |m.value.number| > 0 && IsUnitSuffix(m.value.unit)
    ensures m.Some? ==> forall i :: 0 <= i < |m.value.number| ==> IsDigitOrDot(m.value.number[i])
  {
    var p := Span(s, IsDigitOrDot);
    var u := s[|p|..];
    assert s == p + u;
    if |p| > 0 && IsUnitSuffix(u) then Some(TrafficMatch(p, u)) else None
  }

  /** The pattern's language, stated character by character. */
  predicate InGrammar(c: string) {
    && |c| > 0
    && (forall i :: 0 <= i < |c| - 1 ==> IsDigitOrDot(c[i]))
    && IsDigitOrDot(c[0])
    && (IsDigitOrDot(c[|c| - 1]) || IsUnitLetter(c[|c| - 1]))
  }

  /** The matcher accepts exactly the pattern's language, and splits it as the regex does. */
  lemma MatchTrafficIffGrammar(c: string)
    ensures MatchTraffic(c).Some? <==> InGrammar(c)
  {
    var p := Span(c, IsDigitOrDot);
    assert c == p + c[|p|..];
    if InGrammar(c) {
      assert |p| > 0;
    }
  }

  /** Every digits-and-dots string followed by an optional unit letter is matched with exactly those groups. */
  lemma MatchTrafficComplete(p: string, u: string)
    requires |p| > 0 && forall i :: 0 <= i < |p| ==> IsDigitOrDot(p[i])
    requires IsUnitSuffix(u)
    ensures MatchTraffic(p + u) == Some(TrafficMatch(p, u))
  {
    SpanConcat(p, u, IsDigitOrDot);
  }

  /** The decimal `parseFloat` reads: its integer digits and its fraction digits. */
  datatype Decimal = Decimal(whole: string, fraction: string)

  function Pow10(n: nat): (p: nat)
    ensures p >= 1
  {
    if n == 0 then 1 else 10 * Pow10(n - 1)
  }

  /** The value of `d` is Numerator(d) / Scale(d). */
  function Numerator(d: Decimal): nat
    requires AllDigits(d.whole + d.fraction)
  {
    DigitsValue(d.whole + d.fraction)
  }

  function Scale(d: Decimal): nat {
    Pow10(|d.fraction|)
  }

  /** Whether `parseFloat` finds a number at the start of `p`: a digit, or a dot and a digit. */
  predicate HasNumericPrefix(p: string) {
    |p| > 0 && (IsDigit(p[0]) || (p[0] == '.' && |p| > 1 && IsDigit(p[1])))
  }

  /**
   * `parseFloat` on a string of digits and dots; None stands for NaN. Only the
   * leading decimal counts: digits, then a dot and the digits after it.
   */
  function ParseFloat(p: string): (d: Option<Decimal>)
    requires forall i :: 0 <= i < |p| ==> IsDigitOrDot(p[i])
    ensures d.Some? ==> AllDigits(d.value.whole + d.value.fraction)
  {
    var w := DigitSpan(p);
    if |w| < |p| then
      var f := DigitSpan(p[|w| + 1..]);
      if |w| + |f| == 0 then None else Some(Decimal(w, f))
    else if |w| == 0 then None
    else Some(Decimal(w, []))
  }

  /**
   * `parseFloat` finds a number exactly when the string starts with a digit or
   * with a dot and a digit; it reads the longest run of digits, and when a dot
   * follows, the longest run of digits after that dot, and nothing further.
   */
  lemma ParseFloatLeadingDecimal(p: string)
    requires forall i :: 0 <= i < |p| ==> IsDigitOrDot(p[i])
    ensures ParseFloat(p).Some? <==> HasNumericPrefix(p)
    ensures ParseFloat(p).Some? ==>
      var d := ParseFloat(p).value;
      && StartsWith(p, d.whole)
      && (|d.whole| == |p| || p[|d.whole|] == '.')
      && (d.fraction != [] ==> StartsWith(p, d.whole + "." + d.fraction))
      && (|d.whole| < |p| ==>
            var rest := p[|d.whole| + 1..];
            StartsWith(rest, d.fraction) && (|d.fraction| == |rest| || rest[|d.fraction|] == '.'))
  {
    var w := DigitSpan(p);
    if |w| < |p| {
      var rest := p[|w| + 1..];
      var f := DigitSpan(rest);
      assert p[|w|] == '.' by { assert IsDigitOrDot(p[|w|]); }
      if |f| < |rest| {
        assert rest[|f|] == p[|w| + 1 + |f|];
        assert IsDigitOrDot(p[|w| + 1 + |f|]);
      }
      if f != [] {
        assert p[..|w| + 1 + |f|] == p[..|w|] + [p[|w|]] + p[|w| + 1..|w| + 1 + |f|];
      }
    }
  }

  /** `r` lies within one half of num / den, and a half goes up: r - 1/2 <= num / den < r + 1/2. */
  predicate IsNearestHalfUp(r: int, num: nat, den: nat) {
    2 * den * r <= 2 * num + den < 2 * den * (r + 1)
  }

  /** `Math.round(num / den)` for a non-negative quotient: the nearest integer, halves rounded up. */
  function RoundHalfUp(num: nat, den: nat): (r: nat)
    requires den > 0
    ensures IsNearestHalfUp(r, num, den)
  {
    (2 * num + den) / (2 * den)
  }

  /** Scales the decimal by the upper-cased unit: M is thousands of thousands, K is thousands. */
  function ApplyUnit(d: Decimal, unit: string): (r: Result<nat, UnitError>)
    requires AllDigits(d.whole + d.fraction)
    ensures r.Fail? <==> unit != "M" && unit != "K"
    ensures r.Fail? ==> r.error == InvalidUnit(unit)
    ensures unit == "M" ==> IsNearestHalfUp(r.value, Numerator(d) * 1000, Scale(d))
    ensures unit == "K" ==> IsNearestHalfUp(r.value, Numerator(d), Scale(d))
  {
    if unit == "M" then Ok(RoundHalfUp(Numerator(d) * 1000, Scale(d)))
    else if unit == "K" then Ok(RoundHalfUp(Numerator(d), Scale(d)))
    else Fail(InvalidUnit(unit))
  }

  /**
   * `convertTrafficToK(trafficStr)`. The argument is None when it is not a
   * string. A result Fail is the thrown invalid-unit error.
   */
  function ConvertTrafficToK(arg: Option<string>): (r: Result<nat, UnitError>)
    ensures arg == None || arg == Some("") ==> r == Ok(0)
  {
    if arg.None? || arg.value == "" then Ok(0)
    else
      match MatchTraffic(Clean(arg.value))
      case None => Ok(0)
      case Some(m) =>
        match ParseFloat(m.number)
        case None => Ok(0)
        case Some(d) => ApplyUnit(d, ToUpper(m.unit))
  }

  /** Once the pattern has matched and `parseFloat` has read a decimal, the unit decides. */
  lemma ConvertMatched(s: string, m: TrafficMatch, d: Decimal)
    requires s != "" && MatchTraffic(Clean(s)) == Some(m)
    requires ParseFloat(m.number) == Some(d)
    ensures AllDigits(d.whole + d.fraction)
    ensures ConvertTrafficToK(Some(s)) == ApplyUnit(d, ToUpper(m.unit))
  {
  }

  /**
   * The conversion throws exactly when the cleaned string is digits and dots
   * only, with no unit letter, and starts with a decimal `parseFloat` can read.
   */
  lemma ConvertThrowsIffUnitless(s: string)
    ensures ConvertTrafficToK(Some(s)).Fail? <==> InDigitsOnly(Clean(s)) && HasNumericPrefix(Clean(s))
    ensures ConvertTrafficToK(Some(s)).Fail? ==> ConvertTrafficToK(Some(s)).error == InvalidUnit("")
  {
    var c := Clean(s);
    if InDigitsOnly(c) {
      MatchTrafficComplete(c, "");
      assert c + "" == c;
    }
    var m := MatchTraffic(c);
    if m.Some? {
      assert ParseFloat(m.value.number).Some? <==> HasNumericPrefix(m.value.number) by {
        ParseFloatLeadingDecimal(m.value.number);
      }
      if ParseFloat(m.value.number).Some? {
        var d := ParseFloat(m.value.number).value;
        ConvertMatched(s, m.value, d);
        if m.value.unit != "" {
          assert ToUpper(m.value.unit) == [UpperChar(m.value.unit[0])];
        } else {
          assert m.value.number == c;
        }
      }
    }
  }

  /** A non-empty string of digits and dots only: a figure with no unit letter. */
  predicate InDigitsOnly(c: string) {
    |c| > 0 && forall i :: 0 <= i < |c| ==> IsDigitOrDot(c[i])
  }

  /** A string outside the pattern's language converts to 0. */
  lemma ConvertOutOfGrammar(s: string)
    requires !InGrammar(Clean(s))
    ensures ConvertTrafficToK(Some(s)) == Ok(0)
  {
    MatchTrafficIffGrammar(Clean(s));
  }

  /** A string in the pattern's language without a leading decimal (".", ".M", "..5K") converts to 0. */
  lemma ConvertNoNumericPrefix(s: string)
    requires InGrammar(Clean(s)) && !HasNumericPrefix(Clean(s))
    ensures ConvertTrafficToK(Some(s)) == Ok(0)
  {
    MatchTrafficIffGrammar(Clean(s));
  }

  /**
   * With a unit letter, the result is the value read by `parseFloat`, times
   * 1000 for M or m, rounded to the nearest integer with halves going up.
   */
  lemma ConvertRounds(s: string, number: string, unit: char)
    requires Clean(s) == number + [unit]
    requires InDigitsOnly(number) && HasNumericPrefix(number)
    requires IsUnitLetter(unit)
    ensures ParseFloat(number).Some?
    ensures
      && AllDigits(ParseFloat(number).value.whole + ParseFloat(number).value.fraction)
      && var d := ParseFloat(number).value;
      var scaled := Numerator(d) * (if unit == 'M' || unit == 'm' then 1000 else 1);
      var r := ConvertTrafficToK(Some(s));
      && r.Ok?
      && IsNearestHalfUp(r.value, scaled, Scale(d))
  {
    MatchTrafficComplete(number, [unit]);
    assert ParseFloat(number).Some? by { ParseFloatLeadingDecimal(number); }
    var d := ParseFloat(number).value;
    ConvertMatched(s, TrafficMatch(number, [unit]), d);
    var scaled := Numerator(d) * (if unit == 'M' || unit == 'm' then 1000 else 1);
    var up := ToUpper([unit]);
    assert up == [UpperChar(unit)];
    var mega := unit == 'M' || unit == 'm';
    assert up == if mega then "M" else "K";
    var k := RoundHalfUp(scaled, Scale(d));
    assert ApplyUnit(d, up) == Ok(k) by {
      if mega { assert up == "M"; } else { assert up == "K"; assert scaled == Numerator(d); }
    }
    assert ConvertTrafficToK(Some(s)) == Ok(k);
  }

  // ---------------------------------------------------------------------
  // Worked examples

  /** `parseFloat` reads "w.f" as the decimal with whole part w and fraction f. */
  lemma ParseFloatDecimal(w: string, f: string)
    requires w != [] && AllDigits(w) && AllDigits(f)
    ensures forall i :: 0 <= i < |w + "." + f| ==> IsDigitOrDot((w + "." + f)[i])
    ensures ParseFloat(w + "." + f) == Some(Decimal(w, f))
  {
    var p := w + "." + f;
    SpanConcat(w, "." + f, IsDigit);
    assert w + ("." + f) == p;
    assert p[|w| + 1..] == f;
    SpanConcat(f, "", IsDigit);
    assert f + "" == f;
  }

  /**
   * A figure "w.f" followed by a unit letter converts to w.f, times 1000 for
   * M or m, rounded to the nearest integer with halves going up.
   */
  lemma ConvertDecimal(w: string, f: string, unit: char)
    requires w != [] && AllDigits(w) && AllDigits(f) && IsUnitLetter(unit)
    ensures AllDigits(w + f)
    ensures ConvertTrafficToK(Some(w + "." + f + [unit])).Ok?
    ensures IsNearestHalfUp(ConvertTrafficToK(Some(w + "." + f + [unit])).value,
      DigitsValue(w + f) * (if unit == 'M' || unit == 'm' then 1000 else 1), Pow10(|f|))
  {
    var p := w + "." + f;
    var s := p + [unit];
    ParseFloatDecimal(w, f);
    DecimalPlain(w, f, unit);
    TrimNoop(s);
    assert IsDigit(p[0]);
    ConvertRounds(s, p, unit);
  }

  /** A decimal figure with a unit letter has no comma and no white space in it. */
  lemma DecimalPlain(w: string, f: string, unit: char)
    requires AllDigits(w) && AllDigits(f) && IsUnitLetter(unit)
    ensures forall i :: 0 <= i < |w + "." + f + [unit]| ==> (w + "." + f + [unit])[i] != ',' && !IsSpace((w + "." + f + [unit])[i])
  {
    var p := w + "." + f;
    assert forall i :: 0 <= i < |p| ==> (p + [unit])[i] == p[i];
  }

  /** Rounding to the nearest integer picks exactly one value. */
  lemma NearestUnique(r: int, q: int, num: nat, den: nat)
    requires den > 0 && IsNearestHalfUp(r, num, den) && IsNearestHalfUp(q, num, den)
    ensures r == q
  {
    assert r < q ==> 2 * den * (r + 1) <= 2 * den * q;
    assert q < r ==> 2 * den * (q + 1) <= 2 * den * r;
  }

  /** "80.4M" is 80400 thousand. */
  lemma ConvertMegaExample()
    ensures ConvertTrafficToK(Some("80.4M")) == Ok(80400)
  {
    assert "80" + "." + "4" + ['M'] == "80.4M";
    assert "80" + "4" == "804";
    assert DigitsValue("804") == 804;
    ConvertDecimal("80", "4", 'M');
    NearestUnique(ConvertTrafficToK(Some("80.4M")).value, 80400, 804000, 10);
  }

  /** "1.2K" is 1 thousand: with unit K the fraction is rounded away. */
  lemma ConvertKiloExample()
    ensures ConvertTrafficToK(Some("1.2K")) == Ok(1)
  {
    assert "1" + "." + "2" + ['K'] == "1.2K";
    assert "1" + "2" == "12";
    assert DigitsValue("12") == 12;
    ConvertDecimal("1", "2", 'K');
    NearestUnique(ConvertTrafficToK(Some("1.2K")).value, 1, 12, 10);
  }

  /** A string with no comma, no white space, and nothing to trim is matched as it stands. */
  lemma CleanNoop(s: string)
    requires forall i :: 0 <= i < |s| ==> s[i] != ',' && !IsSpace(s[i])
    ensures Clean(s) == s
  {
    TrimNoop(s);
  }

  /** "500" has no unit letter, so the call throws instead of returning 500. */
  lemma ConvertUnitlessExample()
    ensures ConvertTrafficToK(Some("500")) == Fail(InvalidUnit(""))
  {
    CleanNoop("500");
    ConvertThrowsIffUnitless("500");
  }

  /** "3Q" is outside the pattern and ".M" has no number `parseFloat` can read: both give 0. */
  lemma ConvertZeroExamples()
    ensures ConvertTrafficToK(Some("3Q")) == Ok(0)
    ensures ConvertTrafficToK(Some(".M")) == Ok(0)
  {
    CleanNoop("3Q");
    ConvertOutOfGrammar("3Q");
    CleanNoop(".M");
    ConvertNoNumericPrefix(".M");
  }
}
