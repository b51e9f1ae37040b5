/**
 * The line filter of fetch-tranco.js: from the text of top-1m.csv, keep the
 * `rank,domain` lines whose domain ends in ".tw", in file order.
 */
module Tranco {
  import opened Wrappers
  import opened Text

  /** One record of tranco_list_tw.json. */
  datatype TwSite = TwSite(rank: int, domain: string, url: string)

  /** A digit, or a sign followed by a digit: how a text must begin for `parseInt` to give a number. */
  predicate StartsNumber(t: string) {
    |t| > 0 && (IsDigit(t[0]) || ((t[0] == '-' || t[0] == '+') && |t| > 1 && IsDigit(t[1])))
  }

  /**
   * `parseInt(s, 10)`: skip leading white space, take an optional sign and
   * the longest run of decimal digits after it; None stands for NaN, when
   * that run is empty.
   */
  function ParseInt(s: string): (r: Option<int>)
    ensures r.Some? <==> StartsNumber(TrimStart(s))
    ensures r.Some? && r.value < 0 ==> TrimStart(s)[0] == '-'
    ensures r.Some? && IsDigit(TrimStart(s)[0]) ==> r.value >= 0
  {
    var t := TrimStart(s);
    var signed := |t| > 0 && (t[0] == '-' || t[0] == '+');
    var rest := if signed then t[1..] else t;
    var ds := DigitSpan(rest);
    if ds == [] then None
    else Some(if signed && t[0] == '-' then -(DigitsValue(ds) as int) else DigitsValue(ds))
  }

  /** The last three characters of a name under the Taiwan country-code domain. */
  const TwSuffix := ".tw"

  /** One pass of the loop body: the record a line yields, or None for a `continue` or a non-.tw domain. */
  function ParseLine(line: string): (r: Option<TwSite>)
    ensures r.Some? ==> EndsWith(r.value.domain, TwSuffix) && r.value.url == "https://" + r.value.domain
  {
    var trimmed := Trim(line);
    if trimmed == "" then None
    else
      var parts := Split(trimmed, ',');
      if |parts| < 2 then None
      else
        var rank := ParseInt(parts[0]);
        var domain := Trim(parts[1]);
        if rank.None? then None
        else if EndsWith(domain, TwSuffix) then Some(TwSite(rank.value, domain, "https://" + domain))
        else None
  }

  /** The records the lines yield, in line order; defined from the last line backwards. */
  function FilterSites(lines: seq<string>): (sites: seq<TwSite>)
    ensures |sites| <= |lines|
  {
    if lines == [] then []
    else
      var last := ParseLine(lines[|lines| - 1]);
      FilterSites(lines[..|lines| - 1]) + (if last.Some? then [last.value] else [])
  }

  /**
   * `csvText.split('\n')` and the `for ... of` loop with its `continue`
   * skips, pushing into `twSites`.
   */
  method FilterTaiwan(csvText: string) returns (twSites: seq<TwSite>)
    ensures twSites == FilterSites(Split(csvText, '\n'))
  {
    var lines := Split(csvText, '\n');
    twSites := [];
    for n := 0 to |lines|
      invariant twSites == FilterSites(lines[..n])
    {
      assert lines[..n + 1][..n] == lines[..n];
      var line := lines[n];
      var trimmed := Trim(line);
      if trimmed == "" {
        continue;
      }
      var parts := Split(trimmed, ',');
      if |parts| < 2 {
        continue;
      }
      var rank := ParseInt(parts[0]);
      var domain := Trim(parts[1]);
      if rank.None? {
        continue;
      }
      if EndsWith(domain, TwSuffix) {
        twSites := twSites + [TwSite(rank.value, domain, "https://" + domain)];
      }
    }
    assert lines[..|lines|] == lines;
  }

  // ---------------------------------------------------------------------
  // Properties

  /**
   * `parseInt` reads the leading numeral of a string as its value and
   * ignores whatever non-digit text follows it ("12abc" gives 12).
   */
  lemma ParseIntPrefix(ds: string, rest: string)
    requires ds != [] && AllDigits(ds)
    requires rest == [] || !IsDigit(rest[0])
    ensures ParseInt(ds + rest) == Some(DigitsValue(ds))
  {
    var t := ds + rest;
    assert IsDigit(t[0]);
    assert TrimStart(t) == t;
    DigitSpanPrefix(ds, rest);
  }

  /** `parseInt` reads a signed leading numeral as its signed value. */
  lemma ParseIntSigned(ds: string, rest: string, sign: char)
    requires ds != [] && AllDigits(ds)
    requires rest == [] || !IsDigit(rest[0])
    requires sign == '-' || sign == '+'
    ensures ParseInt([sign] + ds + rest) == Some(if sign == '-' then -(DigitsValue(ds) as int) else DigitsValue(ds))
  {
    var u := ds + rest;
    var t := [sign] + u;
    assert [sign] + ds + rest == t;
    assert t[1..] == u;
    DigitSpanPrefix(ds, rest);
    ParseIntSignedAt(t, ds);
  }

  /** A sign whose digit span is ds gives the signed value of ds. */
  lemma ParseIntSignedAt(t: string, ds: string)
    requires |t| > 0 && (t[0] == '-' || t[0] == '+')
    requires ds != [] && DigitSpan(t[1..]) == ds
    ensures ParseInt(t) == Some(if t[0] == '-' then -(DigitsValue(ds) as int) else DigitsValue(ds))
  {
    assert TrimStart(t) == t;
  }

  /** The digit span of a numeral followed by a non-digit is the numeral. */
  lemma DigitSpanPrefix(ds: string, rest: string)
    requires AllDigits(ds)
    requires rest == [] || !IsDigit(rest[0])
    ensures DigitSpan(ds + rest) == ds
  {
    assert forall k :: 0 <= k < |ds| ==> (ds + rest)[k] == ds[k];
    assert rest != [] ==> (ds + rest)[|ds|] == rest[0];
  }

  /** `parseInt` is NaN exactly when no digit follows the white space and the optional sign. */
  lemma ParseIntNaN(s: string)
    ensures ParseInt(s).None? <==>
      var t := TrimStart(s);
      var rest := if |t| > 0 && (t[0] == '-' || t[0] == '+') then t[1..] else t;
      rest == [] || !IsDigit(rest[0])
  {
  }

  /**
   * A line `rank,domain[,more fields]` yields a record exactly when its rank
   * field is a number for `parseInt` and its trimmed domain field ends in
   * ".tw"; the fields after the second are ignored.
   */
  lemma ParseLineFields(r: string, d: string, extra: seq<string>)
    requires ',' !in r && ',' !in d
    requires forall k :: 0 <= k < |extra| ==> ',' !in extra[k]
    ensures ParseLine(Join([r, d] + extra, ',')) ==
      if ParseInt(r).None? || !EndsWith(Trim(d), TwSuffix) then None
      else Some(TwSite(ParseInt(r).value, Trim(d), "https://" + Trim(d)))
  {
    JoinFields(r, d, extra);
    ParseLineFirstComma(r, Join([d] + extra, ','));
    SecondField(d, extra);
  }

  /** The line is the rank field, a comma, and the other fields joined. */
  lemma JoinFields(r: string, d: string, extra: seq<string>)
    ensures Join([r, d] + extra, ',') == r + [','] + Join([d] + extra, ',')
  {
    assert [r, d] + extra == [r] + ([d] + extra);
    JoinCons(r, [d] + extra, ',');
  }

  /** A line whose first comma ends a rank field r: the domain is the trimmed text up to the next comma. */
  lemma ParseLineFirstComma(r: string, y: string)
    requires ',' !in r
    ensures var f := Trim(Split(TrimEnd(y), ',')[0]);
      ParseLine(r + [','] + y) ==
        if ParseInt(r).None? || !EndsWith(f, TwSuffix) then None
        else Some(TwSite(ParseInt(r).value, f, "https://" + f))
  {
    SplitTrimmedLine(r, y);
    ParseIntTrimStart(r);
  }

  /** `parseInt` skips leading white space itself. */
  lemma ParseIntTrimStart(r: string)
    ensures ParseInt(TrimStart(r)) == ParseInt(r)
  {
    TrimStartIdem(r);
  }

  /** Trimming a line whose first field is comma-free keeps that field's start at the first comma. */
  lemma SplitTrimmedLine(r: string, y: string)
    requires ',' !in r
    ensures Trim(r + [','] + y) != []
    ensures Split(Trim(r + [','] + y), ',') == [TrimStart(r)] + Split(TrimEnd(y), ',')
  {
    var x := TrimStart(r);
    assert r + [','] + y == r + ([','] + y);
    TrimStartBefore(r, [','] + y);
    assert x + ([','] + y) == (x + [',']) + y;
    TrimEndAfter(x + [','], y);
    assert ',' !in x by {
      TrimStartDrops(r);
    }
    SplitFirst(x, TrimEnd(y), ',');
  }

  /** The second field, once the line's end is trimmed and the field itself is trimmed, is the trimmed field. */
  lemma SecondField(d: string, extra: seq<string>)
    requires ',' !in d
    requires forall k :: 0 <= k < |extra| ==> ',' !in extra[k]
    ensures Trim(Split(TrimEnd(Join([d] + extra, ',')), ',')[0]) == Trim(d)
  {
    if extra == [] {
      assert Join([d], ',') == d;
      LastField(d);
    } else {
      JoinCons(d, extra, ',');
      MiddleField(d, Join(extra, ','));
    }
  }

  /** A last field keeps only its trimmed text. */
  lemma LastField(d: string)
    requires ',' !in d
    ensures Trim(Split(TrimEnd(d), ',')[0]) == Trim(d)
  {
    assert ',' !in TrimEnd(d) by {
      TrimEndDrops(d);
    }
    SplitNoSep(TrimEnd(d), ',');
    TrimTrimEnd(d);
  }

  /** A field followed by a comma is cut at that comma, whatever follows. */
  lemma MiddleField(d: string, z: string)
    requires ',' !in d
    ensures Split(TrimEnd(d + [','] + z), ',')[0] == d
  {
    TrimEndAfter(d + [','], z);
    SplitFirst(d, TrimEnd(z), ',');
  }

  /** A line without a comma never yields a record. */
  lemma ParseLineNoComma(line: string)
    requires ',' !in line
    ensures ParseLine(line).None?
  {
    TrimInfix(line);
    SplitNoSep(Trim(line), ',');
  }

  /** Lines are filtered one by one: the records of two pieces of the file are those of the whole, in order. */
  lemma {:induction false} FilterSitesAppend(a: seq<string>, b: seq<string>)
    ensures FilterSites(a + b) == FilterSites(a) + FilterSites(b)
    decreases |b|
  {
    if b != [] {
      var init, last := b[..|b| - 1], b[|b| - 1];
      SnocSplit(a, b);
      FilterSitesAppend(a, init);
      FilterSitesSnoc(a + init, last);
      FilterSitesSnoc(init, last);
      ConcatAssoc(FilterSites(a), FilterSites(init), FilterSites([last]));
    } else {
      assert a + b == a;
    }
  }

  /** A non-empty sequence is its front and its last element. */
  lemma SnocSplit<T>(a: seq<T>, b: seq<T>)
    requires b != []
    ensures b == b[..|b| - 1] + [b[|b| - 1]]
    ensures a + b == (a + b[..|b| - 1]) + [b[|b| - 1]]
  {
  }

  /** Concatenation is associative. */
  lemma ConcatAssoc<T>(x: seq<T>, y: seq<T>, z: seq<T>)
    ensures x + (y + z) == (x + y) + z
  {
  }

  /** One more line adds its own records at the end. */
  lemma FilterSitesSnoc(lines: seq<string>, line: string)
    ensures FilterSites(lines + [line]) == FilterSites(lines) + FilterSites([line])
  {
    assert (lines + [line])[..|lines|] == lines;
    assert [line][..0] == [];
  }

  /** Every record carries a trimmed ".tw" domain and its https address. */
  predicate WellFormedTw(site: TwSite) {
    && EndsWith(site.domain, TwSuffix)
    && !IsSpace(site.domain[0]) && !IsSpace(site.domain[|site.domain| - 1])
    && ',' !in site.domain
    && site.url == "https://" + site.domain
  }

  lemma ParseLineWellFormed(line: string)
    requires ParseLine(line).Some?
    ensures WellFormedTw(ParseLine(line).value)
  {
    var parts := Split(Trim(line), ',');
    TrimInfix(parts[1]);
  }

  lemma {:induction false} FilterSitesWellFormed(lines: seq<string>)
    ensures forall k :: 0 <= k < |FilterSites(lines)| ==> WellFormedTw(FilterSites(lines)[k])
  {
    if lines != [] {
      FilterSitesWellFormed(lines[..|lines| - 1]);
      if ParseLine(lines[|lines| - 1]).Some? {
        ParseLineWellFormed(lines[|lines| - 1]);
      }
    }
  }

  /** A file built by joining lines is filtered line by line. */
  lemma FilterJoined(lines: seq<string>)
    requires |lines| >= 1
    requires forall k :: 0 <= k < |lines| ==> '\n' !in lines[k]
    ensures FilterSites(Split(Join(lines, '\n'), '\n')) == FilterSites(lines)
  {
    SplitJoin(lines, '\n');
  }
}
