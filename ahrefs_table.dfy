/**
 * `parseTable` of fetch-ahrefs.js: finds the first table body, walks its
 * `<tr>` rows and turns each complete row into a ranking record.
 *
 * The regular expressions are modelled as scanners. Each one states which
 * match the JavaScript engine returns: the leftmost start position, and at
 * that position the choice its greedy or lazy quantifiers lead to.
 */
module AhrefsTable {
  import opened Wrappers
  import opened Text
  import Traffic
  import Entities

  /** A record pushed to `sites`; `category` None is the JSON `null`. */
  datatype Site = Site(rank: nat, website: string, category: Option<string>, searchTrafficK: nat)

  /** What `parseTable` throws. */
  datatype TableError = MissingTbody | MissingTbodyEnd | InvalidUnit(unit: string)

  /**
   * The text the rows are read from: from the first "<tbody" up to, and not
   * including, the first "</tbody>" after it.
   */
  function TbodyContent(html: string): (r: Result<string, TableError>)
    ensures r.Fail? ==> r.error == MissingTbody || r.error == MissingTbodyEnd
  {
    match IndexOf(html, "<tbody", 0)
    case None => Fail(MissingTbody)
    case Some(start) =>
      match IndexOf(html, "</tbody>", start)
      case None => Fail(MissingTbodyEnd)
      case Some(end) => Ok(html[start..end])
  }

  /** `[^>]*>` from position a: q is the first '>' at or after a. */
  predicate TagEnd(row: string, a: nat, q: nat) {
    a <= q < |row| && row[q] == '>' && forall k :: a <= k < q ==> row[k] != '>'
  }

  /** One row match: the text between the `<tr ...>` tag and `</tr>`, and where the next search starts. */
  datatype RowMatch = RowMatch(body: string, next: nat)

  /**
   * The row pattern `/<tr[^>]*>([\s\S]*?)<\/tr>/` anchored at i: the tag ends
   * at the first '>' after "<tr", and the lazy body ends at the first "</tr>"
   * after that.
   */
  function RowAt(content: string, i: nat): (m: Option<RowMatch>)
    ensures m.Some? ==> i + |m.value.body| + 9 <= m.value.next <= |content|
    ensures m.Some? ==> content[m.value.next - 5 - |m.value.body|..m.value.next] == m.value.body + "</tr>"
  {
    if !OccursAt(content, "<tr", i) then None
    else
      match IndexOf(content, ">", i + 3)
      case None => None
      case Some(j) =>
        match IndexOf(content, "</tr>", j + 1)
        case None => None
        case Some(k) => Some(RowMatch(content[j + 1..k], k + 5))
  }

  /** `trRegex.exec(content)` with `lastIndex == from`: the row pattern at the first "<tr" at or after `from`. */
  function NextRow(content: string, from: nat): (m: Option<RowMatch>)
    ensures m.Some? ==> from + |m.value.body| + 9 <= m.value.next <= |content|
  {
    match IndexOf(content, "<tr", from)
    case None => None
    case Some(i) => RowAt(content, i)
  }

  /**
   * The bodies of all rows `exec` returns, in order, starting at `from`.
   * Every match takes at least nine characters ("<tr", ">" and "</tr>"),
   * which bounds the row count and ends the loop.
   */
  function Rows(content: string, from: nat): (rows: seq<string>)
    ensures from <= |content| ==> 9 * |rows| <= |content| - from
    decreases |content| - from
  {
    match NextRow(content, from)
    case None => []
    case Some(m) => [m.body] + Rows(content, m.next)
  }

  /**
   * `(\d+)<\/td>` from start, k being the end of the digits read so far.
   * The digits run as far as they go: "</td>" begins with a non-digit, so a
   * shorter run could not be followed by it.
   */
  function DigitRun(row: string, start: nat, k: nat): (r: Option<string>)
    requires start <= k <= |row|
    requires forall j :: start <= j < k ==> IsDigit(row[j])
    ensures r.Some? ==> |r.value| > 0 && AllDigits(r.value)
    decreases |row| - k
  {
    if k < |row| && IsDigit(row[k]) then DigitRun(row, start, k + 1)
    else if k > start && OccursAt(row, "</td>", k) then Some(row[start..k])
    else None
  }

  /** `<td[^>]*>(\d+)<\/td>` anchored at i: the digits right after the tag, closed by "</td>". */
  function RankAt(row: string, i: nat): (r: Option<string>)
    ensures r.Some? ==> |r.value| > 0 && AllDigits(r.value)
  {
    if !OccursAt(row, "<td", i) then None
    else
      match IndexOf(row, ">", i + 3)
      case None => None
      case Some(q) => DigitRun(row, q + 1, q + 1)
  }

  /** `trContent.match(/<td[^>]*>(\d+)<\/td>/)`, searching from `p`: the first position at which the pattern matches. */
  function FindRank(row: string, p: nat): (r: Option<string>)
    ensures r.Some? ==> |r.value| > 0 && AllDigits(r.value)
    decreases |row| - p
  {
    if p >= |row| then None
    else
      match RankAt(row, p)
      case Some(d) => Some(d)
      case None => FindRank(row, p + 1)
  }

  predicate NotQuote(c: char) { c != '"' }

  predicate NotLt(c: char) { c != '<' }

  /** A matched link: where its text starts in the row, and the text. */
  datatype Link = Link(at: nat, text: string)

  /**
   * The part of a link pattern after `<a[^>]*`, tried at position h:
   * `href="/websites/...` (`hrefPrefix`), a quoted value of at least
   * `minValue` characters, the rest of the tag, and the link text up to "</a>".
   */
  function LinkTail(row: string, h: nat, hrefPrefix: string, minValue: nat): (r: Option<Link>)
    ensures r.Some? ==> |r.value.text| > 0 && OccursAt(row, r.value.text, r.value.at)
    ensures r.Some? ==> forall k :: 0 <= k < |r.value.text| ==> r.value.text[k] != '<'
  {
    if !OccursAt(row, hrefPrefix, h) then None
    else
      var v := Span(row[h + |hrefPrefix|..], NotQuote);
      var a := h + |hrefPrefix| + |v|;
      if |v| < minValue || a >= |row| then None
      else
        match IndexOf(row, ">", a + 1)
        case None => None
        case Some(g) =>
          var text := Span(row[g + 1..], NotLt);
          if |text| > 0 && OccursAt(row, "</a>", g + 1 + |text|) then Some(Link(g + 1, text)) else None
  }

  /** The greedy `[^>]*` after "<a": the tail is tried at h, then at h - 1, down to lo. */
  function LinkBacktrack(row: string, lo: nat, h: nat, hrefPrefix: string, minValue: nat): (r: Option<Link>)
    requires lo <= h
    ensures r.Some? ==> |r.value.text| > 0 && OccursAt(row, r.value.text, r.value.at)
    ensures r.Some? ==> forall k :: 0 <= k < |r.value.text| ==> r.value.text[k] != '<'
    decreases h - lo
  {
    match LinkTail(row, h, hrefPrefix, minValue)
    case Some(l) => Some(l)
    case None => if h == lo then None else LinkBacktrack(row, lo, h - 1, hrefPrefix, minValue)
  }

  /** A link pattern at an "<a" found at i: `[^>]*` may run up to the first '>' (or the end of the row). */
  function LinkAt(row: string, i: nat, hrefPrefix: string, minValue: nat): (r: Option<Link>)
    ensures r.Some? ==> |r.value.text| > 0 && OccursAt(row, r.value.text, r.value.at)
    ensures r.Some? ==> forall k :: 0 <= k < |r.value.text| ==> r.value.text[k] != '<'
  {
    var e := match IndexOf(row, ">", i + 2) case Some(e) => e case None => |row|;
    var lo := i + 2;
    if e < lo then None else LinkBacktrack(row, lo, e, hrefPrefix, minValue)
  }

  /** `trContent.match(...)` for a link pattern, searching from p: the first "<a" at which it matches. */
  function FindLink(row: string, p: nat, hrefPrefix: string, minValue: nat): (r: Option<Link>)
    ensures r.Some? ==> |r.value.text| > 0 && OccursAt(row, r.value.text, r.value.at)
    ensures r.Some? ==> forall k :: 0 <= k < |r.value.text| ==> r.value.text[k] != '<'
    decreases |row| - p
  {
    match IndexOf(row, "<a", p)
    case None => None
    case Some(i) =>
      match LinkAt(row, i, hrefPrefix, minValue)
      case Some(l) => Some(l)
      case None => FindLink(row, i + 1, hrefPrefix, minValue)
  }

  /** `/<a[^>]*href="\/websites\/([^"]+)"[^>]*>([^<]+)<\/a>/`, group 2. */
  function WebsiteLink(row: string): (r: Option<Link>)
    ensures r.Some? ==> |r.value.text| > 0 && OccursAt(row, r.value.text, r.value.at)
    ensures r.Some? ==> forall k :: 0 <= k < |r.value.text| ==> r.value.text[k] != '<'
  {
    FindLink(row, 0, "href=\"/websites/", 1)
  }

  /** `/<a[^>]*href="\/websites\/taiwan\/[^"]*"[^>]*>([^<]+)<\/a>/`, group 1. */
  function CategoryLink(row: string): (r: Option<Link>)
    ensures r.Some? ==> |r.value.text| > 0 && OccursAt(row, r.value.text, r.value.at)
    ensures r.Some? ==> forall k :: 0 <= k < |r.value.text| ==> r.value.text[k] != '<'
  {
    FindLink(row, 0, "href=\"/websites/taiwan/", 0)
  }

  /**
   * `([\d.]+[KMkm]?)<\/span>` with the group starting at `start`, scanned
   * from k: the greedy run of digits and dots, then either a unit letter and
   * "</span>", or "</span>" right after the run. No shorter run can be
   * followed by "</span>" or a unit letter, so backing off finds nothing more.
   */
  function SpanRun(row: string, start: nat, k: nat): (r: Option<string>)
    requires start <= k <= |row|
    requires forall j :: start <= j < k ==> Traffic.IsDigitOrDot(row[j])
    ensures r.Some? ==> Traffic.InGrammar(r.value)
    decreases |row| - k
  {
    if k < |row| && Traffic.IsDigitOrDot(row[k]) then SpanRun(row, start, k + 1)
    else if k == start then None
    else if k < |row| && Traffic.IsUnitLetter(row[k]) && OccursAt(row, "</span>", k + 1) then Some(row[start..k + 1])
    else if OccursAt(row, "</span>", k) then Some(row[start..k])
    else None
  }

  /** `<span>([\d.]+[KMkm]?)<\/span>` at position s. */
  function SpanAt(row: string, s: nat): (r: Option<string>)
    ensures r.Some? ==> Traffic.InGrammar(r.value)
  {
    if !OccursAt(row, "<span>", s) then None else SpanRun(row, s + 6, s + 6)
  }

  /** The lazy `[\s\S]*?`: the first position at or after s where a traffic span matches. */
  function SpanFrom(row: string, s: nat): (r: Option<string>)
    ensures r.Some? ==> Traffic.InGrammar(r.value)
    decreases |row| - s
  {
    if s >= |row| then None
    else
      match SpanAt(row, s)
      case Some(t) => Some(t)
      case None => SpanFrom(row, s + 1)
  }

  /** `<td[^>]*>[\s\S]*?<span>([\d.]+[KMkm]?)<\/span>` anchored at i. */
  function TdSpanAt(row: string, i: nat): (r: Option<string>)
    ensures r.Some? ==> Traffic.InGrammar(r.value)
  {
    if !OccursAt(row, "<td", i) then None
    else
      match IndexOf(row, ">", i + 3)
      case None => None
      case Some(q) => SpanFrom(row, q + 1)
  }

  /** `trContent.match(/<td[^>]*>[\s\S]*?<span>([\d.]+[KMkm]?)<\/span>/)`, group 1, tried at the first "<td". */
  function TrafficSpan(row: string): (r: Option<string>)
    ensures r.Some? ==> Traffic.InGrammar(r.value)
  {
    match IndexOf(row, "<td", 0)
    case None => None
    case Some(i) => TdSpanAt(row, i)
  }

  /** What one pass of the loop body does with a row: skip it, push a record, or throw. */
  datatype RowOutcome = Skip | Emit(site: Site) | Abort(error: TableError)

  /** The category as stored: the trimmed, entity-decoded link text, or null when absent or empty. */
  function CategoryOf(row: string): (c: Option<string>)
    ensures c.Some? ==> c.value != ""
    ensures CategoryLink(row).None? ==> c.None?
    ensures CategoryLink(row).Some? ==>
      var decoded := Entities.DecodeHtmlEntities(Trim(CategoryLink(row).value.text));
      (c.None? <==> decoded == "") && (c.Some? ==> c.value == decoded)
  {
    var category := match CategoryLink(row)
      case Some(l) => Entities.DecodeHtmlEntities(Trim(l.text))
      case None => "";
    if category == "" then None else Some(category)
  }

  /**
   * The loop body of `parseTable` for one row, as a function. A row is used
   * only when all three matches are found; it then throws only for a unit
   * error, and otherwise stores the converted traffic of its span.
   */
  function ParseRow(row: string): (r: RowOutcome)
    ensures !r.Skip? ==> RowComplete(row)
    ensures r.Abort? ==> r.error.InvalidUnit?
    ensures r.Emit? ==> Traffic.ConvertTrafficToK(Some(TrafficSpan(row).value)) == Ok(r.site.searchTrafficK)
    ensures r.Emit? ==> r.site.rank == DigitsValue(FindRank(row, 0).value)
    ensures r.Emit? ==> r.site.website == Trim(WebsiteLink(row).value.text)
    ensures r.Emit? ==> r.site.category == CategoryOf(row)
  {
    match FindRank(row, 0)
    case None => Skip
    case Some(digits) =>
      match WebsiteLink(row)
      case None => Skip
      case Some(w) =>
        match TrafficSpan(row)
        case None => Skip
        case Some(t) =>
          GrammarClean(t);
          match Traffic.ConvertTrafficToK(Some(Trim(t)))
          case Fail(e) => Abort(InvalidUnit(e.unit))
          case Ok(k) => Emit(Site(DigitsValue(digits), Trim(w.text), CategoryOf(row), k))
  }

  /** What the loop body does with each row, in row order. */
  function Outcomes(rows: seq<string>): (o: seq<RowOutcome>)
    ensures |o| == |rows|
    ensures forall k :: 0 <= k < |rows| ==> o[k] == ParseRow(rows[k])
  {
    if rows == [] then [] else [ParseRow(rows[0])] + Outcomes(rows[1..])
  }

  /** The loop over row outcomes: the records in order, or the first error thrown. */
  function Collect(outcomes: seq<RowOutcome>): (r: Result<seq<Site>, TableError>)
    ensures r.Ok? ==> |r.value| <= |outcomes|
  {
    if outcomes == [] then Ok([])
    else
      match outcomes[0]
      case Skip => Collect(outcomes[1..])
      case Abort(e) => Fail(e)
      case Emit(s) => Prepend([s], Collect(outcomes[1..]))
  }

  function Prepend(sites: seq<Site>, r: Result<seq<Site>, TableError>): (p: Result<seq<Site>, TableError>)
    ensures p.Ok? == r.Ok? && (p.Ok? ==> |p.value| == |sites| + |r.value|)
  {
    match r
    case Ok(more) => Ok(sites + more)
    case Fail(e) => Fail(e)
  }

  /** What `parseTable(html)` returns or throws: a body error first, then at most one record per row. */
  function TableOf(html: string): (r: Result<seq<Site>, TableError>)
    ensures TbodyContent(html).Fail? ==> r == Fail(TbodyContent(html).error)
    ensures r.Ok? ==> TbodyContent(html).Ok? && |r.value| <= |Rows(TbodyContent(html).value, 0)|
  {
    match TbodyContent(html)
    case Fail(e) => Fail(e)
    case Ok(content) => Collect(Outcomes(Rows(content, 0)))
  }

  /**
   * The loop body of `parseTable` for one row, step by step: the imperative
   * form of ParseRow. Each missing match is a `continue` (Skip), a unit-less
   * traffic figure is the throw.
   */
  method ParseRowStep(trContent: string) returns (outcome: RowOutcome)
    ensures outcome == ParseRow(trContent)
  {
    var rankMatch := FindRank(trContent, 0);
    if rankMatch.None? {
      return Skip;
    }
    var rank := DigitsValue(rankMatch.value);

    var websiteMatch := WebsiteLink(trContent);
    if websiteMatch.None? {
      return Skip;
    }
    var website := Trim(websiteMatch.value.text);

    var category := CategoryOf(trContent);

    var trafficMatch := TrafficSpan(trContent);
    if trafficMatch.None? {
      return Skip;
    }
    var searchTrafficK := Traffic.ConvertTrafficToK(Some(Trim(trafficMatch.value)));
    if searchTrafficK.Fail? {
      return Abort(InvalidUnit(searchTrafficK.error.unit));
    }
    return Emit(Site(rank, website, category, searchTrafficK.value));
  }

  /** `parseTable(html)`: the `exec` loop over the rows of the first table body, pushing into `sites`. */
  method ParseTable(html: string) returns (r: Result<seq<Site>, TableError>)
    ensures r == TableOf(html)
  {
    var tbodyStart := IndexOf(html, "<tbody", 0);
    if tbodyStart.None? {
      return Fail(MissingTbody);
    }
    var tbodyEnd := IndexOf(html, "</tbody>", tbodyStart.value);
    if tbodyEnd.None? {
      return Fail(MissingTbodyEnd);
    }
    var content := html[tbodyStart.value..tbodyEnd.value];
    var sites: seq<Site> := [];
    var lastIndex: nat := 0;
    assert Prepend(sites, Collect(Outcomes(Rows(content, lastIndex)))) == Collect(Outcomes(Rows(content, 0))) by {
      PrependNil(Collect(Outcomes(Rows(content, 0))));
    }
    while true
      invariant lastIndex <= |content|
      invariant Prepend(sites, Collect(Outcomes(Rows(content, lastIndex)))) == Collect(Outcomes(Rows(content, 0)))
      decreases |content| - lastIndex
    {
      ghost var before := lastIndex;
      var trMatch := NextRow(content, lastIndex);
      if trMatch.None? {
        assert Rows(content, lastIndex) == [];
        assert sites + [] == sites;
        break;
      }
      var rest := Outcomes(Rows(content, trMatch.value.next));
      lastIndex := trMatch.value.next;
      var outcome := ParseRowStep(trMatch.value.body);
      assert Outcomes(Rows(content, before)) == [outcome] + rest;
      CollectStep(sites, outcome, rest);
      match outcome
      case Skip =>
      case Abort(e) =>
        return Fail(e);
      case Emit(site) =>
        sites := sites + [site];
    }
    assert TbodyContent(html) == Ok(content);
    return Ok(sites);
  }

  /** How one row changes the fold, seen from the records collected so far. */
  lemma CollectStep(sites: seq<Site>, outcome: RowOutcome, rest: seq<RowOutcome>)
    ensures outcome.Skip? ==> Prepend(sites, Collect([outcome] + rest)) == Prepend(sites, Collect(rest))
    ensures outcome.Abort? ==> Prepend(sites, Collect([outcome] + rest)) == Fail(outcome.error)
    ensures outcome.Emit? ==> Prepend(sites, Collect([outcome] + rest)) == Prepend(sites + [outcome.site], Collect(rest))
  {
    assert ([outcome] + rest)[1..] == rest;
    if outcome.Emit? {
      PrependAssoc(sites, [outcome.site], Collect(rest));
    }
  }

  lemma PrependNil(r: Result<seq<Site>, TableError>)
    ensures Prepend([], r) == r
  {
    if r.Ok? {
      assert [] + r.value == r.value;
    }
  }

  lemma PrependAssoc(a: seq<Site>, b: seq<Site>, r: Result<seq<Site>, TableError>)
    ensures Prepend(a, Prepend(b, r)) == Prepend(a + b, r)
  {
    if r.Ok? {
      assert a + (b + r.value) == (a + b) + r.value;
    }
  }

  // ---------------------------------------------------------------------
  // Properties of the table body

  ghost predicate HasTbody(html: string) {
    exists i :: 0 <= i <= |html| && OccursAt(html, "<tbody", i)
  }

  /** The fold over rows only ever fails with the unit error of `convertTrafficToK`. */
  lemma {:induction false} CollectFailsOnlyOnUnit(rows: seq<string>)
    ensures Collect(Outcomes(rows)).Fail? ==> Collect(Outcomes(rows)).error.InvalidUnit?
  {
    var o := Outcomes(rows);
    CollectSpec(o);
    if Collect(o).Fail? {
      var k :| 0 <= k < |o| && o[k] == Abort(Collect(o).error);
      ParseRowAbort(rows[k]);
    }
  }

  /**
   * The two body errors: "no <tbody" exactly when the marker is absent, and
   * "no </tbody>" exactly when there is a "<tbody" but every "</tbody>" comes
   * before every "<tbody".
   */
  lemma TbodyErrors(html: string)
    ensures TableOf(html) == Fail(MissingTbody) <==> !HasTbody(html)
    ensures TableOf(html) == Fail(MissingTbodyEnd) <==>
      HasTbody(html) &&
      forall i, j :: OccursAt(html, "<tbody", i) && OccursAt(html, "</tbody>", j) ==> j < i
  {
    var c := TbodyContent(html);
    if c.Ok? {
      CollectFailsOnlyOnUnit(Rows(c.value, 0));
    }
    match IndexOf(html, "<tbody", 0)
    case None =>
    case Some(start) =>
      assert HasTbody(html);
      match IndexOf(html, "</tbody>", start)
      case None =>
      case Some(end) =>
        assert OccursAt(html, "<tbody", start) && OccursAt(html, "</tbody>", end);
  }

  /** Text after the first complete table body does not change the result. */
  lemma TableOfExtend(html: string, t: string)
    requires TbodyContent(html).Ok?
    ensures TableOf(html + t) == TableOf(html)
  {
    IndexOfExtend(html, t, "<tbody", 0);
    var start := IndexOf(html, "<tbody", 0).value;
    IndexOfExtend(html, t, "</tbody>", start);
    var end := IndexOf(html, "</tbody>", start).value;
    assert (html + t)[start..end] == html[start..end];
  }

  // ---------------------------------------------------------------------
  // Properties of the row scanner

  /**
   * `exec` finds nothing from `from` exactly when the row pattern matches at
   * no position from there on: trying only the first "<tr" loses no match.
   */
  lemma NextRowLeftmost(content: string, from: nat)
    ensures NextRow(content, from).None? <==> forall i :: from <= i ==> RowAt(content, i).None?
  {
    match IndexOf(content, "<tr", from)
    case None =>
    case Some(i0) =>
      if RowAt(content, i0).None? {
        forall i | from <= i
          ensures RowAt(content, i).None?
        {
          if OccursAt(content, "<tr", i) {
            assert i0 <= i;
            match IndexOf(content, ">", i0 + 3)
            case None =>
            case Some(j0) =>
              var j := IndexOf(content, ">", i + 3);
              if j.Some? {
                assert j0 <= j.value;
                assert IndexOf(content, "</tr>", j0 + 1).None?;
              }
          }
        }
      }
  }

  /** The row pattern matches at i with group b and its match ends at n. */
  ghost predicate RowMatchAt(content: string, i: nat, b: string, n: nat) {
    && OccursAt(content, "<tr", i)
    && exists j: nat {:trigger TagEnd(content, i + 3, j)} ::
         && TagEnd(content, i + 3, j)
         && OccursAt(content, b + "</tr>", j + 1)
         && n == j + 1 + |b| + 5
         && forall p :: j + 1 <= p < j + 1 + |b| ==> !OccursAt(content, "</tr>", p)
  }

  /** What the anchored row scanner returns is a match of the row pattern. */
  lemma RowAtSound(content: string, i: nat)
    requires RowAt(content, i).Some?
    ensures RowMatchAt(content, i, RowAt(content, i).value.body, RowAt(content, i).value.next)
  {
    var j := IndexOf(content, ">", i + 3).value;
    var k := IndexOf(content, "</tr>", j + 1).value;
    TagEndIndexOf(content, i + 3, j);
    RowMatchAtIntro(content, i, j, k);
  }

  /** "<tr" at i, its tag ending at j and the first "</tr>" after j at k make a match of the row pattern. */
  lemma RowMatchAtIntro(content: string, i: nat, j: nat, k: nat)
    requires OccursAt(content, "<tr", i) && TagEnd(content, i + 3, j)
    requires j + 1 <= k && OccursAt(content, "</tr>", k)
    requires forall p :: j + 1 <= p < k ==> !OccursAt(content, "</tr>", p)
    ensures RowMatchAt(content, i, content[j + 1..k], k + 5)
  {
    var b := content[j + 1..k];
    OccursConcat(content, b, "</tr>", j + 1);
    assert OccursAt(content, b, j + 1);
  }

  /** A match of the row pattern at i is what the anchored row scanner returns. */
  lemma RowAtComplete(content: string, i: nat, b: string, n: nat)
    requires RowMatchAt(content, i, b, n)
    ensures RowAt(content, i) == Some(RowMatch(b, n))
  {
    var j: nat :| && TagEnd(content, i + 3, j)
                  && OccursAt(content, b + "</tr>", j + 1)
                  && n == j + 1 + |b| + 5
                  && forall p :: j + 1 <= p < j + 1 + |b| ==> !OccursAt(content, "</tr>", p);
    RowAtCloses(content, i, j, b);
  }

  /** The anchored row scanner's result, given where the tag ends and where the body runs. */
  lemma RowAtCloses(content: string, i: nat, j: nat, b: string)
    requires OccursAt(content, "<tr", i) && TagEnd(content, i + 3, j)
    requires OccursAt(content, b + "</tr>", j + 1)
    requires forall p :: j + 1 <= p < j + 1 + |b| ==> !OccursAt(content, "</tr>", p)
    ensures RowAt(content, i) == Some(RowMatch(b, j + 1 + |b| + 5))
  {
    TagEndIndexOf(content, i + 3, j);
    FirstClose(content, j + 1, b);
  }

  /** A body followed by "</tr>", with no "</tr>" inside it, ends where the search finds the first "</tr>". */
  lemma FirstClose(content: string, a: nat, b: string)
    requires OccursAt(content, b + "</tr>", a)
    requires forall p :: a <= p < a + |b| ==> !OccursAt(content, "</tr>", p)
    ensures IndexOf(content, "</tr>", a) == Some(a + |b|) && content[a..a + |b|] == b
  {
    OccursConcat(content, b, "</tr>", a);
    IndexOfFirst(content, "</tr>", a, a + |b|);
  }

  /**
   * The anchored row scanner returns body b and end n exactly when "<tr"
   * starts at i, its tag ends at the first '>', and b runs from there to the
   * first "</tr>" after it.
   */
  lemma RowAtMatch(content: string, i: nat, b: string, n: nat)
    ensures RowAt(content, i) == Some(RowMatch(b, n)) <==> RowMatchAt(content, i, b, n)
  {
    if RowAt(content, i) == Some(RowMatch(b, n)) {
      RowAtSound(content, i);
    }
    if RowMatchAt(content, i, b, n) {
      RowAtComplete(content, i, b, n);
    }
  }

  /** Searching for ">" finds exactly the end of the tag. */
  lemma TagEndIndexOf(row: string, a: nat, q: nat)
    ensures TagEnd(row, a, q) <==> IndexOf(row, ">", a) == Some(q)
  {
    forall k: nat
      ensures OccursAt(row, ">", k) <==> k < |row| && row[k] == '>'
    {
      OccursChar(row, '>', k);
    }
  }

  // ---------------------------------------------------------------------
  // What the cell scanners find, in terms of the row text

  /** The rank pattern matches at i with group d: "<td", the rest of the tag, then d and "</td>". */
  ghost predicate RankCell(row: string, i: nat, d: string) {
    && OccursAt(row, "<td", i)
    && |d| > 0 && AllDigits(d)
    && exists q: nat {:trigger TagEnd(row, i + 3, q)} :: TagEnd(row, i + 3, q) && OccursAt(row, d + "</td>", q + 1)
  }

  /** What the digit scanner returns is followed by "</td>", starting where the group starts. */
  lemma {:induction false} DigitRunSound(row: string, start: nat, k: nat)
    requires start <= k <= |row|
    requires forall j :: start <= j < k ==> IsDigit(row[j])
    requires DigitRun(row, start, k).Some?
    ensures OccursAt(row, DigitRun(row, start, k).value + "</td>", start)
    decreases |row| - k
  {
    if k < |row| && IsDigit(row[k]) {
      DigitRunSound(row, start, k + 1);
    } else {
      OccursConcat(row, row[start..k], "</td>", start);
    }
  }

  /** A run of digits followed by "</td>" is found by the digit scanner. */
  lemma {:induction false} DigitRunFinds(row: string, start: nat, k: nat, d: string)
    requires |d| > 0 && AllDigits(d) && OccursAt(row, d + "</td>", start)
    requires start <= k <= start + |d|
    requires forall j :: start <= j < k ==> IsDigit(row[j])
    ensures DigitRun(row, start, k) == Some(d)
    decreases |row| - k
  {
    OccursConcat(row, d, "</td>", start);
    assert forall j :: 0 <= j < |d| ==> row[start + j] == d[j] by {
      assert row[start..start + |d|] == d;
    }
    if k < start + |d| {
      assert row[k] == d[k - start];
      DigitRunFinds(row, start, k + 1, d);
    } else {
      assert row[k] == '<';
    }
  }

  /** What the anchored rank scanner returns is the group of a match of the rank pattern. */
  lemma RankAtSound(row: string, i: nat)
    requires RankAt(row, i).Some?
    ensures RankCell(row, i, RankAt(row, i).value)
  {
    var q := IndexOf(row, ">", i + 3).value;
    TagEndIndexOf(row, i + 3, q);
    DigitRunSound(row, q + 1, q + 1);
  }

  /** The group of a match of the rank pattern at i is what the anchored rank scanner returns. */
  lemma RankAtComplete(row: string, i: nat, d: string)
    requires RankCell(row, i, d)
    ensures RankAt(row, i) == Some(d)
  {
    var q: nat :| TagEnd(row, i + 3, q) && OccursAt(row, d + "</td>", q + 1);
    TagEndIndexOf(row, i + 3, q);
    DigitRunFinds(row, q + 1, q + 1, d);
  }

  /** The anchored rank scanner finds d exactly when the pattern matches at i with group d. */
  lemma RankAtMatch(row: string, i: nat, d: string)
    ensures RankAt(row, i) == Some(d) <==> RankCell(row, i, d)
  {
    if RankAt(row, i) == Some(d) {
      RankAtSound(row, i);
    }
    if RankCell(row, i, d) {
      RankAtComplete(row, i, d);
    }
  }

  /** The rank scanner finds nothing from p exactly when the pattern matches at no position from p. */
  lemma {:induction false} FindRankNone(row: string, p: nat)
    ensures FindRank(row, p).None? <==> forall i: nat :: p <= i ==> RankAt(row, i).None?
    decreases |row| - p
  {
    if p >= |row| {
      forall i: nat | p <= i
        ensures RankAt(row, i).None?
      {
        assert !OccursAt(row, "<td", i);
      }
    } else if RankAt(row, p).None? {
      FindRankNone(row, p + 1);
      if FindRank(row, p).None? {
        forall i: nat | p <= i
          ensures RankAt(row, i).None?
        {
          if i > p {
          }
        }
      } else {
        var i: nat :| p + 1 <= i && RankAt(row, i).Some?;
      }
    }
  }

  /** What the rank scanner finds from p is the group at the first position from p where the pattern matches. */
  lemma {:induction false} FindRankFirst(row: string, p: nat)
    requires FindRank(row, p).Some?
    ensures exists i: nat :: p <= i && RankAt(row, i) == FindRank(row, p) && forall i': nat :: p <= i' < i ==> RankAt(row, i').None?
    decreases |row| - p
  {
    if RankAt(row, p).None? {
      FindRankFirst(row, p + 1);
      var i: nat :| p + 1 <= i && RankAt(row, i) == FindRank(row, p + 1) && forall i': nat :: p + 1 <= i' < i ==> RankAt(row, i').None?;
      assert forall i': nat :: p <= i' < i ==> RankAt(row, i').None?;
    } else {
      assert RankAt(row, p) == FindRank(row, p);
    }
  }

  /**
   * `match` returns the leftmost match: the rank scanner finds nothing from p
   * exactly when the pattern matches at no position from p, and otherwise
   * the group at the first position where it matches.
   */
  lemma FindRankLeftmost(row: string, p: nat)
    ensures FindRank(row, p).None? <==> forall i: nat :: p <= i ==> RankAt(row, i).None?
    ensures FindRank(row, p).Some? ==>
      exists i: nat :: p <= i && RankAt(row, i) == FindRank(row, p) && forall i': nat :: p <= i' < i ==> RankAt(row, i').None?
  {
    FindRankNone(row, p);
    if FindRank(row, p).Some? {
      FindRankFirst(row, p);
    }
  }

  /** What the span scanner returns is followed by "</span>", starting where the group starts. */
  lemma {:induction false} SpanRunSound(row: string, start: nat, k: nat)
    requires start <= k <= |row|
    requires forall j :: start <= j < k ==> Traffic.IsDigitOrDot(row[j])
    requires SpanRun(row, start, k).Some?
    ensures OccursAt(row, SpanRun(row, start, k).value + "</span>", start)
    decreases |row| - k
  {
    if k < |row| && Traffic.IsDigitOrDot(row[k]) {
      SpanRunSound(row, start, k + 1);
    } else {
      OccursConcat(row, SpanRun(row, start, k).value, "</span>", start);
    }
  }

  /** A figure of the pattern's language followed by "</span>" is found by the span scanner. */
  lemma {:induction false} SpanRunFinds(row: string, start: nat, k: nat, t: string)
    requires Traffic.InGrammar(t) && OccursAt(row, t + "</span>", start)
    requires start <= k <= start + |t| - (if Traffic.IsUnitLetter(t[|t| - 1]) then 1 else 0)
    requires forall j :: start <= j < k ==> Traffic.IsDigitOrDot(row[j])
    ensures SpanRun(row, start, k) == Some(t)
    decreases |row| - k
  {
    OccursConcat(row, t, "</span>", start);
    assert forall j :: 0 <= j < |t| ==> row[start + j] == t[j] by {
      assert row[start..start + |t|] == t;
    }
    if k < start + |t| - (if Traffic.IsUnitLetter(t[|t| - 1]) then 1 else 0) {
      assert row[k] == t[k - start];
      SpanRunFinds(row, start, k + 1, t);
    } else {
      assert row[start..k] + row[k..start + |t|] == t;
    }
  }

  /** The anchored span scanner finds t exactly when `<span>` + t + `</span>` starts at s and t is in the pattern's language. */
  lemma SpanAtMatch(row: string, s: nat, t: string)
    ensures SpanAt(row, s) == Some(t) <==> OccursAt(row, "<span>" + t + "</span>", s) && Traffic.InGrammar(t)
  {
    assert "<span>" + t + "</span>" == "<span>" + (t + "</span>");
    OccursConcat(row, "<span>", t + "</span>", s);
    if OccursAt(row, "<span>", s) {
      if SpanAt(row, s) == Some(t) {
        SpanRunSound(row, s + 6, s + 6);
      }
      if OccursAt(row, t + "</span>", s + 6) && Traffic.InGrammar(t) {
        SpanRunFinds(row, s + 6, s + 6, t);
      }
    }
  }

  /** The lazy scan finds nothing from s exactly when no span matches at any position from s. */
  lemma {:induction false} SpanFromNone(row: string, s: nat)
    ensures SpanFrom(row, s).None? <==> forall k: nat :: s <= k ==> SpanAt(row, k).None?
    decreases |row| - s
  {
    if s >= |row| {
      forall k: nat | s <= k
        ensures SpanAt(row, k).None?
      {
        assert !OccursAt(row, "<span>", k);
      }
    } else if SpanAt(row, s).None? {
      SpanFromNone(row, s + 1);
      if SpanFrom(row, s).None? {
        forall k: nat | s <= k
          ensures SpanAt(row, k).None?
        {
          if k > s {
          }
        }
      } else {
        var k: nat :| s + 1 <= k && SpanAt(row, k).Some?;
      }
    }
  }

  /** What the lazy scan finds from s is the span at the first position from s where one matches. */
  lemma {:induction false} SpanFromFirstAt(row: string, s: nat)
    requires SpanFrom(row, s).Some?
    ensures exists k: nat :: s <= k && SpanAt(row, k) == SpanFrom(row, s) && forall k': nat :: s <= k' < k ==> SpanAt(row, k').None?
    decreases |row| - s
  {
    if SpanAt(row, s).None? {
      SpanFromFirstAt(row, s + 1);
      var k: nat :| s + 1 <= k && SpanAt(row, k) == SpanFrom(row, s + 1) && forall k': nat :: s + 1 <= k' < k ==> SpanAt(row, k').None?;
      assert forall k': nat :: s <= k' < k ==> SpanAt(row, k').None?;
    } else {
      assert SpanAt(row, s) == SpanFrom(row, s);
    }
  }

  /**
   * The lazy `[\s\S]*?` stops at the first position from s where a span
   * matches, and finds nothing exactly when none does.
   */
  lemma SpanFromFirst(row: string, s: nat)
    ensures SpanFrom(row, s).None? <==> forall k: nat :: s <= k ==> SpanAt(row, k).None?
    ensures SpanFrom(row, s).Some? ==>
      exists k: nat :: s <= k && SpanAt(row, k) == SpanFrom(row, s) && forall k': nat :: s <= k' < k ==> SpanAt(row, k').None?
  {
    SpanFromNone(row, s);
    if SpanFrom(row, s).Some? {
      SpanFromFirstAt(row, s);
    }
  }

  /**
   * Anchored at a "<td" whose tag ends at q, the traffic pattern takes the
   * first span after q, and fails exactly when there is none.
   */
  lemma TdSpanAtFirst(row: string, i: nat, q: nat)
    requires OccursAt(row, "<td", i) && TagEnd(row, i + 3, q)
    ensures TdSpanAt(row, i).None? <==> forall s: nat :: q + 1 <= s ==> SpanAt(row, s).None?
    ensures TdSpanAt(row, i).Some? ==>
      exists s: nat :: q + 1 <= s && SpanAt(row, s) == TdSpanAt(row, i) && forall s': nat :: q + 1 <= s' < s ==> SpanAt(row, s').None?
  {
    TagEndIndexOf(row, i + 3, q);
    assert TdSpanAt(row, i) == SpanFrom(row, q + 1);
    SpanFromFirst(row, q + 1);
  }

  /** The traffic pattern matches at i with group t: "<td", the rest of the tag, any text, then `<span>` + t + `</span>`. */
  ghost predicate TrafficCell(row: string, i: nat, t: string) {
    && OccursAt(row, "<td", i)
    && Traffic.InGrammar(t)
    && exists q: nat {:trigger TagEnd(row, i + 3, q)} :: TagEnd(row, i + 3, q) && exists s: nat {:trigger OccursAt(row, "<span>" + t + "</span>", s)} ::
         q < s && OccursAt(row, "<span>" + t + "</span>", s)
  }

  /** The anchored traffic scanner succeeds exactly when the pattern matches at i, and what it returns is a match. */
  lemma TdSpanAtMatch(row: string, i: nat)
    ensures TdSpanAt(row, i).Some? ==> TrafficCell(row, i, TdSpanAt(row, i).value)
    ensures (exists t :: TrafficCell(row, i, t)) ==> TdSpanAt(row, i).Some?
  {
    if OccursAt(row, "<td", i) {
      match IndexOf(row, ">", i + 3)
      case None =>
        if exists t :: TrafficCell(row, i, t) {
          var t: string, q: nat :| TrafficCell(row, i, t) && TagEnd(row, i + 3, q);
          TagEndIndexOf(row, i + 3, q);
        }
      case Some(q) =>
        TagEndIndexOf(row, i + 3, q);
        TdSpanAtFirst(row, i, q);
        if TdSpanAt(row, i).Some? {
          var t := TdSpanAt(row, i).value;
          var s :| q < s && SpanAt(row, s) == Some(t);
          SpanAtMatch(row, s, t);
        }
        if exists t :: TrafficCell(row, i, t) {
          var t: string, q': nat, s: nat :| TrafficCell(row, i, t) && TagEnd(row, i + 3, q') && q' < s && OccursAt(row, "<span>" + t + "</span>", s);
          TagEndIndexOf(row, i + 3, q');
          SpanAtMatch(row, s, t);
        }
    }
  }

  /** A "<td" after one whose lazy scan found no span finds none either: its tag closes no earlier. */
  lemma TdSpanAtLater(row: string, i0: nat, i: nat)
    requires i0 <= i && OccursAt(row, "<td", i0) && TdSpanAt(row, i0).None?
    ensures TdSpanAt(row, i).None?
  {
    if OccursAt(row, "<td", i) && IndexOf(row, ">", i + 3).Some? {
      IndexOfMonotone(row, ">", i0 + 3, i + 3);
      var q0 := IndexOf(row, ">", i0 + 3).value;
      var q := IndexOf(row, ">", i + 3).value;
      TagEndIndexOf(row, i0 + 3, q0);
      TagEndIndexOf(row, i + 3, q);
      TdSpanAtFirst(row, i0, q0);
      TdSpanAtFirst(row, i, q);
    }
  }

  /**
   * `match` returns the leftmost match: the traffic pattern fails exactly
   * when it fails at every position, and otherwise gives the group at the
   * first position where it matches. Trying only the first "<td" loses
   * nothing, since every later one closes its tag no earlier.
   */
  lemma TrafficSpanLeftmost(row: string)
    ensures TrafficSpan(row).None? <==> forall i: nat :: TdSpanAt(row, i).None?
    ensures TrafficSpan(row).Some? ==>
      exists i: nat :: TdSpanAt(row, i) == TrafficSpan(row) && forall i': nat :: i' < i ==> TdSpanAt(row, i').None?
  {
    match IndexOf(row, "<td", 0)
    case None =>
    case Some(i0) =>
      assert forall i': nat :: i' < i0 ==> TdSpanAt(row, i').None?;
      if TdSpanAt(row, i0).None? {
        forall i: nat | i0 < i
          ensures TdSpanAt(row, i).None?
        {
          TdSpanAtLater(row, i0, i);
        }
      }
  }

  /** A table body without any "<tr" yields an empty list. */
  lemma NoRowsNoSites(html: string)
    requires TbodyContent(html).Ok?
    requires forall i :: !OccursAt(TbodyContent(html).value, "<tr", i)
    ensures TableOf(html) == Ok([])
  {
  }

  // ---------------------------------------------------------------------
  // Properties of one row

  /** The rank cell, the website link and the traffic span are all present. */
  predicate RowComplete(row: string) {
    FindRank(row, 0).Some? && WebsiteLink(row).Some? && TrafficSpan(row).Some?
  }

  /** A traffic span is its own trimmed and cleaned form. */
  lemma GrammarClean(t: string)
    requires Traffic.InGrammar(t)
    ensures Trim(t) == t && Traffic.Clean(t) == t
  {
    assert forall i :: 0 <= i < |t| ==> t[i] != ',' && !IsSpace(t[i]) by {
      forall i | 0 <= i < |t|
        ensures t[i] != ',' && !IsSpace(t[i])
      {
        assert Traffic.IsDigitOrDot(t[i]) || Traffic.IsUnitLetter(t[i]);
      }
    }
    TrimNoop(t);
  }

  /** What a record pushed by the loop looks like. */
  predicate WellFormedSite(site: Site) {
    && (site.category.Some? ==> site.category.value != "")
    && (site.website != [] ==> !IsSpace(site.website[0]) && !IsSpace(site.website[|site.website| - 1]))
    && '<' !in site.website
  }

  /** Some position holds a rank cell. */
  ghost predicate HasRankCell(row: string) {
    exists i: nat, d: string {:trigger RankCell(row, i, d)} :: RankCell(row, i, d)
  }

  /** Some position holds a traffic cell. */
  ghost predicate HasTrafficCell(row: string) {
    exists i: nat, t: string {:trigger TrafficCell(row, i, t)} :: TrafficCell(row, i, t)
  }

  /** The rank scanner succeeds exactly when the rank pattern matches somewhere in the row. */
  lemma FindRankFinds(row: string)
    ensures FindRank(row, 0).Some? <==> HasRankCell(row)
  {
    FindRankLeftmost(row, 0);
    if FindRank(row, 0).Some? {
      var i: nat :| RankAt(row, i) == FindRank(row, 0);
      RankAtMatch(row, i, RankAt(row, i).value);
    }
    if HasRankCell(row) {
      var i: nat, d: string :| RankCell(row, i, d);
      RankAtMatch(row, i, d);
    }
  }

  /** The traffic scanner succeeds exactly when the traffic pattern matches somewhere in the row. */
  lemma TrafficSpanFinds(row: string)
    ensures TrafficSpan(row).Some? <==> HasTrafficCell(row)
  {
    TrafficSpanLeftmost(row);
    if TrafficSpan(row).Some? {
      var i: nat :| TdSpanAt(row, i) == TrafficSpan(row);
      TdSpanAtMatch(row, i);
    }
    if HasTrafficCell(row) {
      var i: nat, t: string :| TrafficCell(row, i, t);
      TdSpanAtMatch(row, i);
    }
  }

  /** A row is skipped exactly when the rank pattern, the website link or the traffic pattern is missing from it. */
  lemma ParseRowSkip(row: string)
    ensures ParseRow(row).Skip? <==> !HasRankCell(row) || WebsiteLink(row).None? || !HasTrafficCell(row)
  {
    FindRankFinds(row);
    TrafficSpanFinds(row);
  }

  /**
   * A row throws exactly when its traffic figure has digits but no unit
   * letter, and then with an empty unit.
   */
  lemma ParseRowAbort(row: string)
    ensures ParseRow(row).Abort? <==>
      RowComplete(row) && Traffic.InDigitsOnly(TrafficSpan(row).value) && Traffic.HasNumericPrefix(TrafficSpan(row).value)
    ensures ParseRow(row).Abort? ==> ParseRow(row).error == InvalidUnit("")
  {
    if RowComplete(row) {
      var t := TrafficSpan(row).value;
      GrammarClean(t);
      Traffic.ConvertThrowsIffUnitless(t);
      assert ParseRow(row).Abort? <==> Traffic.ConvertTrafficToK(Some(t)).Fail?;
      assert ParseRow(row).Abort? ==> ParseRow(row).error.unit == Traffic.ConvertTrafficToK(Some(t)).error.unit;
    }
  }

  /** A record a row yields is well formed. */
  lemma ParseRowEmit(row: string)
    ensures ParseRow(row).Emit? ==> WellFormedSite(ParseRow(row).site)
  {
    if RowComplete(row) {
      var text := WebsiteLink(row).value.text;
      TrimInfix(text);
      assert '<' !in text;
    }
  }

  // ---------------------------------------------------------------------
  // Properties of the fold

  /** The records the outcomes yield, in order, ignoring throws; defined from the last outcome backwards. */
  function Emitted(outcomes: seq<RowOutcome>): (sites: seq<Site>)
    ensures |sites| <= |outcomes|
  {
    if outcomes == [] then []
    else
      var last := outcomes[|outcomes| - 1];
      Emitted(outcomes[..|outcomes| - 1]) + (if last.Emit? then [last.site] else [])
  }

  lemma {:induction false} EmittedCons(o: seq<RowOutcome>)
    requires o != []
    ensures Emitted(o) == (if o[0].Emit? then [o[0].site] else []) + Emitted(o[1..])
    decreases |o|
  {
    if |o| > 1 {
      var init := o[..|o| - 1];
      EmittedCons(init);
      assert init[1..] == o[1..][..|o[1..]| - 1];
    } else {
      assert o[..0] == [] && o[1..] == [];
    }
  }

  predicate NoAbort(o: seq<RowOutcome>) {
    forall k :: 0 <= k < |o| ==> !o[k].Abort?
  }

  /**
   * The loop returns the emitted records in order when no row throws, and
   * otherwise throws the error of the first row that does.
   */
  lemma {:induction false} CollectSpec(o: seq<RowOutcome>)
    ensures Collect(o).Ok? <==> NoAbort(o)
    ensures Collect(o).Ok? ==> Collect(o).value == Emitted(o)
    ensures Collect(o).Fail? ==> exists k :: 0 <= k < |o| && NoAbort(o[..k]) && o[k] == Abort(Collect(o).error)
  {
    if o != [] {
      var tail := o[1..];
      CollectSpec(tail);
      EmittedCons(o);
      if o[0].Abort? {
        assert NoAbort(o[..0]);
      } else {
        assert forall k :: 1 <= k < |o| ==> o[k] == tail[k - 1];
        if Collect(o).Fail? {
          var k :| 0 <= k < |tail| && NoAbort(tail[..k]) && tail[k] == Abort(Collect(tail).error);
          assert o[..k + 1] == [o[0]] + tail[..k];
          assert o[k + 1] == tail[k];
        }
      }
    }
  }

  /** Every record in a returned list is well formed. */
  lemma TableSites(html: string)
    requires TableOf(html).Ok?
    ensures forall k :: 0 <= k < |TableOf(html).value| ==> WellFormedSite(TableOf(html).value[k])
  {
    var rows := Rows(TbodyContent(html).value, 0);
    var o := Outcomes(rows);
    CollectSpec(o);
    forall k | 0 <= k < |o|
      ensures o[k].Emit? ==> WellFormedSite(o[k].site)
    {
      ParseRowEmit(rows[k]);
    }
    EmittedWellFormed(o);
  }

  /** Every record in sites is the record ParseRow emits for one of the rows. */
  ghost predicate FromRows(sites: seq<Site>, rows: seq<string>) {
    forall k :: 0 <= k < |sites| ==> exists j :: 0 <= j < |rows| && ParseRow(rows[j]) == Emit(sites[k])
  }

  /**
   * Every record `parseTable` returns is the record ParseRow emits for one of
   * the rows of the table body, so its fields are those ParseRow states.
   */
  lemma TableRecordsFromRows(html: string)
    requires TableOf(html).Ok?
    ensures FromRows(TableOf(html).value, Rows(TbodyContent(html).value, 0))
  {
    var rows := Rows(TbodyContent(html).value, 0);
    assert TableOf(html) == Collect(Outcomes(rows));
    CollectFromRows(rows);
  }

  /** A successful pass over rows returns only records that ParseRow emits for one of them. */
  lemma CollectFromRows(rows: seq<string>)
    ensures Collect(Outcomes(rows)).Ok? ==> FromRows(Collect(Outcomes(rows)).value, rows)
  {
    var o := Outcomes(rows);
    CollectSpec(o);
    EmittedFrom(o);
  }

  /** Each emitted record comes from an outcome that emits it. */
  lemma {:induction false} EmittedFrom(o: seq<RowOutcome>)
    ensures forall k :: 0 <= k < |Emitted(o)| ==> exists j :: 0 <= j < |o| && o[j] == Emit(Emitted(o)[k])
  {
    if o != [] {
      var init, last := o[..|o| - 1], o[|o| - 1];
      EmittedFrom(init);
      assert Emitted(o) == Emitted(init) + (if last.Emit? then [last.site] else []);
      forall k | 0 <= k < |Emitted(o)|
        ensures exists j :: 0 <= j < |o| && o[j] == Emit(Emitted(o)[k])
      {
        if k < |Emitted(init)| {
          assert Emitted(o)[k] == Emitted(init)[k];
          var j :| 0 <= j < |init| && init[j] == Emit(Emitted(init)[k]);
          assert o[j] == init[j];
        } else {
          assert o[|o| - 1] == Emit(Emitted(o)[k]);
        }
      }
    } else {
      assert Emitted(o) == [];
    }
  }

  lemma {:induction false} EmittedWellFormed(o: seq<RowOutcome>)
    requires forall k :: 0 <= k < |o| ==> o[k].Emit? ==> WellFormedSite(o[k].site)
    ensures forall k :: 0 <= k < |Emitted(o)| ==> WellFormedSite(Emitted(o)[k])
  {
    if o != [] {
      EmittedWellFormed(o[..|o| - 1]);
    }
  }
}
