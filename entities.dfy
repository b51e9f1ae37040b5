/**
 * `decodeHtmlEntities` of fetch-ahrefs.js: six global replacements applied
 * one after the other, `&amp;` first.
 */
module Entities {
  import opened Text

  /** The replacements, in the order the chained `.replace` calls apply them. */
  const Table: seq<(string, char)> := [
    ("&amp;", '&'), ("&lt;", '<'), ("&gt;", '>'), ("&quot;", '"'), ("&#39;", '\''), ("&nbsp;", ' ')
  ]

  /** `s.replace(/pat/g, rep)` for a literal pattern: a left-to-right scan over non-overlapping occurrences. */
  function ReplaceAll(s: string, pat: string, rep: string): (r: string)
    requires |pat| > 0
    ensures |rep| <= |pat| ==> |r| <= |s|
    decreases |s|
  {
    if |s| < |pat| then s
    else if s[..|pat|] == pat then rep + ReplaceAll(s[|pat|..], pat, rep)
    else [s[0]] + ReplaceAll(s[1..], pat, rep)
  }

  /** Text without the pattern's first character is copied through unchanged, and the scan resumes after it. */
  lemma {:induction false} ReplaceAllSkip(a: string, b: string, pat: string, rep: string)
    requires |pat| > 0 && pat[0] !in a
    ensures ReplaceAll(a + b, pat, rep) == a + ReplaceAll(b, pat, rep)
    decreases |a|
  {
    if a != [] {
      if |a + b| < |pat| {
        assert ReplaceAll(b, pat, rep) == b;
      } else {
        assert (a + b)[..|pat|] != pat by { assert (a + b)[..|pat|][0] == a[0]; }
        assert (a + b)[1..] == a[1..] + b;
        assert pat[0] !in a[1..];
        ReplaceAllSkip(a[1..], b, pat, rep);
        assert a == [a[0]] + a[1..];
        assert ReplaceAll(a + b, pat, rep) == [a[0]] + ReplaceAll(a[1..] + b, pat, rep);
      }
    } else {
      assert a + b == b;
    }
  }

  /** Text without the pattern's first character is left as it is. */
  lemma ReplaceAllNone(s: string, pat: string, rep: string)
    requires |pat| > 0 && pat[0] !in s
    ensures ReplaceAll(s, pat, rep) == s
  {
    ReplaceAllSkip(s, "", pat, rep);
    assert s + "" == s;
  }

  /** An occurrence at the scan position is replaced. */
  lemma ReplaceAllHere(b: string, pat: string, rep: string)
    requires |pat| > 0
    ensures ReplaceAll(pat + b, pat, rep) == rep + ReplaceAll(b, pat, rep)
  {
    assert (pat + b)[..|pat|] == pat;
    assert (pat + b)[|pat|..] == b;
  }

  /** Applies the first `n` replacements of the table. */
  function Passes(s: string, n: nat): (r: string)
    requires n <= |Table|
    ensures |r| <= |s|
  {
    if n == 0 then s else ReplaceAll(Passes(s, n - 1), Table[n - 1].0, [Table[n - 1].1])
  }

  /** `decodeHtmlEntities(str)`: the empty string is returned as it is, anything else goes through all six passes. */
  function DecodeHtmlEntities(s: string): (r: string)
    ensures |r| <= |s|
  {
    if s == "" then s else Passes(s, |Table|)
  }

  /** Text with no ampersand has no entity, and decoding leaves it unchanged. */
  lemma {:induction false} DecodePlain(s: string)
    requires '&' !in s
    ensures DecodeHtmlEntities(s) == s
  {
    forall n: nat | n <= |Table| ensures Passes(s, n) == s {
      PassesPlain(s, n);
    }
  }

  lemma {:induction false} PassesPlain(s: string, n: nat)
    requires '&' !in s && n <= |Table|
    ensures Passes(s, n) == s
  {
    if n > 0 {
      PassesPlain(s, n - 1);
      ReplaceAllNone(s, Table[n - 1].0, [Table[n - 1].1]);
    }
  }

  /** A pass whose pattern is not at the start of `e + y` leaves `x + e + y` alone when the only ampersand is e's first character. */
  lemma PassMisses(x: string, e: string, y: string, pat: string, rep: string)
    requires |pat| > 1 && pat[0] == '&'
    requires '&' !in x && '&' !in y && |e| > 1 && e[0] == '&' && '&' !in e[1..]
    requires e[1] != pat[1]
    ensures ReplaceAll(x + e + y, pat, rep) == x + e + y
  {
    ReplaceAllSkip(x, e + y, pat, rep);
    assert (e + y)[1..] == e[1..] + y;
    assert '&' !in e[1..] + y;
    ReplaceAllNone(e[1..] + y, pat, rep);
    assert x + e + y == x + (e + y);
  }

  /** Facts about the table the passes rely on: every entity starts with its only ampersand, and no two share their second character. */
  lemma TableShape()
    ensures forall i :: 0 <= i < |Table| ==> |Table[i].0| > 1 && Table[i].0[0] == '&' && '&' !in Table[i].0[1..]
    ensures forall i :: 1 <= i < |Table| ==> Table[i].1 != '&'
    ensures forall i, j :: 0 <= i < j < |Table| ==> Table[i].0[1] != Table[j].0[1]
  {
  }

  /**
   * One entity between entity-free text decodes to its character, for the
   * five entities whose character is not an ampersand.
   */
  lemma {:induction false} DecodeEntity(x: string, k: nat, y: string)
    requires 1 <= k < |Table|
    requires '&' !in x && '&' !in y
    ensures DecodeHtmlEntities(x + Table[k].0 + y) == x + [Table[k].1] + y
  {
    PassesEntity(x, k, y, |Table|);
  }

  lemma {:induction false} PassesEntity(x: string, k: nat, y: string, n: nat)
    requires 1 <= k < |Table| && n <= |Table|
    requires '&' !in x && '&' !in y
    ensures Passes(x + Table[k].0 + y, n) == if n <= k then x + Table[k].0 + y else x + [Table[k].1] + y
  {
    if n > 0 {
      PassesEntity(x, k, y, n - 1);
      TableShape();
      if n - 1 < k {
        PassMisses(x, Table[k].0, y, Table[n - 1].0, [Table[n - 1].1]);
      } else if n - 1 == k {
        PassHits(x, Table[k].0, y, [Table[k].1]);
      } else {
        var t := x + [Table[k].1] + y;
        assert '&' !in t;
        ReplaceAllNone(t, Table[n - 1].0, [Table[n - 1].1]);
      }
    }
  }

  /** The pass for entity `e` replaces it when it is the only occurrence of an ampersand. */
  lemma PassHits(x: string, e: string, y: string, rep: string)
    requires |e| > 0 && e[0] == '&'
    requires '&' !in x && '&' !in y
    ensures ReplaceAll(x + e + y, e, rep) == x + rep + y
  {
    ReplaceAllSkip(x, e + y, e, rep);
    ReplaceAllHere(y, e, rep);
    ReplaceAllNone(y, e, rep);
    assert x + e + y == x + (e + y);
  }

  // ---------------------------------------------------------------------
  // Any number of entities

  /** The position in the table of an entity other than `&amp;`. */
  type EntityIndex = k: nat | 1 <= k < 6 witness 1

  /** Entity k as it reads after the first n passes: decoded once its own pass has run. */
  function Piece(k: EntityIndex, n: nat): string {
    if k < n then [Table[k].1] else Table[k].0
  }

  /**
   * The text xs[0], entity ks[0], xs[1], ..., entity ks[|ks| - 1], xs[|ks|],
   * as it reads after the first n passes.
   */
  function Spliced(xs: seq<string>, ks: seq<EntityIndex>, n: nat): string
    requires |xs| == |ks| + 1
    decreases |ks|
  {
    if ks == [] then xs[0] else xs[0] + Piece(ks[0], n) + Spliced(xs[1..], ks[1..], n)
  }

  /** One plain piece more than entities, and no ampersand in the plain pieces. */
  predicate SplicedShape(xs: seq<string>, ks: seq<EntityIndex>) {
    |xs| == |ks| + 1 && forall j :: 0 <= j < |xs| ==> '&' !in xs[j]
  }

  /** A pass leaves alone an entity that differs from its pattern in the second character, and the scan resumes after it. */
  lemma ReplaceAllMissAt(e: string, b: string, pat: string, rep: string)
    requires |pat| > 1 && pat[0] == '&'
    requires |e| > 1 && '&' !in e[1..] && e[1] != pat[1]
    ensures ReplaceAll(e + b, pat, rep) == e + ReplaceAll(b, pat, rep)
  {
    if |e + b| >= |pat| {
      assert (e + b)[..|pat|][1] == e[1];
      assert (e + b)[1..] == e[1..] + b;
      ReplaceAllSkip(e[1..], b, pat, rep);
      assert e == [e[0]] + e[1..];
    }
  }

  /** Pass n decodes entity k when k is n, and leaves it as it reads otherwise; the scan resumes after it. */
  lemma PieceStep(k: EntityIndex, n: nat, rest: string)
    requires n < |Table|
    ensures ReplaceAll(Piece(k, n) + rest, Table[n].0, [Table[n].1]) == Piece(k, n + 1) + ReplaceAll(rest, Table[n].0, [Table[n].1])
  {
    TableShape();
    var pat, rep := Table[n].0, [Table[n].1];
    if k < n {
      ReplaceAllSkip([Table[k].1], rest, pat, rep);
    } else if k == n {
      ReplaceAllHere(rest, pat, rep);
    } else {
      ReplaceAllMissAt(Table[k].0, rest, pat, rep);
    }
  }

  /** A pass runs through text without the pattern's first character, then handles what follows as it would on its own. */
  lemma SkipThen(x: string, m: string, rest: string, m': string, r: string, pat: string, rep: string)
    requires |pat| > 0 && pat[0] !in x
    requires ReplaceAll(m + rest, pat, rep) == m' + r
    ensures ReplaceAll(x + m + rest, pat, rep) == x + m' + r
  {
    assert x + m + rest == x + (m + rest);
    ReplaceAllSkip(x, m + rest, pat, rep);
    assert x + (m' + r) == x + m' + r;
  }

  /** Pass n runs through entity-free text x and then treats the entity after it as PieceStep says. */
  lemma SpliceStep(x: string, k: EntityIndex, rest: string, n: nat)
    requires '&' !in x && n < |Table|
    ensures ReplaceAll(x + Piece(k, n) + rest, Table[n].0, [Table[n].1]) == x + Piece(k, n + 1) + ReplaceAll(rest, Table[n].0, [Table[n].1])
  {
    PieceStep(k, n, rest);
    assert Table[n].0[0] == '&';
    SkipThen(x, Piece(k, n), rest, Piece(k, n + 1), ReplaceAll(rest, Table[n].0, [Table[n].1]), Table[n].0, [Table[n].1]);
  }

  /** Pass n decodes exactly the occurrences of entity n, and every other piece is left as it reads. */
  lemma {:induction false} PassStep(xs: seq<string>, ks: seq<EntityIndex>, n: nat)
    requires SplicedShape(xs, ks) && n < |Table|
    ensures ReplaceAll(Spliced(xs, ks, n), Table[n].0, [Table[n].1]) == Spliced(xs, ks, n + 1)
    decreases |ks|
  {
    if ks == [] {
      ReplaceAllNone(xs[0], Table[n].0, [Table[n].1]);
    } else {
      assert SplicedShape(xs[1..], ks[1..]);
      PassStep(xs[1..], ks[1..], n);
      SpliceStep(xs[0], ks[0], Spliced(xs[1..], ks[1..], n), n);
    }
  }

  /** After n passes, exactly the entities among the first n of the table are decoded. */
  lemma {:induction false} PassesSpliced(xs: seq<string>, ks: seq<EntityIndex>, n: nat)
    requires SplicedShape(xs, ks) && n <= |Table|
    ensures Passes(Spliced(xs, ks, 0), n) == Spliced(xs, ks, n)
  {
    if n > 0 {
      PassesSpliced(xs, ks, n - 1);
      PassStep(xs, ks, n - 1);
    }
  }

  /**
   * Entity-free text with any number of `&lt;`, `&gt;`, `&quot;`, `&#39;`
   * and `&nbsp;` in it decodes to the same text with each of them replaced
   * by its character, and nothing else changed.
   */
  lemma DecodeSpliced(xs: seq<string>, ks: seq<EntityIndex>)
    requires SplicedShape(xs, ks)
    ensures DecodeHtmlEntities(Spliced(xs, ks, 0)) == Spliced(xs, ks, |Table|)
  {
    if ks == [] {
      DecodePlain(xs[0]);
    } else {
      assert |Spliced(xs, ks, 0)| >= |Table[ks[0]].0| > 0;
      PassesSpliced(xs, ks, |Table|);
    }
  }

  /**
   * `&amp;` decodes to an ampersand, and that ampersand is decoded again by
   * the later passes when an entity name follows it: "&amp;lt;" becomes "<".
   */
  lemma DecodeAmpLt()
    ensures DecodeHtmlEntities("&amp;lt;") == "<"
  {
    TableShape();
    assert Passes("&amp;lt;", 1) == "&lt;" by {
      PassHits("", "&amp;", "lt;", "&");
      assert "" + "&amp;" + "lt;" == "&amp;lt;";
      assert "" + "&" + "lt;" == "&lt;";
    }
    assert Passes("&amp;lt;", 2) == "<" by {
      PassHits("", "&lt;", "", "<");
      assert "" + "&lt;" + "" == "&lt;";
    }
    forall n | 2 < n <= |Table| ensures Passes("&amp;lt;", n) == "<" {
      PassesAfter("&amp;lt;", 2, n, "<");
    }
  }

  /** Once no ampersand is left, the remaining passes change nothing. */
  lemma {:induction false} PassesAfter(s: string, m: nat, n: nat, t: string)
    requires m <= n <= |Table|
    requires Passes(s, m) == t && '&' !in t
    ensures Passes(s, n) == t
    decreases n - m
  {
    if m < n {
      ReplaceAllNone(t, Table[m].0, [Table[m].1]);
      PassesAfter(s, m + 1, n, t);
    }
  }
}
