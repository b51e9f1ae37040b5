/**
 * check-duplicates.js: the host-name canonicalisation `normalizeWebsite` and
 * the clustering of the Tranco records that share a canonical name.
 */
module Duplicates {
  import opened Wrappers
  import opened Text

  /**
   * `normalizeWebsite(domain)`: lower-case, trim, then drop one leading
   * "www.". A missing or empty name gives "".
   */
  function NormalizeWebsite(domain: string): (n: string)
    ensures |n| <= |domain|
  {
    if domain == "" then ""
    else
      var normalized := Trim(ToLower(domain));
      if StartsWith(normalized, "www.") then normalized[4..] else normalized
  }

  /** A name no rule changes: lower case, no white space at either end. */
  predicate Canonical(x: string) {
    && (forall i :: 0 <= i < |x| ==> !IsUpper(x[i]))
    && (x != [] ==> !IsSpace(x[0]) && !IsSpace(x[|x| - 1]))
  }

  lemma LowerNoop(x: string)
    requires forall i :: 0 <= i < |x| ==> !IsUpper(x[i])
    ensures ToLower(x) == x
  {
  }

  /** The result never holds an upper-case ASCII letter. */
  lemma NormalizeLowerCase(domain: string)
    ensures forall i :: 0 <= i < |NormalizeWebsite(domain)| ==> !IsUpper(NormalizeWebsite(domain)[i])
  {
    if domain != "" {
      var lower := ToLower(domain);
      TrimInfix(lower);
      var n := NormalizeWebsite(domain);
      forall i | 0 <= i < |n|
        ensures !IsUpper(n[i])
      {
        assert n[i] in Trim(lower);
      }
    }
  }

  /**
   * "www.x" and "x" fall together for every canonical x that does not itself
   * start with "www."; any other sub-domain prefix is kept.
   */
  lemma NormalizeStripsWww(x: string)
    requires Canonical(x) && !StartsWith(x, "www.")
    ensures NormalizeWebsite(x) == x
    ensures NormalizeWebsite("www." + x) == x
  {
    LowerNoop(x);
    TrimNoop(x);
    WwwPrefix(x);
  }

  /** Names that differ only in ASCII letter case fall together. */
  lemma NormalizeIgnoresCase(a: string, b: string)
    requires a != "" && b != "" && ToLower(a) == ToLower(b)
    ensures NormalizeWebsite(a) == NormalizeWebsite(b)
  {
  }

  /** A non-empty name made only of white space is truthy but normalizes to "". */
  lemma NormalizeBlank(domain: string)
    requires domain != "" && AllSpace(domain)
    ensures NormalizeWebsite(domain) == ""
  {
    var lower := ToLower(domain);
    TrimInfix(lower);
    assert forall c :: c in lower ==> IsSpace(c);
  }

  /**
   * Not idempotent: one "www." is dropped per call, so "www.www.x" needs two
   * calls to reach x.
   */
  lemma NormalizeNotIdempotent(x: string)
    requires Canonical(x) && !StartsWith(x, "www.")
    ensures NormalizeWebsite("www.www." + x) == "www." + x
    ensures NormalizeWebsite(NormalizeWebsite("www.www." + x)) != NormalizeWebsite("www.www." + x)
  {
    var y := "www." + x;
    assert Canonical(y) by {
      forall i | 0 <= i < |y|
        ensures !IsUpper(y[i])
      {
        if i >= 4 {
          assert y[i] == x[i - 4];
        }
      }
      assert y[0] == 'w';
      assert x != [] ==> y[|y| - 1] == x[|x| - 1];
    }
    assert y[..4] == "www.";
    assert "www.www." + x == "www." + y;
    WwwPrefix(y);
    NormalizeStripsWww(x);
  }

  /** For a canonical y, "www." + y loses exactly its first four characters. */
  lemma WwwPrefix(y: string)
    requires Canonical(y)
    ensures NormalizeWebsite("www." + y) == y
  {
    var w := "www." + y;
    assert forall i :: 0 <= i < |w| ==> !IsUpper(w[i]) by {
      forall i | 0 <= i < |w|
        ensures !IsUpper(w[i])
      {
        if i >= 4 {
          assert w[i] == y[i - 4];
        }
      }
    }
    LowerNoop(w);
    assert w[0] == 'w';
    assert y != [] ==> w[|w| - 1] == y[|y| - 1];
    TrimNoop(w);
    assert w[..4] == "www." && w[4..] == y;
  }

  /** Once the result is canonical and does not start with "www.", normalizing again changes nothing. */
  lemma NormalizeStable(domain: string)
    requires Canonical(NormalizeWebsite(domain)) && !StartsWith(NormalizeWebsite(domain), "www.")
    ensures NormalizeWebsite(NormalizeWebsite(domain)) == NormalizeWebsite(domain)
  {
    NormalizeStripsWww(NormalizeWebsite(domain));
  }

  // ---------------------------------------------------------------------
  // Clustering

  /** One record of tranco_list_tw.json; `domain` None stands for a missing field. */
  datatype Item = Item(domain: Option<string>, rank: int, url: string)

  /** One raw entry kept under a canonical name. */
  datatype Member = Member(domain: string, rank: int, url: string)

  /** A canonical name and every raw entry that maps to it. */
  datatype Cluster = Cluster(normalized: string, domains: seq<Member>)

  /** The JSON written to duplicates-check.json. */
  datatype Report = Report(total: nat, unique: nat, duplicates: nat, duplicateList: seq<Cluster>)

  /** The loop skips records whose domain is falsy: missing or empty. */
  predicate Present(item: Item) {
    item.domain.Some? && item.domain.value != ""
  }

  function MemberOf(item: Item): Member
    requires Present(item)
  {
    Member(item.domain.value, item.rank, item.url)
  }

  /** A kept record: its canonical name and the entry stored under it. */
  datatype Entry = Entry(key: string, member: Member)

  /** The records the first loop does not skip, in input order, each under the name `normalize` gives its domain. */
  function KeptBy(items: seq<Item>, normalize: string -> string): (es: seq<Entry>)
    ensures |es| <= |items|
  {
    if items == [] then []
    else
      var last := items[|items| - 1];
      KeptBy(items[..|items| - 1], normalize) + (if Present(last) then [Entry(normalize(last.domain.value), MemberOf(last))] else [])
  }

  /** The kept records under their canonical names. */
  function Kept(items: seq<Item>): seq<Entry> {
    KeptBy(items, NormalizeWebsite)
  }

  lemma KeptStep(items: seq<Item>, item: Item, normalize: string -> string)
    ensures KeptBy(items + [item], normalize) == KeptBy(items, normalize) + EntriesOf(item, normalize)
  {
    assert (items + [item])[..|items|] == items;
  }

  /** The canonical names, each once, in order of first appearance: the Map's insertion order. */
  function KeyOrder(es: seq<Entry>): (order: seq<string>)
    ensures |order| <= |es|
  {
    if es == [] then []
    else
      var order := KeyOrder(es[..|es| - 1]);
      var last := es[|es| - 1];
      if last.key !in order then order + [last.key] else order
  }

  /** The entries stored under k, in input order: the Map's value for k. */
  function Group(es: seq<Entry>, k: string): seq<Member> {
    if es == [] then []
    else
      var last := es[|es| - 1];
      Group(es[..|es| - 1], k) + (if last.key == k then [last.member] else [])
  }

  /** The clusters with more than one entry, in the order of `order`. */
  function Multi(order: seq<string>, es: seq<Entry>): (cs: seq<Cluster>)
    ensures |cs| <= |order|
  {
    if order == [] then []
    else
      var k := order[|order| - 1];
      Multi(order[..|order| - 1], es) + (if |Group(es, k)| > 1 then [Cluster(k, Group(es, k))] else [])
  }

  /** Inserts c before the first cluster whose name is not below c's. */
  function Insert(c: Cluster, sorted: seq<Cluster>): (r: seq<Cluster>)
    ensures |r| == |sorted| + 1
  {
    if sorted == [] then [c]
    else if Less(sorted[0].normalized, c.normalized) then [sorted[0]] + Insert(c, sorted[1..])
    else [c] + sorted
  }

  /** `duplicates.sort((a, b) => a.normalized.localeCompare(b.normalized))`, with code-point order. */
  function SortByName(cs: seq<Cluster>): (r: seq<Cluster>)
    ensures |r| == |cs|
  {
    if cs == [] then [] else Insert(cs[0], SortByName(cs[1..]))
  }

  predicate SortedByName(cs: seq<Cluster>) {
    forall i, j :: 0 <= i < j < |cs| ==> !Less(cs[j].normalized, cs[i].normalized)
  }

  /**
   * What `checkDuplicates` writes, as a function of the input records. There
   * are never more duplicated names than names, nor more names than records.
   */
  function DuplicateReport(items: seq<Item>): (r: Report)
    ensures r.duplicates == |r.duplicateList|
    ensures r.duplicates <= r.unique <= r.total
  {
    var es := Kept(items);
    var list := SortByName(Multi(KeyOrder(es), es));
    Report(|items|, |KeyOrder(es)|, |list|, list)
  }

  /**
   * The first loop of `checkDuplicates()`: the `Map` from canonical name to
   * entries, filled in record order; `order` is the Map's insertion order.
   * The canonicalisation is a parameter; `CheckDuplicates` passes
   * `NormalizeWebsite`.
   */
  method GroupByName(trancoData: seq<Item>, normalize: string -> string)
    returns (normalizedMap: map<string, seq<Member>>, order: seq<string>)
    ensures Tracks(normalizedMap, order, KeptBy(trancoData, normalize))
  {
    normalizedMap := map[];
    order := [];
    for i := 0 to |trancoData|
      invariant Tracks(normalizedMap, order, KeptBy(trancoData[..i], normalize))
    {
      assert trancoData[..i + 1] == trancoData[..i] + [trancoData[i]];
      KeptStep(trancoData[..i], trancoData[i], normalize);
      normalizedMap, order := AddRecord(normalizedMap, order, trancoData[i], normalize, KeptBy(trancoData[..i], normalize));
    }
    assert trancoData[..|trancoData|] == trancoData;
  }

  /** The entry a record contributes: none when its domain is falsy. */
  function EntriesOf(item: Item, normalize: string -> string): seq<Entry> {
    if Present(item) then [Entry(normalize(item.domain.value), MemberOf(item))] else []
  }

  /**
   * The body of the first loop for one record: skip a falsy domain, else
   * `set` an empty list for a new name and `push` the record's fields.
   */
  method AddRecord(m: map<string, seq<Member>>, order: seq<string>, item: Item, normalize: string -> string, ghost es: seq<Entry>)
    returns (m': map<string, seq<Member>>, order': seq<string>)
    requires Tracks(m, order, es)
    ensures Tracks(m', order', es + EntriesOf(item, normalize))
  {
    m', order' := m, order;
    if !Present(item) {
      assert es + [] == es;
      return;
    }
    var normalized := normalize(item.domain.value);
    TracksAppend(m, order, es, Entry(normalized, MemberOf(item)));
    if normalized !in m' {
      m' := m'[normalized := []];
      order' := order' + [normalized];
    }
    m' := m'[normalized := m'[normalized] + [MemberOf(item)]];
  }

  /** The Map and its insertion order hold exactly the groups of the entries seen so far. */
  ghost predicate Tracks(m: map<string, seq<Member>>, order: seq<string>, es: seq<Entry>) {
    && order == KeyOrder(es)
    && (forall k :: k in m <==> k in order)
    && (forall k :: k in m ==> m[k] == Group(es, k))
  }

  /** One `set`-if-absent and `push` keeps the Map in step with the entries. */
  lemma TracksAppend(m: map<string, seq<Member>>, order: seq<string>, es: seq<Entry>, e: Entry)
    requires Tracks(m, order, es)
    ensures e.key !in m ==> Tracks(m[e.key := [e.member]], order + [e.key], es + [e])
    ensures e.key in m ==> Tracks(m[e.key := m[e.key] + [e.member]], order, es + [e])
  {
    if e.key !in m {
      TracksAppendNew(m, order, es, e);
    } else {
      TracksAppendOld(m, order, es, e);
    }
  }

  /** A record under a name not yet in the Map starts a new group at the end of the key order. */
  lemma TracksAppendNew(m: map<string, seq<Member>>, order: seq<string>, es: seq<Entry>, e: Entry)
    requires Tracks(m, order, es) && e.key !in m
    ensures Tracks(m[e.key := [e.member]], order + [e.key], es + [e])
  {
    GroupAppend(es, e);
    GroupEmptyIffAbsent(es, e.key);
    var m' := m[e.key := [e.member]];
    forall k | k in m'
      ensures m'[k] == Group(es + [e], k)
    {
      if k != e.key {
        assert m'[k] == m[k];
      }
    }
  }

  /** A record under a name already in the Map joins the end of its group. */
  lemma TracksAppendOld(m: map<string, seq<Member>>, order: seq<string>, es: seq<Entry>, e: Entry)
    requires Tracks(m, order, es) && e.key in m
    ensures Tracks(m[e.key := m[e.key] + [e.member]], order, es + [e])
  {
    GroupAppend(es, e);
    var m' := m[e.key := m[e.key] + [e.member]];
    forall k | k in m'
      ensures m'[k] == Group(es + [e], k)
    {
      if k != e.key {
        assert m'[k] == m[k];
      }
    }
  }

  /**
   * `checkDuplicates()` after the file has been read: the grouping loop, the
   * pass over the Map's entries keeping groups of more than one, the sort,
   * and the counts written out.
   */
  method CheckDuplicates(trancoData: seq<Item>) returns (output: Report)
    ensures output == DuplicateReport(trancoData)
  {
    var normalizedMap, order := GroupByName(trancoData, NormalizeWebsite);
    var duplicates := KeepShared(normalizedMap, order, Kept(trancoData));
    duplicates := SortByName(duplicates);
    MapSize(normalizedMap, order, Kept(trancoData));
    output := Report(|trancoData|, |normalizedMap|, |duplicates|, duplicates);
  }

  /**
   * The second loop of `checkDuplicates()`: over the Map's entries in
   * insertion order, push each name whose list has more than one record.
   */
  method KeepShared(normalizedMap: map<string, seq<Member>>, order: seq<string>, ghost es: seq<Entry>)
    returns (duplicates: seq<Cluster>)
    requires Tracks(normalizedMap, order, es)
    ensures duplicates == Multi(KeyOrder(es), es)
  {
    duplicates := [];
    for j := 0 to |order|
      invariant duplicates == Multi(order[..j], es)
    {
      assert order[..j + 1][..j] == order[..j];
      var normalized := order[j];
      var domains := normalizedMap[normalized];
      if |domains| > 1 {
        duplicates := duplicates + [Cluster(normalized, domains)];
      }
    }
    assert order[..|order|] == order;
  }

  /** `normalizedMap.size` is the number of distinct names. */
  lemma MapSize(m: map<string, seq<Member>>, order: seq<string>, es: seq<Entry>)
    requires Tracks(m, order, es)
    ensures |m| == |KeyOrder(es)|
  {
    KeyOrderDistinct(es);
    DistinctCard(order);
    assert m.Keys == set k | k in order;
  }

  // ---------------------------------------------------------------------
  // Properties of the clustering

  predicate Distinct(s: seq<string>) {
    forall i, j :: 0 <= i < j < |s| ==> s[i] != s[j]
  }

  /** Appending an entry adds it to its own group and to no other. */
  lemma GroupAppend(es: seq<Entry>, e: Entry)
    ensures forall k :: Group(es + [e], k) == Group(es, k) + (if e.key == k then [e.member] else [])
    ensures KeyOrder(es + [e]) == if e.key in KeyOrder(es) then KeyOrder(es) else KeyOrder(es) + [e.key]
  {
    assert (es + [e])[..|es|] == es;
  }

  /** A name is among the Map's keys exactly when its group is not empty. */
  lemma {:induction false} GroupEmptyIffAbsent(es: seq<Entry>, k: string)
    ensures k in KeyOrder(es) <==> Group(es, k) != []
  {
    if es != [] {
      GroupEmptyIffAbsent(es[..|es| - 1], k);
    }
  }

  /** The Map's keys are distinct. */
  lemma {:induction false} KeyOrderDistinct(es: seq<Entry>)
    ensures Distinct(KeyOrder(es))
  {
    if es != [] {
      KeyOrderDistinct(es[..|es| - 1]);
    }
  }

  /** A sequence without repeats has as many elements as its set. */
  lemma {:induction false} DistinctCard(s: seq<string>)
    requires Distinct(s)
    ensures |set x | x in s| == |s|
  {
    if s != [] {
      var init := s[..|s| - 1];
      DistinctCard(init);
      assert (set x | x in s) == (set x | x in init) + {s[|s| - 1]};
      assert s[|s| - 1] !in init;
    }
  }

  /** An entry is kept exactly when some present record produced it, under the name `normalize` gives its domain. */
  lemma {:induction false} KeptEntries(items: seq<Item>, normalize: string -> string, e: Entry)
    ensures e in KeptBy(items, normalize) <==>
      exists i :: 0 <= i < |items| && Present(items[i]) && e == Entry(normalize(items[i].domain.value), MemberOf(items[i]))
  {
    if items != [] {
      var init := items[..|items| - 1];
      KeptEntries(init, normalize, e);
      if exists i :: 0 <= i < |items| && Present(items[i]) && e == Entry(normalize(items[i].domain.value), MemberOf(items[i])) {
        var i :| 0 <= i < |items| && Present(items[i]) && e == Entry(normalize(items[i].domain.value), MemberOf(items[i]));
        if i < |items| - 1 {
          assert init[i] == items[i];
        }
      }
    }
  }

  /** The group of k holds exactly the entries kept under k. */
  lemma {:induction false} GroupEntries(es: seq<Entry>, k: string, m: Member)
    ensures m in Group(es, k) <==> Entry(k, m) in es
  {
    if es != [] {
      GroupEntries(es[..|es| - 1], k, m);
      assert es == es[..|es| - 1] + [es[|es| - 1]];
    }
  }

  /**
   * An entry is in the group of k exactly when a present record with
   * canonical name k produced it: no record is lost, none is put in the
   * wrong group.
   */
  lemma GroupMembers(items: seq<Item>, k: string, m: Member)
    ensures m in Group(Kept(items), k) <==>
      exists i :: 0 <= i < |items| && Present(items[i]) && NormalizeWebsite(items[i].domain.value) == k && MemberOf(items[i]) == m
  {
    GroupEntries(Kept(items), k, m);
    KeptEntries(items, NormalizeWebsite, Entry(k, m));
  }

  function SumSizes(order: seq<string>, es: seq<Entry>): nat {
    if order == [] then 0 else SumSizes(order[..|order| - 1], es) + |Group(es, order[|order| - 1])|
  }

  lemma SumSizesAppend(order: seq<string>, k: string, es: seq<Entry>)
    ensures SumSizes(order + [k], es) == SumSizes(order, es) + |Group(es, k)|
  {
    assert (order + [k])[..|order|] == order;
  }

  /**
   * Appending an entry adds one to the sum over a key list without repeats
   * that holds its name, and nothing otherwise.
   */
  lemma {:induction false} SumSizesStep(order: seq<string>, es: seq<Entry>, e: Entry)
    requires Distinct(order)
    ensures SumSizes(order, es + [e]) == SumSizes(order, es) + (if e.key in order then 1 else 0)
  {
    if order != [] {
      var prefix := order[..|order| - 1];
      var k := order[|order| - 1];
      SumSizesStep(prefix, es, e);
      assert (es + [e])[..|es|] == es;
      assert order == prefix + [k];
      assert k !in prefix;
    }
  }

  /** Every kept record lands in exactly one group: the group sizes add up to the number of kept records. */
  lemma {:induction false} GroupSizesSum(es: seq<Entry>)
    ensures SumSizes(KeyOrder(es), es) == |es|
  {
    if es != [] {
      var init := es[..|es| - 1];
      var last := es[|es| - 1];
      GroupSizesSum(init);
      var order := KeyOrder(init);
      KeyOrderDistinct(init);
      assert init + [last] == es;
      SumSizesStep(order, init, last);
      if last.key !in order {
        GroupEmptyIffAbsent(init, last.key);
        SumSizesAppend(order, last.key, es);
        assert (init + [last])[..|init|] == init;
      }
    }
  }

  /** A cluster is listed exactly when its name is a key whose group has more than one entry, with that group. */
  lemma {:induction false} MultiMembers(order: seq<string>, es: seq<Entry>, c: Cluster)
    ensures c in Multi(order, es) <==> c.normalized in order && |Group(es, c.normalized)| > 1 && c.domains == Group(es, c.normalized)
  {
    if order != [] {
      MultiMembers(order[..|order| - 1], es, c);
      assert order == order[..|order| - 1] + [order[|order| - 1]];
    }
  }

  // ---------------------------------------------------------------------
  // The sort

  predicate LessEq(a: string, b: string) {
    a == b || Less(a, b)
  }

  lemma NotLess(a: string, b: string)
    requires !Less(a, b)
    ensures LessEq(b, a)
  {
    if a != b {
      LessTotal(a, b);
    }
  }

  lemma LessEqNotLess(a: string, b: string, c: string)
    requires LessEq(a, b) && LessEq(b, c)
    ensures !Less(c, a)
  {
    if Less(c, a) {
      if a == b {
        LessAsymmetric(c, a);
      } else if b == c {
        LessAsymmetric(a, b);
      } else {
        LessTransitive(a, b, c);
        LessAsymmetric(a, c);
      }
    }
  }

  lemma {:induction false} InsertPermutes(c: Cluster, sorted: seq<Cluster>)
    ensures multiset(Insert(c, sorted)) == multiset(sorted) + multiset{c}
  {
    if sorted != [] && Less(sorted[0].normalized, c.normalized) {
      InsertPermutes(c, sorted[1..]);
      assert sorted == [sorted[0]] + sorted[1..];
    }
  }

  lemma {:induction false} InsertSorted(c: Cluster, sorted: seq<Cluster>)
    requires SortedByName(sorted)
    ensures SortedByName(Insert(c, sorted))
  {
    if sorted == [] {
    } else if Less(sorted[0].normalized, c.normalized) {
      var rest := Insert(c, sorted[1..]);
      InsertSorted(c, sorted[1..]);
      InsertPermutes(c, sorted[1..]);
      var r := [sorted[0]] + rest;
      forall j | 1 <= j < |r|
        ensures !Less(r[j].normalized, r[0].normalized)
      {
        assert r[j] in multiset(rest);
        if r[j] == c {
          LessAsymmetric(sorted[0].normalized, c.normalized);
        } else {
          assert r[j] in multiset(sorted[1..]);
          var t :| 0 <= t < |sorted[1..]| && sorted[1..][t] == r[j];
          assert sorted[t + 1] == r[j];
        }
      }
    } else {
      var r := [c] + sorted;
      NotLess(sorted[0].normalized, c.normalized);
      forall j | 1 <= j < |r|
        ensures !Less(r[j].normalized, r[0].normalized)
      {
        if j > 1 {
          NotLess(sorted[j - 1].normalized, sorted[0].normalized);
          LessEqNotLess(c.normalized, sorted[0].normalized, sorted[j - 1].normalized);
        } else {
          LessEqNotLess(c.normalized, sorted[0].normalized, sorted[0].normalized);
        }
      }
    }
  }

  /** The sorted list is a permutation of the clusters, ordered by name. */
  lemma SortByNameCorrect(cs: seq<Cluster>)
    ensures multiset(SortByName(cs)) == multiset(cs)
    ensures SortedByName(SortByName(cs))
  {
    SortByNamePermutes(cs);
    SortByNameSorted(cs);
  }

  /** Sorting keeps every cluster, as often as it occurs. */
  lemma {:induction false} SortByNamePermutes(cs: seq<Cluster>)
    ensures multiset(SortByName(cs)) == multiset(cs)
  {
    if cs != [] {
      SortByNamePermutes(cs[1..]);
      InsertPermutes(cs[0], SortByName(cs[1..]));
      assert cs == [cs[0]] + cs[1..];
    }
  }

  /** The sorted list is ordered by name. */
  lemma {:induction false} SortByNameSorted(cs: seq<Cluster>)
    ensures SortedByName(SortByName(cs))
  {
    if cs != [] {
      SortByNameSorted(cs[1..]);
      InsertSorted(cs[0], SortByName(cs[1..]));
    }
  }

  // ---------------------------------------------------------------------
  // The report

  /**
   * The report counts every input record and lists, ordered by name, exactly
   * the canonical names shared by more than one kept record, each with all
   * their entries in input order.
   */
  lemma DuplicateReportCorrect(items: seq<Item>)
    ensures DuplicateReport(items).total == |items|
    ensures DuplicateReport(items).duplicates == |DuplicateReport(items).duplicateList|
    ensures SortedByName(DuplicateReport(items).duplicateList)
    ensures forall c :: c in DuplicateReport(items).duplicateList <==>
      |Group(Kept(items), c.normalized)| > 1 && c.domains == Group(Kept(items), c.normalized)
  {
    var es := Kept(items);
    var order := KeyOrder(es);
    var multi := Multi(order, es);
    SortByNameCorrect(multi);
    forall c
      ensures c in DuplicateReport(items).duplicateList <==>
        |Group(es, c.normalized)| > 1 && c.domains == Group(es, c.normalized)
    {
      assert c in DuplicateReport(items).duplicateList <==> c in multiset(multi);
      MultiMembers(order, es, c);
      GroupEmptyIffAbsent(es, c.normalized);
    }
  }

  /**
   * `unique` is the number of distinct canonical names, and the groups split
   * the kept records: `unique` plus the surplus entries of the groups is the
   * number of kept records.
   */
  lemma UniqueCountsNames(items: seq<Item>)
    ensures DuplicateReport(items).unique == |set k | k in KeyOrder(Kept(items))|
    ensures SumSizes(KeyOrder(Kept(items)), Kept(items)) == |Kept(items)|
  {
    KeyOrderDistinct(Kept(items));
    DistinctCard(KeyOrder(Kept(items)));
    GroupSizesSum(Kept(items));
  }

  // ---------------------------------------------------------------------
  // No repeated names, and the surplus count

  predicate DistinctNames(cs: seq<Cluster>) {
    forall i, j :: 0 <= i < j < |cs| ==> cs[i].normalized != cs[j].normalized
  }

  lemma {:induction false} MultiDistinct(order: seq<string>, es: seq<Entry>)
    requires Distinct(order)
    ensures DistinctNames(Multi(order, es))
    ensures forall c :: c in Multi(order, es) ==> c.normalized in order
  {
    if order != [] {
      var prefix := order[..|order| - 1];
      MultiDistinct(prefix, es);
      assert order[|order| - 1] !in prefix;
    }
  }

  /** A value at two positions of a sequence occurs at least twice in its multiset. */
  lemma TwiceInMultiset<T>(s: seq<T>, i: nat, j: nat)
    requires i < j < |s| && s[i] == s[j]
    ensures multiset(s)[s[i]] >= 2
  {
    assert s == s[..j] + s[j..];
    assert s[i] == s[..j][i];
    assert s[j..][0] == s[j];
    assert s[j] in multiset(s[j..]);
  }

  /** A sequence whose elements differ pairwise holds each value at most once. */
  lemma {:induction false} OnceInMultiset(cs: seq<Cluster>, c: Cluster)
    requires DistinctNames(cs)
    ensures multiset(cs)[c] <= 1
  {
    if cs != [] {
      var init := cs[..|cs| - 1];
      OnceInMultiset(init, c);
      assert cs == init + [cs[|cs| - 1]];
      assert forall i :: 0 <= i < |init| ==> init[i].normalized != cs[|cs| - 1].normalized by {
        forall i | 0 <= i < |init| ensures init[i].normalized != cs[|cs| - 1].normalized {
          assert init[i] == cs[i];
        }
      }
    }
  }

  /**
   * The reported list never repeats a name, so it is strictly ascending by
   * name.
   */
  lemma ReportStrictlySorted(items: seq<Item>)
    ensures DistinctNames(DuplicateReport(items).duplicateList)
    ensures forall i, j :: 0 <= i < j < |DuplicateReport(items).duplicateList| ==>
      Less(DuplicateReport(items).duplicateList[i].normalized, DuplicateReport(items).duplicateList[j].normalized)
  {
    var es := Kept(items);
    var multi := Multi(KeyOrder(es), es);
    var list := DuplicateReport(items).duplicateList;
    KeyOrderDistinct(es);
    MultiDistinct(KeyOrder(es), es);
    SortByNameCorrect(multi);
    DuplicateReportCorrect(items);
    forall i, j | 0 <= i < j < |list|
      ensures list[i].normalized != list[j].normalized
    {
      if list[i].normalized == list[j].normalized {
        assert list[i] in list && list[j] in list;
        assert list[i] == list[j];
        TwiceInMultiset(list, i, j);
        OnceInMultiset(multi, list[i]);
        assert false;
      }
    }
    forall i, j | 0 <= i < j < |list|
      ensures Less(list[i].normalized, list[j].normalized)
    {
      NotLess(list[j].normalized, list[i].normalized);
    }
  }

  /** The entries beyond the first of each cluster, summed: Σ (size - 1). */
  function Surplus(cs: seq<Cluster>): int {
    if cs == [] then 0 else Surplus(cs[..|cs| - 1]) + |cs[|cs| - 1].domains| - 1
  }

  lemma {:induction false} SurplusCons(c: Cluster, cs: seq<Cluster>)
    ensures Surplus([c] + cs) == |c.domains| - 1 + Surplus(cs)
    decreases |cs|
  {
    if cs != [] {
      var init := cs[..|cs| - 1];
      SurplusCons(c, init);
      assert ([c] + cs)[..|cs|] == [c] + init;
    }
  }

  lemma {:induction false} SurplusInsert(c: Cluster, sorted: seq<Cluster>)
    ensures Surplus(Insert(c, sorted)) == Surplus(sorted) + |c.domains| - 1
  {
    if sorted == [] {
      SurplusCons(c, []);
    } else if Less(sorted[0].normalized, c.normalized) {
      SurplusInsert(c, sorted[1..]);
      SurplusCons(sorted[0], Insert(c, sorted[1..]));
      SurplusCons(sorted[0], sorted[1..]);
      assert sorted == [sorted[0]] + sorted[1..];
    } else {
      SurplusCons(c, sorted);
    }
  }

  lemma {:induction false} SurplusSorted(cs: seq<Cluster>)
    ensures Surplus(SortByName(cs)) == Surplus(cs)
  {
    if cs != [] {
      SurplusSorted(cs[1..]);
      SurplusInsert(cs[0], SortByName(cs[1..]));
      SurplusCons(cs[0], cs[1..]);
      assert cs == [cs[0]] + cs[1..];
    }
  }

  /** Over keys with non-empty groups, the reported clusters' surplus is the groups' total size less one per key. */
  lemma {:induction false} SurplusMulti(order: seq<string>, es: seq<Entry>)
    requires forall k :: k in order ==> Group(es, k) != []
    ensures Surplus(Multi(order, es)) == SumSizes(order, es) - |order|
  {
    if order != [] {
      var prefix := order[..|order| - 1];
      var k := order[|order| - 1];
      assert order == prefix + [k];
      assert k in order;
      SurplusMulti(prefix, es);
      var g := Group(es, k);
      assert g != [];
      assert SumSizes(order, es) == SumSizes(prefix, es) + |g|;
      if |g| > 1 {
        var m := Multi(prefix, es) + [Cluster(k, g)];
        assert Multi(order, es) == m;
        assert m[..|m| - 1] == Multi(prefix, es);
        assert Surplus(m) == Surplus(Multi(prefix, es)) + |g| - 1;
      } else {
        assert Multi(order, es) == Multi(prefix, es);
      }
    }
  }

  /**
   * `unique` plus the surplus entries of the reported clusters is the number
   * of records with a truthy domain.
   */
  lemma UniquePlusSurplus(items: seq<Item>)
    ensures DuplicateReport(items).unique + Surplus(DuplicateReport(items).duplicateList) == |Kept(items)|
  {
    var es := Kept(items);
    var order := KeyOrder(es);
    forall k | k in order
      ensures Group(es, k) != []
    {
      GroupEmptyIffAbsent(es, k);
    }
    SurplusMulti(order, es);
    SurplusSorted(Multi(order, es));
    GroupSizesSum(es);
  }

  /** The kept records are those with a truthy domain. */
  lemma {:induction false} KeptCount(items: seq<Item>, normalize: string -> string)
    ensures |KeptBy(items, normalize)| == |set i | 0 <= i < |items| && Present(items[i])|
  {
    if items != [] {
      var n := |items| - 1;
      KeptCount(items[..n], normalize);
      var before := set i | 0 <= i < n && Present(items[..n][i]);
      var after := set i | 0 <= i < |items| && Present(items[i]);
      if Present(items[n]) {
        assert after == before + {n};
      } else {
        assert after == before;
      }
    }
  }

  // ---------------------------------------------------------------------
  // Group contents, read from the front

  /** The member a record contributes to the list for k: none unless its truthy domain normalizes to k. */
  function MatchOf(item: Item, normalize: string -> string, k: string): seq<Member> {
    if Present(item) && normalize(item.domain.value) == k then [MemberOf(item)] else []
  }

  /**
   * The records whose truthy domain normalizes to k, in input order: the
   * group a front-to-back pass builds, defined independently of the map.
   */
  function MembersBy(items: seq<Item>, normalize: string -> string, k: string): seq<Member> {
    if items == [] then [] else MatchOf(items[0], normalize, k) + MembersBy(items[1..], normalize, k)
  }

  lemma {:induction false} MembersByAppend(items: seq<Item>, item: Item, normalize: string -> string, k: string)
    ensures MembersBy(items + [item], normalize, k) == MembersBy(items, normalize, k) + MatchOf(item, normalize, k)
  {
    var all := items + [item];
    if items == [] {
      assert all[1..] == [];
      assert MembersBy(all, normalize, k) == MatchOf(item, normalize, k) + [];
    } else {
      assert all[0] == items[0];
      assert all[1..] == items[1..] + [item];
      MembersByAppend(items[1..], item, normalize, k);
      var head := MatchOf(items[0], normalize, k);
      assert MembersBy(all, normalize, k) == head + (MembersBy(items[1..], normalize, k) + MatchOf(item, normalize, k));
    }
  }

  /** Each group holds exactly the matching records, in the order they come in. */
  lemma {:induction false} GroupInOrder(items: seq<Item>, normalize: string -> string, k: string)
    ensures Group(KeptBy(items, normalize), k) == MembersBy(items, normalize, k)
  {
    if items != [] {
      var init := items[..|items| - 1];
      var last := items[|items| - 1];
      GroupInOrder(init, normalize, k);
      assert items == init + [last];
      KeptStep(init, last, normalize);
      MembersByAppend(init, last, normalize, k);
      var es := KeptBy(init, normalize);
      if Present(last) {
        GroupAppend(es, Entry(normalize(last.domain.value), MemberOf(last)));
      } else {
        assert es + [] == es;
        assert MembersBy(init, normalize, k) + [] == MembersBy(init, normalize, k);
      }
    }
  }
}
