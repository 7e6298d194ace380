/** What the limits guarantee of every archive scan. */
module ArchiveBudgets {
  import opened ArchiveScan

  // ---------------------------------------------------------------- complete means within the limits

  predicate Within(l: Limits, t: Tally) {
    t.complete ==> t.supported && t.entries <= l.maxEntries && t.bytes <= l.maxBytes && t.archives <= l.maxArchives
  }

  predicate Positive(l: Limits) {
    l.maxEntries > 0 && l.maxBytes > 0 && l.maxArchives > 0 && l.maxDepth > 0
  }

  lemma {:induction false} MemberWithin(l: Limits, m: Member, t: Tally, depth: int, policy: int)
    requires Positive(l) && Within(l, t)
    ensures Within(l, ScanMember(l, m, t, depth, policy).0)
    decreases Left(l, depth), 0, 0
  {
    hide Scan, Sum, OverBudget;
    match m {
      case Leaf(_, _, _) =>
      case Nested(input, spooled) =>
        if !(policy >= 0 && depth + 1 >= policy) && depth + 1 < l.maxDepth {
          CompleteMeansWithin(l, input, depth + 1, policy);
        }
    }
  }

  lemma {:induction false} ItemsWithin(l: Limits, zip: bool, items: seq<Item>, endsBadly: bool, t: Tally,
                                       recognized: bool, depth: int, policy: int)
    requires Positive(l) && Within(l, t)
    ensures Within(l, ScanItems(l, zip, items, endsBadly, t, recognized, depth, policy).0)
    decreases Left(l, depth), 2, |items|
  {
    hide Scan, ScanMember, Sum, OverBudget;
    if items != [] {
      var (counted, going) := Counted(l, t, items[0].size);
      if going {
        ItemWithin(l, zip, items[0], counted, depth, policy);
        var (after, ok) := ScanItem(l, zip, items[0], counted, depth, policy);
        if ok {
          ItemsWithin(l, zip, items[1..], endsBadly, after, true, depth, policy);
        }
      }
    }
  }

  lemma {:induction false} ItemWithin(l: Limits, zip: bool, item: Item, t: Tally, depth: int, policy: int)
    requires Positive(l) && Within(l, t)
    ensures Within(l, ScanItem(l, zip, item, t, depth, policy).0)
    decreases Left(l, depth), 1, 0
  {
    hide Scan, ScanMember, Sum, OverBudget;
    if item.kind.Content? {
      MemberWithin(l, item.kind.content, t.(findings := t.findings + item.kind.findings), depth, policy);
    }
  }

  /** A result that claims completeness was supported throughout, and its entries,
      unpacked bytes and archives are within their limits. */
  lemma {:induction false} CompleteMeansWithin(l: Limits, input: Input, depth: int, policy: int)
    requires Positive(l)
    ensures Within(l, Scan(l, input, depth, policy))
    decreases Left(l, depth), 3, 0
  {
    hide ScanItems, ScanStream;
    ItemsWithin(l, true, input.items, false, FRESH, false, depth, policy);
    ItemsWithin(l, false, input.items, input.endsBadly, FRESH, false, depth, policy);
    StreamWithin(l, input);
  }

  lemma StreamWithin(l: Limits, input: Input)
    requires Positive(l)
    ensures Within(l, ScanStream(l, input, FRESH).0)
  {
  }

  // ---------------------------------------------------------------- entries are bounded anyway

  /** What an archive at this depth can contribute. */
  function MostEntries(l: Limits, depth: int): int {
    (if l.maxDepth - depth > 1 then l.maxDepth - depth else 1) * (l.maxEntries + 1)
  }

  /** What archives nested in it can contribute. */
  function MostNested(l: Limits, depth: int): int {
    if depth + 1 < l.maxDepth then MostEntries(l, depth + 1) else 0
  }

  lemma DepthAddsUp(l: Limits, depth: int)
    requires Positive(l)
    ensures 0 <= MostNested(l, depth) && l.maxEntries + 1 + MostNested(l, depth) <= MostEntries(l, depth)
  {
    var m := l.maxEntries + 1;
    if depth + 1 < l.maxDepth {
      var d := l.maxDepth - depth;
      assert d * m == (d - 1) * m + m;
    }
  }

  lemma {:induction false} ItemsAreCounted(l: Limits, zip: bool, items: seq<Item>, endsBadly: bool, t: Tally,
                                           recognized: bool, depth: int, policy: int)
    requires Positive(l) && 0 <= t.entries <= l.maxEntries + MostNested(l, depth)
    ensures 0 <= ScanItems(l, zip, items, endsBadly, t, recognized, depth, policy).0.entries <= l.maxEntries + 1 +
              MostNested(l, depth)
    decreases Left(l, depth), 2, |items|
  {
    hide Scan, ScanMember, Sum, OverBudget, MostNested;
    DepthAddsUp(l, depth);
    if items != [] {
      var (counted, going) := Counted(l, t, items[0].size);
      if going {
        ItemIsCounted(l, zip, items[0], counted, depth, policy);
        var (after, ok) := ScanItem(l, zip, items[0], counted, depth, policy);
        if ok {
          ItemsAreCounted(l, zip, items[1..], endsBadly, after, true, depth, policy);
        }
      }
    }
  }

  lemma {:induction false} ItemIsCounted(l: Limits, zip: bool, item: Item, t: Tally, depth: int, policy: int)
    requires Positive(l)
    ensures var after := ScanItem(l, zip, item, t, depth, policy).0;
            t.entries <= after.entries <= t.entries + MostNested(l, depth)
    decreases Left(l, depth), 1, 0
  {
    hide Scan, ScanMember, Sum, OverBudget, MostNested;
    DepthAddsUp(l, depth);
    if item.kind.Content? {
      MemberIsCounted(l, item.kind.content, t.(findings := t.findings + item.kind.findings), depth, policy);
    }
  }

  lemma {:induction false} MemberIsCounted(l: Limits, m: Member, t: Tally, depth: int, policy: int)
    requires Positive(l)
    ensures var after := ScanMember(l, m, t, depth, policy).0;
            t.entries <= after.entries <= t.entries + MostNested(l, depth)
    decreases Left(l, depth), 0, 0
  {
    hide Scan, Sum, OverBudget, MostEntries;
    DepthAddsUp(l, depth);
    if m.Nested? && !(policy >= 0 && depth + 1 >= policy) && depth + 1 < l.maxDepth {
      EntriesAreBounded(l, m.input, depth + 1, policy);
    }
  }

  /** Whatever is nested in what, no scan counts more entries than the levels left
      times one more than the entry limit. */
  lemma {:induction false} EntriesAreBounded(l: Limits, input: Input, depth: int, policy: int)
    requires Positive(l)
    ensures 0 <= Scan(l, input, depth, policy).entries <= MostEntries(l, depth)
    decreases Left(l, depth), 3, 0
  {
    hide ScanItems, ScanStream, MostEntries, MostNested;
    DepthAddsUp(l, depth);
    ItemsAreCounted(l, true, input.items, false, FRESH, false, depth, policy);
    ItemsAreCounted(l, false, input.items, input.endsBadly, FRESH, false, depth, policy);
    StreamIsOneEntry(l, input);
  }

  lemma StreamIsOneEntry(l: Limits, input: Input)
    ensures 0 <= ScanStream(l, input, FRESH).0.entries <= 1
  {
  }

  // ---------------------------------------------------------------- gaps are reported

  const GAP_RULES :=
    {"archive-unsupported", "archive-size-invalid", "archive-entry-limit", "archive-size-limit",
      "nested-archive-aggregate-limit",
     "archive-count-limit", "archive-depth-limit", "archive-member-limit", "mandatory-control-invalid"}

  /** Leaves report their own gaps by one of these rules. */
  ghost predicate NamedGaps(m: Member)
    decreases m, 0
  {
    match m
    case Leaf(_, gap, _) => gap.Some? ==> gap.value in GAP_RULES
    case Nested(input, _) => forall item :: item in input.items && item.kind.Content? ==> NamedGaps(item.kind.content)
  }

  ghost predicate AllNamed(items: seq<Item>) {
    forall item :: item in items && item.kind.Content? ==> NamedGaps(item.kind.content)
  }

  predicate Explained(t: Tally) {
    t.complete || exists rule :: rule in t.findings && rule in GAP_RULES
  }

  lemma GapExplains(t: Tally, rule: string)
    requires rule in GAP_RULES
    ensures Explained(Gap(t, rule))
  {
    assert rule in Gap(t, rule).findings;
  }

  lemma MoreExplains(t: Tally, more: seq<string>)
    requires Explained(t)
    ensures Explained(t.(findings := t.findings + more))
  {
    if !t.complete {
      var rule :| rule in t.findings && rule in GAP_RULES;
      assert rule in t.findings + more;
    }
  }

  lemma AbsorbExplains(l: Limits, t: Tally, nested: Tally)
    requires Explained(t) && Explained(nested)
    ensures Explained(Absorbed(l, t, nested))
  {
    hide Sum;
    var sum := Tally(t.entries + nested.entries, Sum(l, t.bytes, nested.bytes), t.archives + nested.archives,
                     t.findings + nested.findings, t.supported && nested.supported, t.complete && nested.complete);
    if !t.complete {
      var rule :| rule in t.findings && rule in GAP_RULES;
      assert rule in sum.findings;
    } else if !nested.complete {
      var rule :| rule in nested.findings && rule in GAP_RULES;
      assert rule in sum.findings;
    }
    var first := if sum.entries > l.maxEntries || sum.bytes > l.maxBytes then Gap(sum, "nested-archive-aggregate-limit")
      else sum;
    GapExplains(sum, "nested-archive-aggregate-limit");
    GapExplains(first, "archive-count-limit");
  }

  lemma {:induction false} MemberExplains(l: Limits, m: Member, t: Tally, depth: int, policy: int)
    requires Explained(t) && NamedGaps(m)
    ensures Explained(ScanMember(l, m, t, depth, policy).0)
    decreases Left(l, depth), 0, 0
  {
    hide Scan, Sum, OverBudget, Explained, Absorbed, Gap;
    match m {
      case Leaf(findings, gap, fails) =>
        MoreExplains(t, findings);
        if gap.Some? {
          GapExplains(t.(findings := t.findings + findings), gap.value);
        }
      case Nested(input, spooled) =>
        GapExplains(t, "archive-depth-limit");
        if !(policy >= 0 && depth + 1 >= policy) && depth + 1 < l.maxDepth {
          GapsAreReported(l, input, depth + 1, policy);
          AbsorbExplains(l, t, Scan(l, input, depth + 1, policy));
        }
    }
  }

  lemma CountedExplains(l: Limits, t: Tally, size: int)
    requires Explained(t)
    ensures Explained(Counted(l, t, size).0)
  {
    hide Sum, Gap;
    var one := t.(entries := t.entries + 1);
    var grown := one.(bytes := Sum(l, t.bytes, size));
    GapExplains(one, "archive-size-invalid");
    GapExplains(grown, "archive-entry-limit");
    GapExplains(grown, "archive-size-limit");
  }

  lemma {:induction false} ItemExplains(l: Limits, zip: bool, item: Item, t: Tally, depth: int, policy: int)
    requires Explained(t) && (item.kind.Content? ==> NamedGaps(item.kind.content))
    ensures Explained(ScanItem(l, zip, item, t, depth, policy).0)
    decreases Left(l, depth), 1, 0
  {
    hide Scan, ScanMember, Sum, OverBudget, Explained, NamedGaps;
    match item.kind {
      case Passed(findings) => MoreExplains(t, findings);
      case Broken(findings) => MoreExplains(t, findings);
      case Content(findings, content) =>
        MoreExplains(t, findings);
        MemberExplains(l, content, t.(findings := t.findings + findings), depth, policy);
    }
  }

  lemma {:induction false} ItemsExplain(l: Limits, zip: bool, items: seq<Item>, endsBadly: bool, t: Tally,
                                        recognized: bool, depth: int, policy: int)
    requires Explained(t) && AllNamed(items)
    ensures Explained(ScanItems(l, zip, items, endsBadly, t, recognized, depth, policy).0)
    decreases Left(l, depth), 2, |items|
  {
    hide Scan, ScanMember, ScanItem, Sum, OverBudget, Explained, NamedGaps, Counted;
    if items != [] {
      CountedExplains(l, t, items[0].size);
      var (counted, going) := Counted(l, t, items[0].size);
      if going {
        assert items[0] in items;
        ItemExplains(l, zip, items[0], counted, depth, policy);
        var (after, ok) := ScanItem(l, zip, items[0], counted, depth, policy);
        if ok {
          ItemsExplain(l, zip, items[1..], endsBadly, after, true, depth, policy);
        }
      }
    }
  }

  lemma StreamExplains(l: Limits, input: Input)
    ensures var (t, ok) := ScanStream(l, input, FRESH); ok ==> Explained(t)
  {
    var b := input.body;
    var one := FRESH.(entries := 1);
    GapExplains(one, "mandatory-control-invalid");
    var found := one.(findings := one.findings + b.before);
    GapExplains(found, "mandatory-control-invalid");
    var checked := if b.invalid then Gap(found, "mandatory-control-invalid") else found;
    var sized := checked.(bytes := if b.length > l.maxBytes then l.maxBytes + 1 else b.length);
    MoreExplains(sized, b.after);
    GapExplains(sized.(findings := sized.findings + b.after), "archive-member-limit");
  }

  /** No scan is incomplete in silence: a coverage finding says why. */
  lemma {:induction false} GapsAreReported(l: Limits, input: Input, depth: int, policy: int)
    requires AllNamed(input.items)
    ensures Explained(Scan(l, input, depth, policy))
    decreases Left(l, depth), 3, 0
  {
    hide ScanItems, ScanStream, Explained, NamedGaps, Gap;
    assert Explained(FRESH) by { FreshExplains(); }
    ItemsExplain(l, true, input.items, false, FRESH, false, depth, policy);
    ItemsExplain(l, false, input.items, input.endsBadly, FRESH, false, depth, policy);
    StreamExplains(l, input);
    UnsupportedExplains(FRESH);
    UnsupportedExplains(ScanItems(l, true, input.items, false, FRESH, false, depth, policy).0);
    UnsupportedExplains(ScanItems(l, false, input.items, input.endsBadly, FRESH, false, depth, policy).0);
    UnsupportedExplains(ScanStream(l, input, FRESH).0);
  }

  lemma FreshExplains()
    ensures Explained(FRESH)
  {
  }

  lemma UnsupportedExplains(t: Tally)
    ensures Explained(Unsupported(t))
  {
    GapExplains(t, "archive-unsupported");
  }

  // ---------------------------------------------------------------- 64-bit byte counts

  /** All the bytes that members declare and streams hold, at every level. */
  function TotalItems(items: seq<Item>): nat {
    if items == [] then 0 else TotalItem(items[0]) + TotalItems(items[1..])
  }

  function TotalItem(item: Item): nat {
    (if item.size > 0 then item.size else 0) + if item.kind.Content? then TotalMember(item.kind.content) else 0
  }

  function TotalMember(m: Member): nat {
    match m
    case Leaf(_, _, _) => 0
    case Nested(input, _) => TotalItems(input.items) + input.body.length
  }

  const WORD: int := 0x8000_0000_0000_0000

  /** The same limits, counting bytes without a word size. */
  function Exact(l: Limits): Limits {
    l.(wraps := false)
  }

  lemma SumIsExact(l: Limits, a: int, b: int)
    requires 0 <= a && 0 <= b && a + b < WORD
    ensures Sum(l, a, b) == Sum(Exact(l), a, b) == a + b
  {
  }

  lemma {:induction false} MemberIsExact(l: Limits, m: Member, t: Tally, depth: int, policy: int)
    requires 0 <= t.bytes && t.bytes + TotalMember(m) < WORD && l.maxBytes >= 0
    ensures ScanMember(l, m, t, depth, policy) == ScanMember(Exact(l), m, t, depth, policy)
    ensures 0 <= ScanMember(l, m, t, depth, policy).0.bytes <= t.bytes + TotalMember(m)
    decreases Left(l, depth), 0, 0
  {
    hide Scan, Sum;
    if m.Nested? && !(policy >= 0 && depth + 1 >= policy) && depth + 1 < l.maxDepth {
      BytesAreExact(l, m.input, depth + 1, policy);
      SumIsExact(l, t.bytes, Scan(l, m.input, depth + 1, policy).bytes);
    }
  }

  lemma {:induction false} ItemIsExact(l: Limits, zip: bool, item: Item, t: Tally, depth: int, policy: int)
    requires item.kind.Content? ==> t.bytes + TotalMember(item.kind.content) < WORD
    requires 0 <= t.bytes && l.maxBytes >= 0
    ensures ScanItem(l, zip, item, t, depth, policy) == ScanItem(Exact(l), zip, item, t, depth, policy)
    ensures 0 <= ScanItem(l, zip, item, t, depth, policy).0.bytes <= t.bytes +
              if item.kind.Content? then TotalMember(item.kind.content) else 0
    decreases Left(l, depth), 1, 0
  {
    hide Scan, ScanMember, Sum;
    if item.kind.Content? {
      MemberIsExact(l, item.kind.content, t.(findings := t.findings + item.kind.findings), depth, policy);
    }
  }

  lemma {:induction false} ItemsAreExact(l: Limits, zip: bool, items: seq<Item>, endsBadly: bool, t: Tally,
                                         recognized: bool, depth: int, policy: int)
    requires 0 <= t.bytes && t.bytes + TotalItems(items) < WORD && l.maxBytes >= 0
    ensures ScanItems(l, zip, items, endsBadly, t, recognized, depth, policy) ==
              ScanItems(Exact(l), zip, items, endsBadly, t, recognized, depth, policy)
    ensures 0 <= ScanItems(l, zip, items, endsBadly, t, recognized, depth, policy).0.bytes <= t.bytes +
              TotalItems(items)
    decreases Left(l, depth), 2, |items|
  {
    hide Scan, ScanMember, ScanItem, Sum, OverBudget;
    if items != [] {
      if items[0].size >= 0 {
        SumIsExact(l, t.bytes, items[0].size);
      }
      var (counted, going) := Counted(l, t, items[0].size);
      if going {
        ItemIsExact(l, zip, items[0], counted, depth, policy);
        var (after, ok) := ScanItem(l, zip, items[0], counted, depth, policy);
        if ok {
          ItemsAreExact(l, zip, items[1..], endsBadly, after, true, depth, policy);
        }
      }
    }
  }

  /** While everything declared adds up to less than 2^63 bytes, the 64-bit counters
      never wrap: the scan is the scan with exact counters, at every level. */
  lemma {:induction false} BytesAreExact(l: Limits, input: Input, depth: int, policy: int)
    requires TotalItems(input.items) + input.body.length < WORD && l.maxBytes >= 0
    ensures Scan(l, input, depth, policy) == Scan(Exact(l), input, depth, policy)
    ensures 0 <= Scan(l, input, depth, policy).bytes <= TotalItems(input.items) + input.body.length
    decreases Left(l, depth), 3, 0
  {
    hide ScanItems, ScanStream;
    ItemsAreExact(l, true, input.items, false, FRESH, false, depth, policy);
    ItemsAreExact(l, false, input.items, input.endsBadly, FRESH, false, depth, policy);
    StreamIsExact(l, input);
  }

  lemma StreamIsExact(l: Limits, input: Input)
    requires l.maxBytes >= 0
    ensures ScanStream(l, input, FRESH) == ScanStream(Exact(l), input, FRESH)
    ensures 0 <= ScanStream(l, input, FRESH).0.bytes <= input.body.length
  {
  }

  // ---------------------------------------------------------------- exactly when the counters agree

  /** The program counts in 64-bit words, and its limit leaves room for one more. */
  predicate Words(l: Limits) {
    l.wraps && 0 <= l.maxBytes < WORD - 1
  }

  /** Counting one member: the counters agree if and only if the sum stays below 2^63. */
  lemma CountedAgreesExactly(l: Limits, t: Tally, size: int)
    requires Words(l) && 0 <= t.bytes < WORD
    ensures Counted(l, t, size) == Counted(Exact(l), t, size) <==> size < 0 || t.bytes + size < WORD
  {
  }

  lemma SumStaysBelow(l: Limits, a: int, b: int)
    requires l.wraps
    ensures Sum(l, a, b) < WORD
  {
  }

  /** 64-bit counters stay below 2^63, whatever is counted. */
  lemma {:induction false} ItemsStayBelow(l: Limits, zip: bool, items: seq<Item>, endsBadly: bool, t: Tally,
                                          recognized: bool, depth: int, policy: int)
    requires Words(l) && t.bytes < WORD
    ensures ScanItems(l, zip, items, endsBadly, t, recognized, depth, policy).0.bytes < WORD
    decreases |items|
  {
    hide Scan, ScanItem, Sum;
    if items != [] {
      SumStaysBelow(l, t.bytes, items[0].size);
      var (counted, going) := Counted(l, t, items[0].size);
      if going {
        ItemStaysBelow(l, zip, items[0], counted, depth, policy);
        var (after, ok) := ScanItem(l, zip, items[0], counted, depth, policy);
        if ok {
          ItemsStayBelow(l, zip, items[1..], endsBadly, after, true, depth, policy);
        }
      }
    }
  }

  lemma ItemStaysBelow(l: Limits, zip: bool, item: Item, t: Tally, depth: int, policy: int)
    requires Words(l) && t.bytes < WORD
    ensures ScanItem(l, zip, item, t, depth, policy).0.bytes < WORD
  {
    hide Scan, Sum;
    if item.kind.Content? && item.kind.content.Nested? {
      SumStaysBelow(l, t.bytes, Scan(l, item.kind.content.input, depth + 1, policy).bytes);
    }
  }

  lemma ScanStaysBelow(l: Limits, input: Input, depth: int, policy: int)
    requires Words(l)
    ensures Scan(l, input, depth, policy).bytes < WORD
  {
    hide ScanItems, Sum;
    ItemsStayBelow(l, true, input.items, false, FRESH, false, depth, policy);
    ItemsStayBelow(l, false, input.items, input.endsBadly, FRESH, false, depth, policy);
  }

  /** Archives and, without a word size, bytes only grow. */
  predicate Grew(l: Limits, t: Tally, u: Tally) {
    t.archives <= u.archives && (!l.wraps ==> t.bytes <= u.bytes)
  }

  lemma {:induction false} ItemsGrow(l: Limits, zip: bool, items: seq<Item>, endsBadly: bool, t: Tally,
                                     recognized: bool, depth: int, policy: int)
    requires l.maxBytes >= 0
    ensures Grew(l, t, ScanItems(l, zip, items, endsBadly, t, recognized, depth, policy).0)
    decreases Left(l, depth), 2, |items|
  {
    hide Scan, ScanItem, OverBudget;
    if items != [] {
      var (counted, going) := Counted(l, t, items[0].size);
      if going {
        ItemGrows(l, zip, items[0], counted, depth, policy);
        var (after, ok) := ScanItem(l, zip, items[0], counted, depth, policy);
        if ok {
          ItemsGrow(l, zip, items[1..], endsBadly, after, true, depth, policy);
        }
      }
    }
  }

  lemma {:induction false} ItemGrows(l: Limits, zip: bool, item: Item, t: Tally, depth: int, policy: int)
    requires l.maxBytes >= 0
    ensures Grew(l, t, ScanItem(l, zip, item, t, depth, policy).0)
    decreases Left(l, depth), 1, 0
  {
    hide Scan, OverBudget;
    if Reaches(l, item, depth, policy) {
      ScanCounts(l, item.kind.content.input, depth + 1, policy);
    }
  }

  lemma {:induction false} ScanCounts(l: Limits, input: Input, depth: int, policy: int)
    requires l.maxBytes >= 0
    ensures Scan(l, input, depth, policy).archives >= 1 && (!l.wraps ==> Scan(l, input, depth, policy).bytes >= 0)
    decreases Left(l, depth), 3, 0
  {
    hide ScanItems;
    ItemsGrow(l, true, input.items, false, FRESH, false, depth, policy);
    ItemsGrow(l, false, input.items, input.endsBadly, FRESH, false, depth, policy);
  }

  /** The member is an archive that is scanned one level deeper. */
  predicate Reaches(l: Limits, item: Item, depth: int, policy: int) {
    && item.kind.Content? && item.kind.content.Nested? && item.kind.content.spooled
    && !(policy >= 0 && depth + 1 >= policy) && depth + 1 < l.maxDepth
  }

  predicate SameScan(l: Limits, input: Input, depth: int, policy: int) {
    Scan(l, input, depth, policy) == Scan(Exact(l), input, depth, policy)
  }

  ghost predicate NestedSame(l: Limits, items: seq<Item>, depth: int, policy: int) {
    forall item :: item in items && Reaches(l, item, depth, policy) ==>
      SameScan(l, item.kind.content.input, depth + 1, policy)
  }

  /** A member whose own archive, if it is one, is scanned alike: counters agree if
      and only if the exact sum stays below 2^63. */
  lemma ItemAgreesExactly(l: Limits, zip: bool, item: Item, t: Tally, depth: int, policy: int)
    requires Words(l) && 0 <= t.bytes < WORD
    requires Reaches(l, item, depth, policy) ==> SameScan(l, item.kind.content.input, depth + 1, policy)
    ensures ScanItem(l, zip, item, t, depth, policy) == ScanItem(Exact(l), zip, item, t, depth, policy) <==>
            ScanItem(Exact(l), zip, item, t, depth, policy).0.bytes < WORD
  {
    hide Scan;
    ItemStaysBelow(l, zip, item, t, depth, policy);
    if Reaches(l, item, depth, policy) {
      ScanCounts(Exact(l), item.kind.content.input, depth + 1, policy);
      assert Left(Exact(l), depth) == Left(l, depth);
    }
  }

  /** A list of members whose archives are scanned alike: result and status agree if
      and only if the exact count of the list stays below 2^63. */
  lemma {:induction false} ItemsAgreeExactly(l: Limits, zip: bool, items: seq<Item>, endsBadly: bool, t: Tally,
                                             recognized: bool, depth: int, policy: int)
    requires Words(l) && 0 <= t.bytes < WORD && NestedSame(l, items, depth, policy)
    ensures ScanItems(l, zip, items, endsBadly, t, recognized, depth, policy) ==
              ScanItems(Exact(l), zip, items, endsBadly, t, recognized, depth, policy) <==>
            ScanItems(Exact(l), zip, items, endsBadly, t, recognized, depth, policy).0.bytes < WORD
    decreases |items|
  {
    hide Scan, ScanItem, OverBudget, SameScan, Sum, Counted;
    ItemsStayBelow(l, zip, items, endsBadly, t, recognized, depth, policy);
    if items != [] {
      var exact := Exact(l);
      CountedAgreesExactly(l, t, items[0].size);
      CountedIs(exact, t, items[0].size);
      var (counted, going) := Counted(exact, t, items[0].size);
      if going {
        ItemAgreesExactly(l, zip, items[0], counted, depth, policy);
        ItemGrows(exact, zip, items[0], counted, depth, policy);
        var (after, ok) := ScanItem(exact, zip, items[0], counted, depth, policy);
        if ok {
          ItemsGrow(exact, zip, items[1..], endsBadly, after, true, depth, policy);
          if after.bytes < WORD {
            ItemsAgreeExactly(l, zip, items[1..], endsBadly, after, true, depth, policy);
          }
        }
      }
    }
  }

  /** What counting without a word size leaves. */
  lemma CountedIs(l: Limits, t: Tally, size: int)
    requires !l.wraps && 0 <= t.bytes
    ensures var (counted, going) := Counted(l, t, size);
            && counted.archives == t.archives && t.bytes <= counted.bytes
            && counted.bytes == (if size < 0 then t.bytes else t.bytes + size)
            && (going ==> size >= 0 && counted.bytes <= l.maxBytes)
  {
  }

  /** An exact count that passes 2^63 without ending the list has taken in another
      archive, and so have the 64-bit counters. */
  lemma {:induction false} PassingTakesAnArchive(l: Limits, zip: bool, items: seq<Item>, endsBadly: bool, t: Tally,
                                                 recognized: bool, depth: int, policy: int)
    requires Words(l) && 0 <= t.bytes < WORD && NestedSame(l, items, depth, policy) && t.archives >= 1
    requires ScanItems(Exact(l), zip, items, endsBadly, t, recognized, depth, policy).0.bytes >= WORD
    requires ScanItems(Exact(l), zip, items, endsBadly, t, recognized, depth, policy).1 != Done(true)
    ensures ScanItems(l, zip, items, endsBadly, t, recognized, depth, policy).0.archives >= 2
    decreases |items|
  {
    hide Scan, ScanItem, OverBudget, SameScan, Sum, Counted;
    var exact := Exact(l);
    CountedAgreesExactly(l, t, items[0].size);
    CountedIs(exact, t, items[0].size);
    var (counted, going) := Counted(exact, t, items[0].size);
    assert going && Counted(l, t, items[0].size) == (counted, true);
    ItemAgreesExactly(l, zip, items[0], counted, depth, policy);
    ItemGrows(l, zip, items[0], counted, depth, policy);
    ItemGrows(exact, zip, items[0], counted, depth, policy);
    var (after, ok) := ScanItem(exact, zip, items[0], counted, depth, policy);
    var (word, fine) := ScanItem(l, zip, items[0], counted, depth, policy);
    ItemsGrow(l, zip, items[1..], endsBadly, word, true, depth, policy);
    if after.bytes < WORD {
      PassingTakesAnArchive(l, zip, items[1..], endsBadly, after, true, depth, policy);
    } else {
      PassingItemIsAnArchive(l, zip, items[0], counted, depth, policy);
    }
  }

  lemma PassingItemIsAnArchive(l: Limits, zip: bool, item: Item, t: Tally, depth: int, policy: int)
    requires Words(l) && 0 <= t.bytes < WORD && t.archives >= 1
    requires ScanItem(Exact(l), zip, item, t, depth, policy).0.bytes >= WORD
    ensures ScanItem(l, zip, item, t, depth, policy).0.archives >= 2
  {
    hide Scan, Sum;
    if Reaches(l, item, depth, policy) {
      ScanCounts(l, item.kind.content.input, depth + 1, policy);
    }
  }

  function Attempt(l: Limits, input: Input, depth: int, policy: int): (Tally, Status) {
    if input.opens then
      var zip := input.format.Zip?;
      ScanItems(l, zip, input.items, !zip && input.endsBadly, FRESH, false, depth, policy)
    else (FRESH, Failed)
  }

  /** No sum that the exact count makes over the members reaches 2^63; or it does not
      matter, since both counts give the members up and read a compressed stream. */
  predicate Harmless(l: Limits, input: Input, depth: int, policy: int) {
    || input.unreadable || input.format.Cpio?
    || Attempt(Exact(l), input, depth, policy).0.bytes < WORD
    || (input.format.Compressed? && Attempt(l, input, depth, policy).1 != Done(true)
         && Attempt(Exact(l), input, depth, policy).1 != Done(true))
  }

  /** An archive whose own archives are scanned alike is scanned alike if and only if
      its sums are harmless. */
  lemma ScanAgreesExactly(l: Limits, input: Input, depth: int, policy: int)
    requires Words(l) && NestedSame(l, input.items, depth, policy)
    ensures SameScan(l, input, depth, policy) <==> Harmless(l, input, depth, policy)
  {
    hide ScanItems, ScanStream, NestedSame;
    ScanStaysBelow(l, input, depth, policy);
    StreamIsExact(l, input);
    StreamIsOneArchive(l, input);
    var zip, endsBadly := input.format.Zip?, !input.format.Zip? && input.endsBadly;
    ItemsAgreeExactly(l, zip, input.items, endsBadly, FRESH, false, depth, policy);
    if input.opens && Attempt(Exact(l), input, depth, policy).0.bytes >= WORD
        && Attempt(Exact(l), input, depth, policy).1 != Done(true) {
      PassingTakesAnArchive(l, zip, input.items, endsBadly, FRESH, false, depth, policy);
    }
  }

  lemma StreamIsOneArchive(l: Limits, input: Input)
    ensures ScanStream(l, input, FRESH).0.archives == 1
  {
  }

  // ---------------------------------------------------------------- at every level

  /** The archive and every archive scanned inside it are scanned alike. */
  ghost predicate AllSame(l: Limits, input: Input, depth: int, policy: int)
    decreases input
  {
    && SameScan(l, input, depth, policy)
    && forall item :: item in input.items && Reaches(l, item, depth, policy) ==>
         AllSame(l, item.kind.content.input, depth + 1, policy)
  }

  /** The sums of the archive and of every archive scanned inside it are harmless. */
  ghost predicate AllHarmless(l: Limits, input: Input, depth: int, policy: int)
    decreases input
  {
    && Harmless(l, input, depth, policy)
    && forall item :: item in input.items && Reaches(l, item, depth, policy) ==>
         AllHarmless(l, item.kind.content.input, depth + 1, policy)
  }

  /** 64-bit counters give the scans of exact counters, at every level, if and only
      if the sums are harmless at every level. */
  lemma {:induction false} CountersAgreeExactly(l: Limits, input: Input, depth: int, policy: int)
    requires Words(l)
    ensures AllSame(l, input, depth, policy) <==> AllHarmless(l, input, depth, policy)
    decreases input
  {
    hide SameScan, Harmless, Words;
    forall item | item in input.items && Reaches(l, item, depth, policy)
      ensures AllSame(l, item.kind.content.input, depth + 1, policy) <==>
                AllHarmless(l, item.kind.content.input, depth + 1, policy)
      ensures AllSame(l, item.kind.content.input, depth + 1, policy) ==>
                SameScan(l, item.kind.content.input, depth + 1, policy)
    {
      CountersAgreeExactly(l, item.kind.content.input, depth + 1, policy);
    }
    if forall item :: item in input.items && Reaches(l, item, depth, policy) ==>
        AllSame(l, item.kind.content.input, depth + 1, policy) {
      ScanAgreesExactly(l, input, depth, policy);
    }
  }

  const HUGE := Input(Zip, false, true, [Item(1, Passed([])), Item(0x7fff_ffff_ffff_ffff, Passed([]))], false,
    Body(true, false, false, 0, [], false, [], false))
  const SMALL := Limits(10, 1000, 10, 3, 10, true)

  /** Two members that are not read, of 1 and 2^63 - 1 declared bytes: the sum wraps
      below zero and the scan is complete; with exact counters it is not. */
  lemma WrappedSizeIsNotSeen()
    ensures Scan(SMALL, HUGE, 0, -1).complete && Scan(SMALL, HUGE, 0, -1).bytes < 0
    ensures !Scan(Exact(SMALL), HUGE, 0, -1).complete
  {
    var items, rest := HUGE.items, HUGE.items[1..];
    assert rest[0] == items[1] && rest[1..] == [];
    var one := Tally(1, 1, 1, [], true, true);
    assert one.(findings := one.findings + []) == one;
    assert Counted(SMALL, FRESH, 1) == (one, true) && ScanItem(SMALL, true, items[0], one, 0, -1) == (one, true);
    assert Counted(Exact(SMALL), FRESH, 1) == (one, true)
      && ScanItem(Exact(SMALL), true, items[0], one, 0, -1) == (one, true);
    var two := Tally(2, -WORD, 1, [], true, true);
    assert two.(findings := two.findings + []) == two;
    assert Counted(SMALL, one, 0x7fff_ffff_ffff_ffff) == (two, true)
      && ScanItem(SMALL, true, items[1], two, 0, -1) == (two, true);
    assert ScanItems(SMALL, true, [], false, two, true, 0, -1) == (two, Done(true));
    assert ScanItems(SMALL, true, rest, false, one, true, 0, -1) == (two, Done(true));
  }
}
