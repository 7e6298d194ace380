/** What the result of an archive scan says about the archive: what a complete result
    adds up to and when a result is complete, and that a stopped scan keeps what it
    found. */
module ArchiveContents {
  import opened Text
  import opened ArchiveScan
  import opened ArchiveBudgets

  // ---------------------------------------------------------------- what one member adds

  /** Archives at the policy depth are left closed on purpose. */
  predicate LeftClosed(depth: int, policy: int) {
    0 <= policy <= depth + 1
  }

  /** What a member that is read whole contributes. */
  function Share(l: Limits, item: Item, depth: int, policy: int): Tally {
    match item.kind
    case Passed(findings) => Tally(1, item.size, 0, findings, true, true)
    case Broken(findings) => Tally(1, item.size, 0, findings, true, true)
    case Content(findings, Leaf(inside, _, _)) => Tally(1, item.size, 0, findings + inside, true, true)
    case Content(findings, Nested(input, _)) =>
      if LeftClosed(depth, policy) then Tally(1, item.size, 0, findings, true, true)
      else
        var n := Scan(l, input, depth + 1, policy);
        Tally(1 + n.entries, item.size + n.bytes, n.archives, findings + n.findings, true, true)
  }

  /** Nothing of the member stays unread but by policy. */
  predicate ReadWhole(l: Limits, item: Item, depth: int, policy: int) {
    && item.size >= 0 && !item.kind.Broken?
    && match item.kind
       case Content(_, Leaf(_, gap, fails)) => gap.None? && !fails
       case Content(_, Nested(input, spooled)) =>
         LeftClosed(depth, policy)
         || (depth + 1 < l.maxDepth && spooled && Scan(l, input, depth + 1, policy).complete)
       case _ => true
  }

  function Plus(a: Tally, b: Tally): Tally {
    Tally(a.entries + b.entries, a.bytes + b.bytes, a.archives + b.archives, a.findings + b.findings,
          a.supported && b.supported, a.complete && b.complete)
  }

  const NOTHING := Tally(0, 0, 0, [], true, true)

  function Shares(l: Limits, items: seq<Item>, depth: int, policy: int): Tally {
    if items == [] then NOTHING else Plus(Share(l, items[0], depth, policy), Shares(l, items[1..], depth, policy))
  }

  predicate Fits(l: Limits, t: Tally) {
    t.entries <= l.maxEntries && t.bytes <= l.maxBytes && t.archives <= l.maxArchives
  }

  /** Where the number of findings is compared with its limit: before a zip member is
      read, after a nested archive and after each member of another archive; `found`
      are the findings before the member. */
  predicate PassesChecks(l: Limits, zip: bool, item: Item, found: nat, depth: int, policy: int) {
    item.kind.Content? ==>
      && (zip ==> found + |item.kind.findings| <= l.maxFindings)
      && (!zip || (item.kind.content.Nested? && !LeftClosed(depth, policy)) ==>
            found + |Share(l, item, depth, policy).findings| <= l.maxFindings)
  }

  predicate FewFindings(l: Limits, zip: bool, items: seq<Item>, found: nat, depth: int, policy: int) {
    items == []
    || (&& PassesChecks(l, zip, items[0], found, depth, policy)
        && FewFindings(l, zip, items[1..], found + |Share(l, items[0], depth, policy).findings|, depth, policy))
  }

  // ---------------------------------------------------------------- counters do not go below zero

  predicate Counts(t: Tally) {
    t.entries >= 0 && t.bytes >= 0 && t.archives >= 1
  }

  lemma {:induction false} MemberCounts(l: Limits, m: Member, t: Tally, depth: int, policy: int)
    requires !l.wraps && l.maxBytes >= 0 && Counts(t)
    ensures Counts(ScanMember(l, m, t, depth, policy).0)
    decreases Left(l, depth), 0, 0
  {
    hide Scan, OverBudget;
    match m {
      case Leaf(_, _, _) =>
      case Nested(input, spooled) =>
        if !(policy >= 0 && depth + 1 >= policy) && depth + 1 < l.maxDepth {
          ScanCounts(l, input, depth + 1, policy);
        }
    }
  }

  lemma {:induction false} ItemsCount(l: Limits, zip: bool, items: seq<Item>, endsBadly: bool, t: Tally,
                                      recognized: bool, depth: int, policy: int)
    requires !l.wraps && l.maxBytes >= 0 && Counts(t)
    ensures Counts(ScanItems(l, zip, items, endsBadly, t, recognized, depth, policy).0)
    decreases Left(l, depth), 2, |items|
  {
    hide ScanMember, OverBudget;
    if items != [] {
      var (counted, going) := Counted(l, t, items[0].size);
      if going {
        var item := items[0];
        if item.kind.Content? {
          MemberCounts(l, item.kind.content, counted.(findings := counted.findings + item.kind.findings), depth,
                       policy);
        }
        var (after, ok) := ScanItem(l, zip, item, counted, depth, policy);
        if ok {
          ItemsCount(l, zip, items[1..], endsBadly, after, true, depth, policy);
        }
      }
    }
  }

  lemma {:induction false} ScanCounts(l: Limits, input: Input, depth: int, policy: int)
    requires !l.wraps && l.maxBytes >= 0
    ensures Counts(Scan(l, input, depth, policy))
    decreases Left(l, depth), 3, 0
  {
    hide ScanItems;
    ItemsCount(l, true, input.items, false, FRESH, false, depth, policy);
    ItemsCount(l, false, input.items, input.endsBadly, FRESH, false, depth, policy);
  }

  // ---------------------------------------------------------------- one member

  /** A member is counted and read without a gap exactly when it can be read whole,
      what it adds fits, and the findings pass the checks: then its share is added. */
  lemma ItemExactly(l: Limits, zip: bool, item: Item, t: Tally, depth: int, policy: int)
    requires Positive(l) && !l.wraps && t.complete && t.supported && Fits(l, t) && Counts(t)
    ensures var (counted, going) := Counted(l, t, item.size);
            var (after, ok) := ScanItem(l, zip, item, counted, depth, policy);
            var sum := Plus(t, Share(l, item, depth, policy));
            && (going && ok && after.complete <==>
                ReadWhole(l, item, depth, policy) && Fits(l, sum)
                && PassesChecks(l, zip, item, |t.findings|, depth, policy))
            && (going && ok && after.complete ==> after == sum)
  {
    hide Scan;
    var (counted, going) := Counted(l, t, item.size);
    match item.kind {
      case Passed(_) =>
      case Broken(_) =>
      case Content(findings, Leaf(_, _, _)) =>
      case Content(findings, Nested(input, spooled)) =>
        if LeftClosed(depth, policy) {
        } else if depth + 1 < l.maxDepth {
          NestedExactly(l, zip, item, t, depth, policy);
        }
    }
  }

  lemma NestedExactly(l: Limits, zip: bool, item: Item, t: Tally, depth: int, policy: int)
    requires Positive(l) && !l.wraps && t.complete && t.supported && Fits(l, t) && Counts(t)
    requires item.kind.Content? && item.kind.content.Nested? && !LeftClosed(depth, policy) && depth + 1 < l.maxDepth
    ensures var (counted, going) := Counted(l, t, item.size);
            var (after, ok) := ScanItem(l, zip, item, counted, depth, policy);
            var sum := Plus(t, Share(l, item, depth, policy));
            && (going && ok && after.complete <==>
                ReadWhole(l, item, depth, policy) && Fits(l, sum)
                && PassesChecks(l, zip, item, |t.findings|, depth, policy))
            && (going && ok && after.complete ==> after == sum)
  {
    hide Scan;
    var n := Scan(l, item.kind.content.input, depth + 1, policy);
    ScanCounts(l, item.kind.content.input, depth + 1, policy);
    CompleteMeansWithin(l, item.kind.content.input, depth + 1, policy);
  }

  // ---------------------------------------------------------------- a whole archive

  predicate AllWhole(l: Limits, items: seq<Item>, depth: int, policy: int) {
    forall i :: 0 <= i < |items| ==> ReadWhole(l, items[i], depth, policy)
  }

  lemma ItemStaysIncomplete(l: Limits, zip: bool, item: Item, t: Tally, depth: int, policy: int)
    requires !t.complete
    ensures !ScanItem(l, zip, item, t, depth, policy).0.complete
  {
    hide Scan, OverBudget, Sum;
    if item.kind.Content? {
      var found := t.(findings := t.findings + item.kind.findings);
      match item.kind.content {
        case Leaf(_, _, _) =>
        case Nested(input, _) =>
          assert !Absorbed(l, found, Scan(l, input, depth + 1, policy)).complete;
      }
    }
  }

  /** An incomplete result stays incomplete. */
  lemma {:induction false} IncompleteStays(l: Limits, zip: bool, items: seq<Item>, endsBadly: bool, t: Tally,
                                           recognized: bool, depth: int, policy: int)
    requires !t.complete
    ensures !ScanItems(l, zip, items, endsBadly, t, recognized, depth, policy).0.complete
    decreases |items|
  {
    hide ScanItem, Sum;
    if items != [] {
      var (counted, going) := Counted(l, t, items[0].size);
      if going {
        ItemStaysIncomplete(l, zip, items[0], counted, depth, policy);
        var (after, ok) := ScanItem(l, zip, items[0], counted, depth, policy);
        if ok {
          IncompleteStays(l, zip, items[1..], endsBadly, after, true, depth, policy);
        }
      }
    }
  }

  lemma {:induction false} SharesCount(l: Limits, items: seq<Item>, depth: int, policy: int)
    requires Positive(l) && !l.wraps && AllWhole(l, items, depth, policy)
    ensures var sum := Shares(l, items, depth, policy);
            sum.entries >= 0 && sum.bytes >= 0 && sum.archives >= 0 && sum.supported && sum.complete
  {
    hide Scan;
    if items != [] {
      var item := items[0];
      assert forall i :: 0 <= i < |items[1..]| ==> items[1..][i] == items[i + 1];
      SharesCount(l, items[1..], depth, policy);
      if item.kind.Content? && item.kind.content.Nested? {
        ScanCounts(l, item.kind.content.input, depth + 1, policy);
      }
      assert ReadWhole(l, item, depth, policy);
    }
  }

  /** The members are all read, and the result is complete, exactly when each can be
      read whole, the totals fit and the findings pass the checks: the result is then
      the sum of what the members add. */
  lemma {:induction false} ItemsExactly(l: Limits, zip: bool, items: seq<Item>, endsBadly: bool, t: Tally,
                                        recognized: bool, depth: int, policy: int)
    requires Positive(l) && !l.wraps && t.complete && t.supported && Fits(l, t) && Counts(t)
    ensures var (after, status) := ScanItems(l, zip, items, endsBadly, t, recognized, depth, policy);
            var sum := Plus(t, Shares(l, items, depth, policy));
            && (status.Done? && after.complete <==>
                AllWhole(l, items, depth, policy) && !endsBadly && Fits(l, sum)
                && FewFindings(l, zip, items, |t.findings|, depth, policy))
            && (status.Done? && after.complete ==> after == sum && status == Done(recognized || items != []))
    decreases |items|
  {
    hide Scan, ScanItem, Counted, Share, ReadWhole, PassesChecks;
    var sum := Plus(t, Shares(l, items, depth, policy));
    if items == [] {
      assert sum == t;
    } else {
      var (counted, going) := Counted(l, t, items[0].size);
      var (after, ok) := ScanItem(l, zip, items[0], counted, depth, policy);
      ItemExactly(l, zip, items[0], t, depth, policy);
      assert forall i :: 0 <= i < |items[1..]| ==> items[1..][i] == items[i + 1];
      var one := Plus(t, Share(l, items[0], depth, policy));
      assert sum == Plus(one, Shares(l, items[1..], depth, policy));
      if AllWhole(l, items, depth, policy) {
        SharesCount(l, items[1..], depth, policy);
      }
      if going && ok && after.complete {
        WholeCounts(l, items[0], t, depth, policy);
        ItemsExactly(l, zip, items[1..], endsBadly, after, true, depth, policy);
      } else {
        NotWhole(l, zip, items, endsBadly, t, recognized, depth, policy);
      }
    }
  }

  lemma WholeCounts(l: Limits, item: Item, t: Tally, depth: int, policy: int)
    requires Positive(l) && !l.wraps && t.complete && t.supported && Counts(t) && ReadWhole(l, item, depth, policy)
    ensures var sum := Plus(t, Share(l, item, depth, policy));
            sum.complete && sum.supported && Counts(sum)
  {
    hide Scan;
    if item.kind.Content? && item.kind.content.Nested? {
      ScanCounts(l, item.kind.content.input, depth + 1, policy);
    }
  }

  lemma NotWhole(l: Limits, zip: bool, items: seq<Item>, endsBadly: bool, t: Tally, recognized: bool, depth: int,
                 policy: int)
    requires items != []
    requires var (counted, going) := Counted(l, t, items[0].size);
             var (after, ok) := ScanItem(l, zip, items[0], counted, depth, policy);
             !(going && ok && after.complete)
    ensures var (after, status) := ScanItems(l, zip, items, endsBadly, t, recognized, depth, policy);
            !(status.Done? && after.complete)
  {
    hide ScanItem, Sum;
    var (counted, going) := Counted(l, t, items[0].size);
    if going {
      var (after, ok) := ScanItem(l, zip, items[0], counted, depth, policy);
      if ok {
        IncompleteStays(l, zip, items[1..], endsBadly, after, true, depth, policy);
      }
    }
  }

  /** The members are all read and account for the result. */
  predicate Accounted(l: Limits, zip: bool, input: Input, depth: int, policy: int) {
    && input.opens && AllWhole(l, input.items, depth, policy)
    && Fits(l, Plus(FRESH, Shares(l, input.items, depth, policy)))
    && FewFindings(l, zip, input.items, 0, depth, policy)
  }

  /** The archive is a container whose members account for the result. */
  predicate Contained(l: Limits, input: Input, depth: int, policy: int) {
    && !input.unreadable && input.format != Cpio && Accounted(l, input.format == Zip, input, depth, policy)
    && (input.format == Zip || (input.items != [] && !input.endsBadly))
  }

  /** A stream without a container is one text or binary of readable length. */
  predicate WholeStream(l: Limits, input: Input) {
    var b := input.body;
    && input.format == Compressed && !input.unreadable && input.opens
    && !b.fails && !b.inner && !b.unreadableText && !b.invalid && !b.gap && b.length <= l.maxBytes
  }

  function StreamTally(input: Input): Tally {
    Tally(1, input.body.length, 1, input.body.before + input.body.after, true, true)
  }

  lemma StreamExactly(l: Limits, input: Input)
    requires input.format == Compressed && !input.unreadable
    ensures var (s, ok) := ScanStream(l, input, FRESH);
            && (ok && s.complete <==> WholeStream(l, input))
            && (ok && s.complete ==> s == StreamTally(input))
  {
    assert FRESH.findings + input.body.before == input.body.before;
  }

  lemma ContainerExactly(l: Limits, zip: bool, input: Input, endsBadly: bool, depth: int, policy: int)
    requires Positive(l) && !l.wraps && input.opens
    ensures var (read, status) := ScanItems(l, zip, input.items, endsBadly, FRESH, false, depth, policy);
            && (status.Done? && read.complete <==> Accounted(l, zip, input, depth, policy) && !endsBadly)
            && (status.Done? && read.complete ==> read == Plus(FRESH, Shares(l, input.items, depth, policy)))
            && (status.Done? ==> status == Done(input.items != []))
  {
    hide ScanItems, Shares, AllWhole, FewFindings, Fits;
    FreshFits(l);
    ItemsExactly(l, zip, input.items, endsBadly, FRESH, false, depth, policy);
    RecognizedExactly(l, zip, input.items, endsBadly, FRESH, false, depth, policy);
  }

  /** A scan is complete exactly when everything is read: the members of a container,
      whose shares add up to the result, or a compressed stream that is none.  (A
      compressed stream whose members end in a failure is read as a stream.) */
  lemma CompleteExactly(l: Limits, input: Input, depth: int, policy: int)
    requires Positive(l) && !l.wraps
    ensures Contained(l, input, depth, policy) ==>
              Scan(l, input, depth, policy) == Plus(FRESH, Shares(l, input.items, depth, policy))
    ensures Scan(l, input, depth, policy).complete && !Contained(l, input, depth, policy) ==>
              WholeStream(l, input) && Scan(l, input, depth, policy) == StreamTally(input)
    ensures WholeStream(l, input) && input.items == [] ==> Scan(l, input, depth, policy).complete
  {
    hide ScanItems, ScanStream, Shares, Accounted, WholeStream, StreamTally;
    NoStream(l, input);
    if input.unreadable || input.format == Cpio {
    } else if input.format == Zip {
      ZipIsComplete(l, input, depth, policy);
    } else if input.opens {
      ContainerExactly(l, false, input, input.endsBadly, depth, policy);
      if input.format == Compressed {
        StreamExactly(l, input);
      }
    } else {
      ClosedIsIncomplete(l, input, depth, policy);
    }
  }

  lemma NoStream(l: Limits, input: Input)
    ensures WholeStream(l, input) ==> input.format == Compressed && !input.unreadable && input.opens
  {
  }

  lemma ZipIsComplete(l: Limits, input: Input, depth: int, policy: int)
    requires Positive(l) && !l.wraps && input.format == Zip && !input.unreadable
    ensures var t := Scan(l, input, depth, policy);
            && (t.complete <==> Accounted(l, true, input, depth, policy))
            && (t.complete ==> t == Plus(FRESH, Shares(l, input.items, depth, policy)))
  {
    hide ScanItems, Shares, AllWhole, FewFindings, Fits;
    if input.opens {
      ContainerExactly(l, true, input, false, depth, policy);
      var (read, status) := ScanItems(l, true, input.items, false, FRESH, false, depth, policy);
      assert Scan(l, input, depth, policy) == if status.Failed? then Unsupported(read) else read;
    }
  }

  lemma ClosedIsIncomplete(l: Limits, input: Input, depth: int, policy: int)
    requires !input.opens
    ensures !Scan(l, input, depth, policy).complete && !Contained(l, input, depth, policy)
  {
    hide ScanItems;
  }

  lemma FreshFits(l: Limits)
    requires Positive(l)
    ensures Fits(l, FRESH) && Counts(FRESH) && |FRESH.findings| == 0
  {
  }

  // ---------------------------------------------------------------- what a stopped scan keeps

  /** The findings a member brings as far as it is read. */
  function Told(l: Limits, zip: bool, item: Item, found: Tally, depth: int, policy: int): seq<string> {
    if !item.kind.Content? then item.kind.findings
    else if zip && (|found.findings| > l.maxFindings || found.archives > l.maxArchives) then item.kind.findings
    else
      item.kind.findings +
      match item.kind.content
      case Leaf(inside, gap, fails) => if fails then [] else inside + if gap.Some? then [gap.value] else []
      case Nested(input, spooled) =>
        if LeftClosed(depth, policy) then []
        else if depth + 1 >= l.maxDepth then ["archive-depth-limit"]
        else if spooled then Scan(l, input, depth + 1, policy).findings
        else []
  }

  /** The tally when the loop has counted member `k`, if it gets there. */
  function At(l: Limits, zip: bool, items: seq<Item>, k: nat, t: Tally, depth: int, policy: int): Option<Tally>
    requires k < |items|
    decreases k
  {
    var (counted, going) := Counted(l, t, items[0].size);
    if !going then None
    else if k == 0 then Some(counted)
    else
      var (after, ok) := ScanItem(l, zip, items[0], counted, depth, policy);
      if ok then At(l, zip, items[1..], k - 1, after, depth, policy) else None
  }

  lemma ItemTells(l: Limits, zip: bool, item: Item, t: Tally, depth: int, policy: int)
    ensures var found := t.(findings := t.findings + item.kind.findings);
            t.findings + Told(l, zip, item, found, depth, policy) <= ScanItem(l, zip, item, t, depth, policy).0.findings
  {
    hide Scan, Sum;
    var found := t.(findings := t.findings + item.kind.findings);
    var told, after := Told(l, zip, item, found, depth, policy), ScanItem(l, zip, item, t, depth, policy).0;
    if item.kind.Content? && !(zip && OverBudget(l, found)) {
      match item.kind.content {
        case Leaf(inside, gap, fails) =>
          var more := if fails then [] else inside + if gap.Some? then [gap.value] else [];
          assert t.findings + told == found.findings + more;
          if !fails && gap.Some? {
            assert found.findings + more == found.findings + inside + [gap.value];
          }
        case Nested(input, spooled) =>
          NestedTells(l, found, input, spooled, depth, policy);
          var more := if LeftClosed(depth, policy) then [] else if depth + 1 >= l.maxDepth then ["archive-depth-limit"]
            else if spooled then Scan(l, input, depth + 1, policy).findings else [];
          assert t.findings + told == found.findings + more;
      }
    } else {
      assert told == item.kind.findings;
    }
  }

  lemma NestedTells(l: Limits, found: Tally, input: Input, spooled: bool, depth: int, policy: int)
    ensures var more := if LeftClosed(depth, policy) then []
                        else if depth + 1 >= l.maxDepth then ["archive-depth-limit"]
                        else if spooled then Scan(l, input, depth + 1, policy).findings else [];
            found.findings + more <= ScanMember(l, Nested(input, spooled), found, depth, policy).0.findings
  {
    hide Scan, Sum;
  }

  lemma {:induction false} FindingsStay(l: Limits, zip: bool, items: seq<Item>, endsBadly: bool, t: Tally,
                                        recognized: bool, depth: int, policy: int)
    ensures t.findings <= ScanItems(l, zip, items, endsBadly, t, recognized, depth, policy).0.findings
    decreases |items|
  {
    hide ScanItem, Sum, Told;
    if items != [] {
      var (counted, going) := Counted(l, t, items[0].size);
      if going {
        ItemTells(l, zip, items[0], counted, depth, policy);
        var (after, ok) := ScanItem(l, zip, items[0], counted, depth, policy);
        if ok {
          FindingsStay(l, zip, items[1..], endsBadly, after, true, depth, policy);
        }
      }
    }
  }

  /** Wherever the scan of a container ends, the findings of every member it got to
      are in the result, behind those of the members before. */
  lemma {:induction false} FindingsAreKept(l: Limits, zip: bool, items: seq<Item>, k: nat, endsBadly: bool, t: Tally,
                                           recognized: bool, depth: int, policy: int)
    requires k < |items| && At(l, zip, items, k, t, depth, policy).Some?
    ensures var c := At(l, zip, items, k, t, depth, policy).value;
            var found := c.(findings := c.findings + items[k].kind.findings);
            c.findings + Told(l, zip, items[k], found, depth, policy) <=
              ScanItems(l, zip, items, endsBadly, t, recognized, depth, policy).0.findings
    decreases k
  {
    hide ScanItem, Counted, Told;
    var (counted, _) := Counted(l, t, items[0].size);
    var (after, ok) := ScanItem(l, zip, items[0], counted, depth, policy);
    if k == 0 {
      ItemTells(l, zip, items[0], counted, depth, policy);
      if ok {
        FindingsStay(l, zip, items[1..], endsBadly, after, true, depth, policy);
      }
    } else {
      FindingsAreKept(l, zip, items[1..], k - 1, endsBadly, after, true, depth, policy);
    }
  }

  /** Neither broken nor of another size than declared. */
  predicate Readable(l: Limits, item: Item, depth: int, policy: int) {
    && !item.kind.Broken?
    && (item.kind.Content? ==>
          match item.kind.content
          case Leaf(_, _, fails) => !fails
          case Nested(_, spooled) => spooled || LeftClosed(depth, policy) || depth + 1 >= l.maxDepth)
  }

  /** A readable member within the limits stops nothing: the next one is counted
      unless its size is invalid or exceeds a limit. */
  lemma {:induction false} ScanGoesOn(l: Limits, zip: bool, items: seq<Item>, k: nat, t: Tally, depth: int, policy: int)
    requires !l.wraps && k + 1 < |items| && At(l, zip, items, k, t, depth, policy).Some?
    ensures var c := At(l, zip, items, k, t, depth, policy).value;
            var after := ScanItem(l, zip, items[k], c, depth, policy).0;
            && Readable(l, items[k], depth, policy)
            && |after.findings| <= l.maxFindings && after.archives <= l.maxArchives && c.archives <= l.maxArchives
            && 0 <= items[k + 1].size <= l.maxBytes - after.bytes && after.entries < l.maxEntries ==>
              At(l, zip, items, k + 1, t, depth, policy) ==
                Some(after.(entries := after.entries + 1, bytes := after.bytes + items[k + 1].size))
    decreases k
  {
    hide Scan, Absorbed, Told;
    var (counted, _) := Counted(l, t, items[0].size);
    var (after, ok) := ScanItem(l, zip, items[0], counted, depth, policy);
    if k == 0 {
      ItemTells(l, zip, items[0], counted, depth, policy);
      assert At(l, zip, items, 1, t, depth, policy) ==
             if ok then At(l, zip, items[1..], 0, after, depth, policy) else None;
    } else {
      ScanGoesOn(l, zip, items[1..], k - 1, after, depth, policy);
    }
  }

  /** The result of a container holds what its members told; if the members end in a
      failure, or there is none to recognize it by, it is unsupported and says so. */
  lemma ResultKeepsMembers(l: Limits, input: Input, depth: int, policy: int)
    requires !input.unreadable && input.opens && input.format in {Zip, Tar, Unknown}
    ensures var zip, t := input.format == Zip, Scan(l, input, depth, policy);
            var (read, status) := ScanItems(l, zip, input.items, !zip && input.endsBadly, FRESH, false, depth, policy);
            && read.findings <= t.findings
            && (status == Failed || (!zip && input.items == []) ==>
                  !t.supported && !t.complete && t.findings == read.findings + ["archive-unsupported"])
            && (status != Failed && (zip || input.items != []) ==> t == read)
  {
    hide ScanItem, Counted;
    var zip := input.format == Zip;
    var (read, status) := ScanItems(l, zip, input.items, !zip && input.endsBadly, FRESH, false, depth, policy);
    assert status.Done? ==> status.recognized == (input.items != []) by {
      RecognizedExactly(l, zip, input.items, !zip && input.endsBadly, FRESH, false, depth, policy);
    }
  }

  lemma {:induction false} RecognizedExactly(l: Limits, zip: bool, items: seq<Item>, endsBadly: bool, t: Tally,
                                             recognized: bool, depth: int, policy: int)
    ensures var status := ScanItems(l, zip, items, endsBadly, t, recognized, depth, policy).1;
            status.Done? ==> status.recognized == (recognized || items != [])
    decreases |items|
  {
    hide ScanItem, Counted;
    if items != [] {
      var (counted, going) := Counted(l, t, items[0].size);
      var (after, ok) := ScanItem(l, zip, items[0], counted, depth, policy);
      if going && ok {
        RecognizedExactly(l, zip, items[1..], endsBadly, after, true, depth, policy);
      }
    }
  }
}
