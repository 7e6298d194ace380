/** The recursive archive scan of internal/brief/archives.go 128-200, 333-557 and
    668-775: one result is updated in place while members, and archives in
    members, are read under aggregate limits.

    What the decoders make of the bytes is given: an archive is its format, its
    members in order and how it ends, or the compressed stream it may also be. */
module ArchiveScan {
  import opened Text

  datatype Format = Zip | Tar | Cpio | Compressed | Unknown

  /** `unreadable`: its first block cannot be read.  `opens`: the container or
      decompressor accepts it.  `endsBadly`: reading past the last member fails. */
  datatype Input = Input(format: Format, unreadable: bool, opens: bool, items: seq<Item>, endsBadly: bool, body: Body)

  /** A member and its declared size.  Findings are named by their rule. */
  datatype Item = Item(size: int, kind: Kind)

  /** Passed: links, devices, directories, encrypted members and unsafe names, none
      of which is read.  Broken: opening or reading it fails. */
  datatype Kind = Passed(findings: seq<string>) | Broken(findings: seq<string>)
      | Content(findings: seq<string>, content: Member)

  /** Leaf: text or a binary; `gap` is the rule that makes it incomplete.
      `spooled`: the nested archive has the size its header declares. */
  datatype Member = Leaf(findings: seq<string>, gap: Option<string>, fails: bool) | Nested(input: Input, spooled: bool)

  /** A compressed stream without a container; `unreadableText` is mandatory binary content,
      `invalid` mandatory text that is not valid. */
  datatype Body = Body(fails: bool, inner: bool, unreadableText: bool, length: nat, before: seq<string>, invalid: bool,
                       after: seq<string>, gap: bool)

  /** `wraps`: byte counts are 64-bit integers, as they are in the program. */
  datatype Limits = Limits(maxEntries: int, maxBytes: int, maxArchives: int, maxDepth: int, maxFindings: int,
                           wraps: bool)

  datatype Tally = Tally(entries: int, bytes: int, archives: int, findings: seq<string>, supported: bool,
                         complete: bool)

  datatype Status = Failed | Done(recognized: bool)

  const FRESH := Tally(0, 0, 1, [], true, true)

  function Wrap64(x: int): int {
    (x + 0x8000_0000_0000_0000) % 0x1_0000_0000_0000_0000 - 0x8000_0000_0000_0000
  }

  function Sum(l: Limits, a: int, b: int): int {
    if l.wraps then Wrap64(a + b) else a + b
  }

  // ---------------------------------------------------------------- what a scan computes

  function Gap(t: Tally, rule: string): Tally {
    t.(complete := false, findings := t.findings + [rule])
  }

  function Unsupported(t: Tally): Tally {
    Gap(t, "archive-unsupported").(supported := false)
  }

  predicate OverBudget(l: Limits, t: Tally) {
    |t.findings| > l.maxFindings || t.archives > l.maxArchives
  }

  /** The tally after a member of this size is counted, and whether to go on. */
  function Counted(l: Limits, t: Tally, size: int): (Tally, bool) {
    var one := t.(entries := t.entries + 1);
    if size < 0 then (Gap(one, "archive-size-invalid"), false)
    else
      var grown := one.(bytes := Sum(l, t.bytes, size));
      if grown.entries > l.maxEntries then (Gap(grown, "archive-entry-limit"), false)
      else if grown.bytes > l.maxBytes then (Gap(grown, "archive-size-limit"), false)
      else (grown, true)
  }

  function Left(l: Limits, depth: int): nat {
    if l.maxDepth > depth then l.maxDepth - depth else 0
  }

  /** The outer tally with that of a nested archive added. */
  function Absorbed(l: Limits, t: Tally, nested: Tally): Tally {
    var sum := Tally(t.entries + nested.entries, Sum(l, t.bytes, nested.bytes), t.archives + nested.archives,
                     t.findings + nested.findings, t.supported && nested.supported, t.complete && nested.complete);
    Aggregated(l, sum)
  }

  function Aggregated(l: Limits, sum: Tally): Tally {
    var first := if sum.entries > l.maxEntries || sum.bytes > l.maxBytes then Gap(sum, "nested-archive-aggregate-limit")
      else sum;
    if first.archives > l.maxArchives then Gap(first, "archive-count-limit") else first
  }

  function ScanMember(l: Limits, m: Member, t: Tally, depth: int, policy: int): (Tally, bool)
    decreases Left(l, depth), 0, 0
  {
    match m
    case Leaf(findings, gap, fails) =>
      if fails then (t, false)
      else
        var found := t.(findings := t.findings + findings);
        (if gap.Some? then Gap(found, gap.value) else found, true)
    case Nested(input, spooled) =>
      if policy >= 0 && depth + 1 >= policy then (t, true)
      else if depth + 1 >= l.maxDepth then (Gap(t, "archive-depth-limit"), true)
      else if !spooled then (t, false)
      else
        var sum := Absorbed(l, t, Scan(l, input, depth + 1, policy));
        (sum, !OverBudget(l, sum))
  }

  function ScanItem(l: Limits, zip: bool, item: Item, t: Tally, depth: int, policy: int): (Tally, bool)
    decreases Left(l, depth), 1, 0
  {
    match item.kind
    case Passed(findings) => (t.(findings := t.findings + findings), true)
    case Broken(findings) => (t.(findings := t.findings + findings), false)
    case Content(findings, content) =>
      var found := t.(findings := t.findings + findings);
      if zip && OverBudget(l, found) then (found, false)
      else
        var (after, ok) := ScanMember(l, content, found, depth, policy);
        (after, ok && (zip || !OverBudget(l, after)))
  }

  function ScanItems(l: Limits, zip: bool, items: seq<Item>, endsBadly: bool, t: Tally, recognized: bool, depth: int,
                     policy: int): (Tally, Status)
    decreases Left(l, depth), 2, |items|
  {
    if items == [] then (t, if endsBadly then Failed else Done(recognized))
    else
      var (counted, going) := Counted(l, t, items[0].size);
      if !going then (counted, Done(true))
      else
        var (after, ok) := ScanItem(l, zip, items[0], counted, depth, policy);
        if !ok then (after, Failed) else ScanItems(l, zip, items[1..], endsBadly, after, true, depth, policy)
  }

  function ScanStream(l: Limits, input: Input, t: Tally): (Tally, bool) {
    if !input.opens then (t, false)
    else
      var b := input.body;
      var one := t.(entries := t.entries + 1);
      if b.fails then (one, false)
      else if b.inner then (one.(complete := false), false)
      else if b.unreadableText then (Gap(one, "mandatory-control-invalid"), true)
      else
        var found := one.(findings := one.findings + b.before);
        var checked := if b.invalid then Gap(found, "mandatory-control-invalid") else found;
        var sized := checked.(bytes := if b.length > l.maxBytes then l.maxBytes + 1 else b.length);
        if sized.bytes > l.maxBytes then (sized.(complete := false), false)
        else
          var all := sized.(findings := sized.findings + b.after);
          (if b.gap then Gap(all, "archive-member-limit") else all, true)
  }

  function Scan(l: Limits, input: Input, depth: int, policy: int): Tally
    decreases Left(l, depth), 3, 0
  {
    if input.unreadable || input.format.Cpio? then Unsupported(FRESH)
    else if input.format.Zip? then
      if !input.opens then Unsupported(FRESH) else
        var (t, status) := ScanItems(l, true, input.items, false, FRESH, false, depth, policy);
        if status.Failed? then Unsupported(t) else t
    else
      var (t, status) := if input.opens then
        ScanItems(l, false, input.items, input.endsBadly, FRESH, false, depth, policy) else (FRESH, Failed);
      if status == Done(true) then t
      else if input.format.Compressed? then
        // The stream is read again from the start, into a fresh result.
        var (s, ok) := ScanStream(l, input, FRESH);
        if ok then s else Unsupported(s)
      else Unsupported(t)
  }

  // ---------------------------------------------------------------- the program

  class ArchiveResult {
    var entries: int
    var bytes: int
    var archives: int
    var findings: seq<string>
    var supported: bool
    var complete: bool

    function Now(): Tally
      reads this
    {
      Tally(entries, bytes, archives, findings, supported, complete)
    }

    constructor ()
      ensures Now() == FRESH
    {
      entries, bytes, archives, findings, supported, complete := 0, 0, 1, [], true, true;
    }

    method AddGap(rule: string)
      modifies this
      ensures Now() == Gap(old(Now()), rule)
    {
      complete := false;
      findings := findings + [rule];
    }

    method MarkUnsupported()
      modifies this
      ensures Now() == Unsupported(old(Now()))
    {
      supported := false;
      AddGap("archive-unsupported");
    }

    method CheckLimits(l: Limits, size: int) returns (going: bool)
      modifies this
      ensures (Now(), going) == Counted(l, old(Now()), size)
    {
      entries := entries + 1;
      if size < 0 {
        AddGap("archive-size-invalid");
        return false;
      }
      bytes := Sum(l, bytes, size);
      if entries > l.maxEntries {
        AddGap("archive-entry-limit");
        return false;
      }
      if bytes > l.maxBytes {
        AddGap("archive-size-limit");
        return false;
      }
      return true;
    }

    method Absorb(l: Limits, nested: Tally)
      modifies this
      ensures Now() == Absorbed(l, old(Now()), nested)
    {
      hide Sum, Aggregated;
      entries := entries + nested.entries;
      bytes := Sum(l, bytes, nested.bytes);
      archives := archives + nested.archives;
      findings := findings + nested.findings;
      supported := supported && nested.supported;
      complete := complete && nested.complete;
      CheckAggregate(l);
    }

    method CheckAggregate(l: Limits)
      modifies this
      ensures Now() == Aggregated(l, old(Now()))
    {
      if entries > l.maxEntries || bytes > l.maxBytes {
        AddGap("nested-archive-aggregate-limit");
      }
      if archives > l.maxArchives {
        AddGap("archive-count-limit");
      }
    }

    method ReadMember(l: Limits, m: Member, depth: int, policy: int) returns (ok: bool)
      modifies this
      ensures (Now(), ok) == ScanMember(l, m, old(Now()), depth, policy)
      decreases Left(l, depth), 0, 0
    {
      match m {
        case Leaf(found, gap, fails) =>
          if fails {
            return false;
          }
          findings := findings + found;
          if gap.Some? {
            AddGap(gap.value);
          }
          return true;
        case Nested(input, spooled) =>
          if policy >= 0 && depth + 1 >= policy {
            return true;
          }
          if depth + 1 >= l.maxDepth {
            AddGap("archive-depth-limit");
            return true;
          }
          if !spooled {
            return false;
          }
          var nested := ScanArchive(l, input, depth + 1, policy);
          Absorb(l, nested.Now());
          return !OverBudget(l, Now());
      }
    }

    /** The loop over the members, of a zip or a tar archive. */
    method ReadItems(l: Limits, zip: bool, items: seq<Item>, endsBadly: bool, depth: int, policy: int)
      returns (status: Status)
      modifies this
      ensures (Now(), status) == ScanItems(l, zip, items, endsBadly, old(Now()), false, depth, policy)
      decreases Left(l, depth), 1
    {
      hide Counted, ScanItem, ScanItems;
      var recognized := false;
      assert items[0..] == items;
      for i := 0 to |items|
        invariant ScanItems(l, zip, items[i..], endsBadly, Now(), recognized, depth, policy)
               == ScanItems(l, zip, items, endsBadly, old(Now()), false, depth, policy)
      {
        ItemsStep(l, zip, items, i, endsBadly, Now(), recognized, depth, policy);
        recognized := true;
        var going := CheckLimits(l, items[i].size);
        if !going {
          return Done(true);
        }
        var ok := ReadItem(l, zip, items[i], depth, policy);
        if !ok {
          return Failed;
        }
      }
      ItemsEnd(l, zip, items[|items|..], endsBadly, Now(), recognized, depth, policy);
      return if endsBadly then Failed else Done(recognized);
    }

    method ReadItem(l: Limits, zip: bool, item: Item, depth: int, policy: int) returns (ok: bool)
      modifies this
      ensures (Now(), ok) == ScanItem(l, zip, item, old(Now()), depth, policy)
      decreases Left(l, depth), 0, 1
    {
      match item.kind {
        case Passed(found) =>
          findings := findings + found;
          return true;
        case Broken(found) =>
          findings := findings + found;
          return false;
        case Content(found, content) =>
          findings := findings + found;
          if zip && OverBudget(l, Now()) {
            return false;
          }
          ok := ReadMember(l, content, depth, policy);
          if ok && !zip && OverBudget(l, Now()) {
            return false;
          }
      }
    }

    method ReadStream(l: Limits, input: Input) returns (ok: bool)
      modifies this
      ensures (Now(), ok) == ScanStream(l, input, old(Now()))
    {
      if !input.opens {
        return false;
      }
      var b := input.body;
      entries := entries + 1;
      if b.fails {
        return false;
      }
      if b.inner {
        complete := false;
        return false;
      }
      if b.unreadableText {
        AddGap("mandatory-control-invalid");
        return true;
      }
      findings := findings + b.before;
      if b.invalid {
        AddGap("mandatory-control-invalid");
      }
      bytes := if b.length > l.maxBytes then l.maxBytes + 1 else b.length;
      if bytes > l.maxBytes {
        complete := false;
        return false;
      }
      findings := findings + b.after;
      if b.gap {
        AddGap("archive-member-limit");
      }
      return true;
    }
  }

  method ScanArchive(l: Limits, input: Input, depth: int, policy: int) returns (result: ArchiveResult)
    ensures fresh(result) && result.Now() == Scan(l, input, depth, policy)
    decreases Left(l, depth), 2
  {
    hide ScanItems, ScanStream;
    result := new ArchiveResult();
    if input.unreadable || input.format.Cpio? {
      result.MarkUnsupported();
      return;
    }
    if input.format.Zip? {
      if !input.opens {
        result.MarkUnsupported();
        return;
      }
      var status := result.ReadItems(l, true, input.items, false, depth, policy);
      if status.Failed? {
        result.MarkUnsupported();
      }
      return;
    }
    var status := Failed;
    if input.opens {
      status := result.ReadItems(l, false, input.items, input.endsBadly, depth, policy);
    }
    if status == Done(true) {
      return;
    }
    if input.format.Compressed? {
      result := new ArchiveResult();
      var ok := result.ReadStream(l, input);
      if !ok {
        result.MarkUnsupported();
      }
      return;
    }
    result.MarkUnsupported();
  }

  lemma ItemsEnd(l: Limits, zip: bool, items: seq<Item>, endsBadly: bool, t: Tally, recognized: bool, depth: int,
                 policy: int)
    requires items == []
    ensures ScanItems(l, zip, items, endsBadly, t, recognized, depth, policy) ==
              (t, if endsBadly then Failed else Done(recognized))
  {
  }

  lemma ItemsStep(l: Limits, zip: bool, items: seq<Item>, i: nat, endsBadly: bool, t: Tally, recognized: bool,
                  depth: int, policy: int)
    requires i < |items|
    ensures ScanItems(l, zip, items[i..], endsBadly, t, recognized, depth, policy) ==
            var (counted, going) := Counted(l, t, items[i].size);
            if !going then (counted, Done(true))
            else
              var (after, ok) := ScanItem(l, zip, items[i], counted, depth, policy);
              if !ok then (after, Failed) else ScanItems(l, zip, items[i + 1..], endsBadly, after, true, depth, policy)
  {
    hide Counted, ScanItem;
    assert items[i..][1..] == items[i + 1..];
  }
}
