/** The aggregate budget for review text: finalize of internal/brief/scanner.go
    1227-1281 with selectionPriority (1348-1361).

    The library sort is a parameter. */
module SelectionBudget {
  /** `key` is the encoded path; `binary` says that binary metadata was recorded. */
  datatype Record = Record(path: string, key: string, text: string, reason: string, binary: bool)

  datatype Finding = Finding(category: string, file: string)

  function Priority(reason: string): nat {
    match reason
    case "mandatory" => 0
    case "archive-member" => 1
    case "binary-metadata" => 2
    case "executable" => 3
    case _ => 4
  }

  predicate Mandatory(r: Record) {
    r.reason == "mandatory" || r.reason == "archive-member" || r.binary
  }

  /** Sorts indices of records; `less` compares encoded paths. */
  datatype Sorter = Sorter(sort: (seq<Record>, seq<nat>) -> seq<nat>, less: (string, string) -> bool)

  predicate Before(a: Record, b: Record, less: (string, string) -> bool) {
    if Priority(a.reason) != Priority(b.reason) then Priority(a.reason) < Priority(b.reason) else less(a.key, b.key)
  }

  predicate Distinct(s: seq<nat>) {
    forall i, j :: 0 <= i < j < |s| ==> s[i] != s[j]
  }

  predicate Indices(n: nat, s: seq<nat>) {
    Distinct(s) && forall k :: 0 <= k < |s| ==> s[k] < n
  }

  /** The sort rearranges distinct indices so that none comes after one it precedes. */
  ghost predicate Sorts(s: Sorter) {
    forall files: seq<Record>, order: seq<nat> :: Indices(|files|, order) ==>
      var r := s.sort(files, order);
      && Distinct(r) && (forall i: nat :: i in r <==> i in order)
      && forall j, k :: 0 <= j < k < |r| && r[j] < |files| && r[k] < |files| ==>
           !Before(files[r[k]], files[r[j]], s.less)
  }

  // ---------------------------------------------------------------- totals

  function TextBytes(files: seq<Record>): nat {
    if files == [] then 0 else TextBytes(files[..|files| - 1]) + |files[|files| - 1].text|
  }

  function WithText(files: seq<Record>): nat {
    if files == [] then 0 else WithText(files[..|files| - 1]) + if files[|files| - 1].text != "" then 1 else 0
  }

  function Cleared(r: Record): Record {
    r.(text := "")
  }

  lemma BytesGrow(files: seq<Record>, i: nat)
    requires i < |files|
    ensures TextBytes(files[..i + 1]) == TextBytes(files[..i]) + |files[i].text|
  {
    assert files[..i + 1][..i] == files[..i];
  }

  lemma NoIndices(files: seq<Record>)
    ensures Distinct([]) && TextBytes(files[..0]) == 0
  {
  }

  lemma MoreIndices(n: nat, indices: seq<nat>, i: nat)
    requires Indices(n, indices) && i < n && forall k :: 0 <= k < |indices| ==> indices[k] < i
    ensures Indices(n, indices + [i])
  {
  }

  lemma {:induction false} ClearOne(files: seq<Record>, i: nat)
    requires i < |files|
    ensures TextBytes(files[i := Cleared(files[i])]) == TextBytes(files) - |files[i].text|
    ensures WithText(files[i := Cleared(files[i])]) == WithText(files) - if files[i].text != "" then 1 else 0
  {
    var n := |files| - 1;
    var after := files[i := Cleared(files[i])];
    if i < n {
      ClearOne(files[..n], i);
      assert after[..n] == files[..n][i := Cleared(files[i])];
    } else {
      assert after[..n] == files[..n];
    }
  }

  lemma {:induction false} NoText(files: seq<Record>)
    requires forall i :: 0 <= i < |files| ==> files[i].text == ""
    ensures TextBytes(files) == 0 && WithText(files) == 0
  {
    if files != [] {
      NoText(files[..|files| - 1]);
    }
  }

  /** The bytes of the records listed in `order`. */
  function BytesOf(files: seq<Record>, order: seq<nat>): nat
    requires Indices(|files|, order)
  {
    if order == [] then 0 else BytesOf(files, order[..|order| - 1]) + |files[order[|order| - 1]].text|
  }

  lemma {:induction false} SameBytes(a: seq<Record>, b: seq<Record>, order: seq<nat>)
    requires Indices(|a|, order) && Indices(|b|, order)
    requires forall k :: 0 <= k < |order| ==> a[order[k]].text == b[order[k]].text
    ensures BytesOf(a, order) == BytesOf(b, order)
  {
    if order != [] {
      SameBytes(a, b, order[..|order| - 1]);
    }
  }

  lemma LastApart(files: seq<Record>, order: seq<nat>)
    requires Indices(|files|, order) && order != []
    ensures var last, rest := order[|order| - 1], order[..|order| - 1];
            && last < |files| && last !in rest && Indices(|files|, rest)
            && forall k :: 0 <= k < |rest| ==> rest[k] < |files| && rest[k] != last
  {
  }

  /** Listing every record that has text, each once, adds up to all the text. */
  lemma {:induction false} ListedIsAll(files: seq<Record>, order: seq<nat>)
    requires Indices(|files|, order) && forall i :: 0 <= i < |files| && files[i].text != "" ==> i in order
    ensures BytesOf(files, order) == TextBytes(files)
    decreases |order|
  {
    hide TextBytes, WithText, Distinct, Indices;
    if order == [] {
      NoText(files);
    } else {
      var n := |order| - 1;
      var last, rest := order[n], order[..n];
      LastApart(files, order);
      var after := files[last := Cleared(files[last])];
      assert order == rest + [last];
      ClearOne(files, last);
      SameBytes(files, after, rest);
      ListedIsAll(after, rest);
    }
  }

  // ---------------------------------------------------------------- finalize

  class Inventory {
    var files: seq<Record>
    var findings: seq<Finding>
    var complete: bool
    var eligibleFiles: nat
    var eligibleBytes: nat
    var omittedFiles: nat
    var omittedBytes: nat
    var selectedFiles: nat
    var selectedBytes: nat

    constructor (files: seq<Record>, findings: seq<Finding>, complete: bool)
      ensures this.files == files && this.findings == findings && this.complete == complete
      ensures eligibleFiles == eligibleBytes == omittedFiles == omittedBytes == selectedFiles == selectedBytes == 0
    {
      this.files, this.findings, this.complete := files, findings, complete;
      eligibleFiles, eligibleBytes, omittedFiles, omittedBytes, selectedFiles, selectedBytes := 0, 0, 0, 0, 0, 0;
    }

    /** Lists the records that have text to review; without retention there are none. */
    method ListEligible(retain: bool) returns (indices: seq<nat>)
      modifies this`files, this`eligibleFiles, this`eligibleBytes
      ensures Indices(|files|, indices) && |files| == |old(files)|
      ensures retain ==> files == old(files) && forall i :: 0 <= i < |files| ==> (i in indices <==> files[i].text != "")
      ensures !retain ==> indices == [] && forall i :: 0 <= i < |files| ==> files[i] == Cleared(old(files)[i])
      ensures eligibleFiles == old(eligibleFiles) + |indices| && eligibleBytes == old(eligibleBytes) + TextBytes(files)
    {
      hide TextBytes, Distinct;
      indices := [];
      ghost var was := files;
      NoIndices(files);
      for i := 0 to |files|
        invariant |files| == |was| && Indices(|files|, indices) && forall k :: 0 <= k < |indices| ==> indices[k] < i
        invariant retain ==> files == was && forall j :: 0 <= j < i ==> (j in indices <==> files[j].text != "")
        invariant !retain ==> indices == [] && forall j :: 0 <= j < i ==> files[j] == Cleared(was[j])
        invariant !retain ==> forall j :: i <= j < |files| ==> files[j] == was[j]
        invariant eligibleFiles == old(eligibleFiles) + |indices|
        invariant retain ==> eligibleBytes == old(eligibleBytes) + TextBytes(files[..i])
        invariant !retain ==> eligibleBytes == old(eligibleBytes)
      {
        BytesGrow(files, i);
        if files[i].text != "" {
          if !retain {
            files := files[i := Cleared(files[i])];
            continue;
          }
          MoreIndices(|files|, indices, i);
          indices := indices + [i];
          eligibleFiles := eligibleFiles + 1;
          eligibleBytes := eligibleBytes + |files[i].text|;
        }
      }
      assert files[..|files|] == files;
      if !retain {
        NoText(files);
      }
    }

    /** Keeps records in their order while they fit, and clears the others. */
    method SpendBudget(order: seq<nat>, limit: nat) returns (used: nat)
      requires Indices(|files|, order) && forall k :: 0 <= k < |order| ==> files[order[k]].text != ""
      modifies this`files, this`findings, this`complete, this`omittedFiles, this`omittedBytes
      ensures |files| == |old(files)| && used == BytesOf(files, order) <= limit
      ensures Spent(old(files), files, order, limit)
      ensures used + omittedBytes == BytesOf(old(files), order) + old(omittedBytes)
      ensures Kept(files, order) + omittedFiles == |order| + old(omittedFiles)
      ensures complete <==> old(complete) && NoMandatoryOmitted(old(files), files, order)
      ensures forall f :: f in findings <==> f in old(findings) || Reports(f, old(files), files, order)
    {
      hide BytesOf, Kept, Mandatory, Spent, NoMandatoryOmitted, Reports, Omitted;
      used := 0;
      ghost var was := files;
      assert order[..0] == [];
      Nothing(files, limit);
      for k := 0 to |order|
        invariant |files| == |was| && Indices(|files|, order[..k])
        invariant Spent(was, files, order[..k], limit)
        invariant forall j :: k <= j < |order| ==> files[order[j]] == was[order[j]]
        invariant used == BytesOf(files, order[..k]) <= limit
        invariant used + omittedBytes == BytesOf(was, order[..k]) + old(omittedBytes)
        invariant Kept(files, order[..k]) + omittedFiles == k + old(omittedFiles)
        invariant complete <==> old(complete) && NoMandatoryOmitted(was, files, order[..k])
        invariant forall f :: f in findings <==> f in old(findings) || Reports(f, was, files, order[..k])
      {
        var index := order[k];
        var record := files[index];
        ghost var fits := used + |record.text| <= limit;
        OneMore(files, order, k, fits);
        OneMore(was, order, k, true);
        SpentMore(was, files, order, k, limit);
        OmittedMore(was, files, order, k, fits);
        if used + |record.text| <= limit {
          used := used + |record.text|;
          continue;
        }
        files := files[index := Cleared(record)];
        omittedFiles := omittedFiles + 1;
        omittedBytes := omittedBytes + |record.text|;
        if Mandatory(record) {
          complete := false;
          findings := findings + [Finding("coverage", record.path)];
        }
      }
      assert order[..|order|] == order;
    }

    method CountSelected(order: seq<nat>)
      requires Indices(|files|, order)
      modifies this`selectedFiles
      ensures selectedFiles == old(selectedFiles) + Kept(files, order)
    {
      for k := 0 to |order|
        invariant Indices(|files|, order[..k])
        invariant selectedFiles == old(selectedFiles) + Kept(files, order[..k])
      {
        assert order[..k + 1][..k] == order[..k];
        if files[order[k]].text != "" {
          selectedFiles := selectedFiles + 1;
        }
      }
      assert order[..|order|] == order;
    }

    /** Any coverage finding makes the inventory incomplete. */
    method HeedCoverage()
      modifies this`complete
      ensures complete <==> old(complete) && forall f :: f in findings ==> f.category != "coverage"
    {
      for k := 0 to |findings|
        invariant complete <==> old(complete) && forall f :: f in findings[..k] ==> f.category != "coverage"
      {
        assert findings[..k + 1] == findings[..k] + [findings[k]];
        if findings[k].category == "coverage" {
          complete := false;
        }
      }
      assert findings[..|findings|] == findings;
    }

    /** On a fresh inventory: what is eligible is what is selected and what is
        omitted, files and bytes; the selected text is what the records still hold,
        and within the limit; a record lost its text exactly when it did not fit
        beside the text that the records before it in the sort order still hold; and
        the inventory is complete exactly when it was, no mandatory record was
        omitted and no coverage finding was there. */
    method Finalize(sorter: Sorter, retain: bool, limit: nat) returns (ghost order: seq<nat>)
      requires Sorts(sorter)
      requires eligibleFiles == eligibleBytes == omittedFiles == omittedBytes == selectedFiles == selectedBytes == 0
      modifies this
      ensures |files| == |old(files)| && Indices(|files|, order)
      ensures eligibleBytes == selectedBytes + omittedBytes && eligibleFiles == selectedFiles + omittedFiles
      ensures selectedBytes == TextBytes(files) <= limit && selectedFiles == WithText(files)
      ensures retain ==> eligibleBytes == TextBytes(old(files)) && eligibleFiles == |order|
      ensures retain ==> Spent(old(files), files, order, limit)
      ensures retain ==> forall i :: 0 <= i < |files| ==> (i in order <==> old(files)[i].text != "")
      ensures retain ==> forall j, k :: 0 <= j < k < |order| ==>
                !Before(old(files)[order[k]], old(files)[order[j]], sorter.less)
      ensures !retain ==> order == [] && forall i :: 0 <= i < |files| ==> files[i] == Cleared(old(files)[i])
      ensures complete <==>
                && old(complete) && (forall f :: f in old(findings) ==> f.category != "coverage")
                && NoMandatoryOmitted(old(files), files, order)
      ensures forall f :: f in findings <==> f in old(findings) || Reports(f, old(files), files, order)
    {
      hide TextBytes, WithText, BytesOf, Kept, Mandatory, Spent, NoMandatoryOmitted, Reports, Omitted, Before, Indices,
           Sorts;
      var indices := ListEligible(retain);
      var sorted := sorter.sort(files, indices);
      order := sorted;
      SortIs(sorter, files, indices);
      ghost var eligible := files;
      var used := SpendBudget(sorted, limit);
      selectedBytes := used;
      CountSelected(sorted);
      HeedCoverage();
      ListedIsAll(eligible, sorted);
      StillListed(eligible, files, sorted, limit);
      ListedIsAll(files, sorted);
      KeptIsAll(files, sorted);
      if !retain {
        Nothing(files, limit);
        NothingSpent(eligible, files, limit);
        NoOmissions(old(files), files);
        NoOmissions(eligible, files);
      }
      CoverageSaid(eligible, files, sorted, old(findings), findings);
    }
  }

  /** The number of listed records that still have text. */
  function Kept(files: seq<Record>, order: seq<nat>): nat
    requires Indices(|files|, order)
  {
    if order == [] then 0
    else Kept(files, order[..|order| - 1]) + if files[order[|order| - 1]].text != "" then 1 else 0
  }

  /** Listing every record that has text counts them all. */
  lemma {:induction false} KeptIsAll(files: seq<Record>, order: seq<nat>)
    requires Indices(|files|, order) && forall i :: 0 <= i < |files| && files[i].text != "" ==> i in order
    ensures Kept(files, order) == WithText(files)
    decreases |order|
  {
    hide TextBytes, WithText, Distinct, Indices;
    if order == [] {
      NoText(files);
    } else {
      var n := |order| - 1;
      var last, rest := order[n], order[..n];
      LastApart(files, order);
      var after := files[last := Cleared(files[last])];
      assert order == rest + [last];
      ClearOne(files, last);
      SameKept(files, after, rest);
      KeptIsAll(after, rest);
    }
  }

  predicate Omitted(was: seq<Record>, files: seq<Record>, i: nat)
    requires i < |was| && i < |files|
  {
    was[i].text != "" && files[i].text == ""
  }

  /** From `was` to `files`: unlisted records stay, a listed one stays or is
      cleared, and it is cleared exactly when it does not fit beside the text that
      the records before it in the order still have. */
  ghost predicate Spent(was: seq<Record>, files: seq<Record>, order: seq<nat>, limit: nat)
    requires |was| == |files| && Indices(|files|, order)
  {
    && (forall i :: 0 <= i < |files| && i !in order ==> files[i] == was[i])
    && (forall k :: 0 <= k < |order| ==> SpentAt(was, files, order, k, limit))
  }

  ghost predicate SpentAt(was: seq<Record>, files: seq<Record>, order: seq<nat>, k: nat, limit: nat)
    requires |was| == |files| && Indices(|files|, order) && k < |order|
  {
    var i := order[k];
    files[i] == if BytesOf(files, order[..k]) + |was[i].text| <= limit then was[i] else Cleared(was[i])
  }

  predicate NoMandatoryOmitted(was: seq<Record>, files: seq<Record>, order: seq<nat>)
    requires |was| == |files| && Indices(|files|, order)
  {
    forall k :: 0 <= k < |order| ==> !(Omitted(was, files, order[k]) && Mandatory(was[order[k]]))
  }

  predicate Reports(f: Finding, was: seq<Record>, files: seq<Record>, order: seq<nat>)
    requires |was| == |files| && Indices(|files|, order)
  {
    exists k :: 0 <= k < |order| && Omitted(was, files, order[k]) && Mandatory(was[order[k]])
      && f == Finding("coverage", was[order[k]].path)
  }

  // ---------------------------------------------------------------- one record more

  lemma Nothing(files: seq<Record>, limit: nat)
    ensures BytesOf(files, []) == 0 && Kept(files, []) == 0
    ensures Spent(files, files, [], limit) && NoMandatoryOmitted(files, files, [])
              && forall f :: !Reports(f, files, files, [])
  {
  }

  /** The inventory after the k-th record of the order was looked at. */
  function Next(files: seq<Record>, i: nat, fits: bool): (r: seq<Record>)
    requires i < |files|
    ensures |r| == |files|
  {
    if fits then files else files[i := Cleared(files[i])]
  }

  lemma OneMore(files: seq<Record>, order: seq<nat>, k: nat, fits: bool)
    requires Indices(|files|, order) && k < |order|
    ensures var next, i := Next(files, order[k], fits), order[k];
            && Indices(|next|, order[..k + 1]) && Indices(|files|, order[..k])
            && (forall j :: 0 <= j < k ==> next[order[j]] == files[order[j]])
            && BytesOf(next, order[..k + 1]) == BytesOf(files, order[..k]) + (if fits then |files[i].text| else 0)
            && Kept(next, order[..k + 1]) == Kept(files, order[..k]) + (if fits && files[i].text != "" then 1 else 0)
  {
    var next := Next(files, order[k], fits);
    assert order[..k + 1][..k] == order[..k];
    SameBytes(files, next, order[..k]);
    SameKept(files, next, order[..k]);
  }

  lemma {:induction false} SameKept(a: seq<Record>, b: seq<Record>, order: seq<nat>)
    requires Indices(|a|, order) && Indices(|b|, order)
    requires forall k :: 0 <= k < |order| ==> a[order[k]].text == b[order[k]].text
    ensures Kept(a, order) == Kept(b, order)
  {
    if order != [] {
      SameKept(a, b, order[..|order| - 1]);
    }
  }

  lemma Apart(n: nat, order: seq<nat>, k: nat)
    requires Indices(n, order) && k < |order|
    ensures Indices(n, order[..k]) && Indices(n, order[..k + 1]) && order[k] !in order[..k]
    ensures forall j :: 0 <= j < |order| ==> order[j] < n && (j != k ==> order[j] != order[k])
  {
  }

  lemma SpentMore(was: seq<Record>, files: seq<Record>, order: seq<nat>, k: nat, limit: nat)
    requires |was| == |files| && Indices(|files|, order) && k < |order| && Indices(|files|, order[..k])
    requires Spent(was, files, order[..k], limit) && files[order[k]] == was[order[k]]
    ensures var fits := BytesOf(files, order[..k]) + |was[order[k]].text| <= limit;
            var next := Next(files, order[k], fits);
            Indices(|next|, order[..k + 1]) && Spent(was, next, order[..k + 1], limit)
  {
    hide BytesOf, Kept, Indices, Distinct, SpentAt;
    Apart(|files|, order, k);
    var fits := BytesOf(files, order[..k]) + |was[order[k]].text| <= limit;
    var next, some, all := Next(files, order[k], fits), order[..k], order[..k + 1];
    assert all == some + [order[k]];
    forall j | 0 <= j < |all| ensures SpentAt(was, next, all, j, limit) {
      assert all[..j] == some[..j];
      if j == k {
        SpentLast(was, files, all, fits, limit);
      } else {
        assert SpentAt(was, files, some, j, limit);
        SpentStays(was, files, next, some, all, j, limit);
      }
    }
    forall i | 0 <= i < |next| && i !in all ensures next[i] == was[i] {
      assert i !in some;
    }
  }

  lemma SpentStays(was: seq<Record>, files: seq<Record>, next: seq<Record>, some: seq<nat>, all: seq<nat>, j: nat,
                   limit: nat)
    requires |was| == |files| == |next| && Indices(|files|, some) && Indices(|files|, all)
    requires j < |some| && some <= all && forall k :: 0 <= k < |some| ==> next[some[k]] == files[some[k]]
    requires SpentAt(was, files, some, j, limit)
    ensures SpentAt(was, next, all, j, limit)
  {
    hide BytesOf;
    assert all[..j] == some[..j];
    SameBytes(files, next, some[..j]);
  }

  lemma SpentLast(was: seq<Record>, files: seq<Record>, all: seq<nat>, fits: bool, limit: nat)
    requires |was| == |files| && all != [] && Indices(|files|, all)
    requires var k := |all| - 1;
             Indices(|files|, all[..k]) && files[all[k]] == was[all[k]]
               && fits == (BytesOf(files, all[..k]) + |was[all[k]].text| <= limit)
    ensures SpentAt(was, Next(files, all[|all| - 1], fits), all, |all| - 1, limit)
  {
    hide BytesOf;
    var k := |all| - 1;
    Apart(|files|, all, k);
    SameBytes(files, Next(files, all[k], fits), all[..k]);
  }

  lemma OmittedMore(was: seq<Record>, files: seq<Record>, order: seq<nat>, k: nat, fits: bool)
    requires |was| == |files| && Indices(|files|, order) && k < |order| && Indices(|files|, order[..k])
    requires files[order[k]] == was[order[k]] && was[order[k]].text != ""
    ensures var next, r := Next(files, order[k], fits), was[order[k]];
            && Indices(|next|, order[..k + 1])
            && (NoMandatoryOmitted(was, next, order[..k + 1]) <==>
                 NoMandatoryOmitted(was, files, order[..k]) && (fits || !Mandatory(r)))
            && (forall f :: Reports(f, was, next, order[..k + 1]) <==>
                            Reports(f, was, files, order[..k])
                              || (!fits && Mandatory(r) && f == Finding("coverage", r.path)))
  {
    hide Mandatory;
    var next, some, all := Next(files, order[k], fits), order[..k], order[..k + 1];
    assert all == some + [order[k]];
    forall j | 0 <= j < k ensures all[j] == some[j] && (Omitted(was, next, all[j]) <==> Omitted(was, files, some[j])) {
    }
    assert Omitted(was, next, all[k]) <==> !fits;
    forall f ensures Reports(f, was, next, all) <==>
                     Reports(f, was, files, some) || (!fits && Mandatory(was[order[k]])
                       && f == Finding("coverage", was[order[k]].path)) {
      if Reports(f, was, files, some) {
        var j :| 0 <= j < |some| && Omitted(was, files, some[j]) && Mandatory(was[some[j]])
          && f == Finding("coverage", was[some[j]].path);
        assert Omitted(was, next, all[j]) && Mandatory(was[all[j]]);
      }
      if !fits && Mandatory(was[order[k]]) && f == Finding("coverage", was[order[k]].path) {
        assert Omitted(was, next, all[k]) && Mandatory(was[all[k]]);
      }
    }
    if NoMandatoryOmitted(was, next, all) {
      forall j | 0 <= j < |some| ensures !(Omitted(was, files, some[j]) && Mandatory(was[some[j]])) {
        assert !(Omitted(was, next, all[j]) && Mandatory(was[all[j]]));
      }
      assert !(Omitted(was, next, all[k]) && Mandatory(was[all[k]]));
    }
  }

  /** What the sort does for the indices of the records that have text. */
  lemma SortIs(sorter: Sorter, files: seq<Record>, order: seq<nat>)
    requires Sorts(sorter) && Indices(|files|, order) && forall i :: 0 <= i < |files| ==>
               (i in order <==> files[i].text != "")
    ensures var r := sorter.sort(files, order);
            && Indices(|files|, r) && |r| == |order| && (order == [] ==> r == [])
            && (forall i :: 0 <= i < |files| ==> (i in r <==> files[i].text != ""))
            && (forall k :: 0 <= k < |r| ==> r[k] < |files| && files[r[k]].text != "")
            && forall j, k :: 0 <= j < k < |r| ==> !Before(files[r[k]], files[r[j]], sorter.less)
  {
    hide Before;
    var r := sorter.sort(files, order);
    forall k | 0 <= k < |r| ensures r[k] < |files| && files[r[k]].text != "" {
      assert r[k] in order;
    }
    SortedSize(order, r);
  }

  /** Distinct lists of the same elements are equally long. */
  lemma SortedSize(a: seq<nat>, b: seq<nat>)
    requires Distinct(a) && Distinct(b) && forall i: nat :: i in b <==> i in a
    ensures |a| == |b|
  {
    DistinctSize(a);
    DistinctSize(b);
    assert Elements(a) == Elements(b);
  }

  function Elements(s: seq<nat>): set<nat> {
    set i | i in s
  }

  lemma {:induction false} DistinctSize(s: seq<nat>)
    requires Distinct(s)
    ensures |Elements(s)| == |s|
  {
    if s == [] {
      assert Elements(s) == {};
    } else {
      var rest, last := s[..|s| - 1], s[|s| - 1];
      DistinctSize(rest);
      assert s == rest + [last] && last !in rest;
      assert Elements(s) == Elements(rest) + {last};
    }
  }

  lemma NothingSpent(was: seq<Record>, files: seq<Record>, limit: nat)
    requires |was| == |files| && Indices(|files|, []) && Spent(was, files, [], limit)
    ensures files == was
  {
  }

  /** Records that have text afterwards had it before, so they are listed. */
  lemma StillListed(was: seq<Record>, files: seq<Record>, order: seq<nat>, limit: nat)
    requires |was| == |files| && Indices(|files|, order) && Spent(was, files, order, limit)
    requires forall i :: 0 <= i < |was| && was[i].text != "" ==> i in order
    ensures forall i :: 0 <= i < |files| && files[i].text != "" ==> i in order
  {
    hide BytesOf;
  }

  lemma NoOmissions(was: seq<Record>, files: seq<Record>)
    requires |was| == |files|
    ensures NoMandatoryOmitted(was, files, []) && forall f :: !Reports(f, was, files, [])
  {
  }

  lemma CoverageSaid(was: seq<Record>, files: seq<Record>, order: seq<nat>, before: seq<Finding>, after: seq<Finding>)
    requires |was| == |files| && Indices(|files|, order)
    requires forall f :: f in after <==> f in before || Reports(f, was, files, order)
    ensures (forall f :: f in after ==> f.category != "coverage") <==>
            (forall f :: f in before ==> f.category != "coverage") && NoMandatoryOmitted(was, files, order)
  {
    hide Mandatory, Omitted;
    if !NoMandatoryOmitted(was, files, order) {
      var k :| 0 <= k < |order| && Omitted(was, files, order[k]) && Mandatory(was[order[k]]);
      assert Reports(Finding("coverage", was[order[k]].path), was, files, order);
    }
  }
}
