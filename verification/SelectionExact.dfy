/** What the selection of review text comes to, told with lengths of texts alone
    (internal/brief/scanner.go 1227-1281 and 1348-1361). */
module SelectionExact {
  import opened Text
  import opened SelectionBudget

  const REASONS := ["mandatory", "archive-member", "binary-metadata", "executable"]

  /** How many of the listed reasons come before this one; all do before any other. */
  predicate RankIs(reason: string, n: nat) {
    if n < |REASONS| then REASONS[n] == reason else n == |REASONS| && reason !in REASONS
  }

  /** Records are taken in the order of their reasons in the list, those with another
      reason last, and by encoded path among equals. */
  lemma OrderExactly(a: Record, b: Record, less: (string, string) -> bool, m: nat, n: nat)
    requires RankIs(a.reason, m) && RankIs(b.reason, n)
    ensures Before(a, b, less) <==> m < n || (m == n && less(a.key, b.key))
  {
    RankOf(a.reason, m);
    RankOf(b.reason, n);
  }

  lemma RankOf(reason: string, n: nat)
    requires RankIs(reason, n)
    ensures Priority(reason) == n
  {
    assert REASONS[0] == "mandatory" && REASONS[1] == "archive-member" && REASONS[2] == "binary-metadata"
        && REASONS[3] == "executable";
  }

  function Texts(files: seq<Record>): (texts: seq<string>)
    ensures |texts| == |files| && forall i :: 0 <= i < |files| ==> texts[i] == files[i].text
  {
    seq(|files|, i requires 0 <= i < |files| => files[i].text)
  }

  lemma {:induction false} TextBytesExactly(files: seq<Record>)
    ensures TextBytes(files) == |Concat(Texts(files))|
  {
    if files != [] {
      var some, last := files[..|files| - 1], files[|files| - 1];
      TextBytesExactly(some);
      assert Texts(files) == Texts(some) + [last.text];
      ConcatAppend(Texts(some), [last.text]);
      assert Concat([last.text]) == last.text + Concat([]);
    }
  }

  lemma {:induction false} WithTextExactly(files: seq<Record>)
    ensures WithText(files) == |set i | 0 <= i < |files| && files[i].text != ""|
  {
    var all := set i | 0 <= i < |files| && files[i].text != "";
    if files == [] {
      assert all == {};
    } else {
      var n := |files| - 1;
      var some := files[..n];
      WithTextExactly(some);
      var before := set i | 0 <= i < |some| && some[i].text != "";
      assert all == if files[n].text != "" then before + {n} else before;
    }
  }

  /** The records at these places. */
  function Listed(files: seq<Record>, order: seq<nat>): (listed: seq<Record>)
    requires Indices(|files|, order)
    ensures |listed| == |order| && forall k :: 0 <= k < |order| ==> listed[k] == files[order[k]]
  {
    seq(|order|, k requires 0 <= k < |order| => files[order[k]])
  }

  lemma {:induction false} BytesOfExactly(files: seq<Record>, order: seq<nat>)
    requires Indices(|files|, order)
    ensures BytesOf(files, order) == |Concat(Texts(Listed(files, order)))|
  {
    if order != [] {
      var n := |order| - 1;
      BytesOfExactly(files, order[..n]);
      assert Texts(Listed(files, order)) == Texts(Listed(files, order[..n])) + [files[order[n]].text];
      ConcatAppend(Texts(Listed(files, order[..n])), [files[order[n]].text]);
      assert Concat([files[order[n]].text]) == files[order[n]].text + Concat([]);
    }
  }

  /** A listed record keeps its text exactly when it fits beside all text that the
      records taken before it still have; every other record is as it was. */
  lemma SpentExactly(was: seq<Record>, files: seq<Record>, order: seq<nat>, limit: nat, k: nat)
    requires |was| == |files| && Indices(|files|, order) && Spent(was, files, order, limit) && k < |order|
    ensures Indices(|files|, order[..k])
    ensures var held := |Concat(Texts(Listed(files, order[..k])))|;
            if held + |was[order[k]].text| <= limit then files[order[k]] == was[order[k]]
            else files[order[k]] == was[order[k]].(text := "")
    ensures forall i :: 0 <= i < |files| && i !in order ==> files[i] == was[i]
  {
    hide BytesOf;
    BytesOfExactly(files, order[..k]);
    assert SpentAt(was, files, order, k, limit);
  }

  /** What is omitted would not even fit beside the text selected in the end, so no
      omitted record could be added. */
  lemma NothingMoreFits(was: seq<Record>, files: seq<Record>, order: seq<nat>, limit: nat, i: nat)
    requires |was| == |files| && Indices(|files|, order) && Spent(was, files, order, limit)
    requires forall j :: 0 <= j < |was| && was[j].text != "" ==> j in order
    requires i < |files| && was[i].text != "" && files[i].text == ""
    ensures |Concat(Texts(files))| + |was[i].text| > limit
  {
    hide BytesOf, TextBytes;
    var k: nat :| k < |order| && order[k] == i;
    assert SpentAt(was, files, order, k, limit);
    PrefixBytes(files, order, k);
    StillListed(was, files, order, limit);
    ListedIsAll(files, order);
    TextBytesExactly(files);
  }

  lemma {:induction false} PrefixBytes(files: seq<Record>, order: seq<nat>, k: nat)
    requires Indices(|files|, order) && k <= |order|
    ensures Indices(|files|, order[..k]) && BytesOf(files, order[..k]) <= BytesOf(files, order)
  {
    if k < |order| {
      PrefixBytes(files, order[..|order| - 1], k);
      assert order[..|order| - 1][..k] == order[..k];
    } else {
      assert order[..k] == order;
    }
  }

  /** Whose omission is reported: files of the reasons that come first, and those
      with binary metadata. */
  lemma ReportedExactly(was: seq<Record>, files: seq<Record>, order: seq<nat>, f: Finding)
    requires |was| == |files| && Indices(|files|, order)
    ensures Reports(f, was, files, order) <==>
            exists i :: i in order && was[i].text != "" && files[i].text == ""
                        && (was[i].reason in {"mandatory", "archive-member"} || was[i].binary)
                        && f.category == "coverage" && f.file == was[i].path
    ensures NoMandatoryOmitted(was, files, order) <==>
            forall i :: i in order && was[i].text != "" && files[i].text == "" ==>
              was[i].reason !in {"mandatory", "archive-member"} && !was[i].binary
  {
    if Reports(f, was, files, order) {
      var k :| 0 <= k < |order| && Omitted(was, files, order[k]) && Mandatory(was[order[k]])
               && f == Finding("coverage", was[order[k]].path);
      assert order[k] in order;
    }
    forall k | 0 <= k < |order| ensures order[k] in order {}
  }
}
