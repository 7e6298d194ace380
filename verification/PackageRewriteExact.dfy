/** What the package rewrite leaves, from the members and the strip list alone:
    internal/brief/filter.go 35-237. */
module PackageRewriteExact {
  import opened Text
  import opened MTree
  import opened MTreeFilter
  import opened PackageRewrite

  /** The strip list asks for the name. */
  predicate Stripped(strip: seq<string>, name: string, normalize: string -> string) {
    exists i :: 0 <= i < |strip| && normalize(strip[i]) == name
  }

  /** The member at `i` is a file that stays below the directory. */
  predicate FileBelow(members: seq<Member>, strip: seq<string>, directory: string, normalize: string -> string, i: nat)
    requires i < |members|
  {
    && !members[i].header.kind.Directory?
    && !Stripped(strip, normalize(members[i].header.name), normalize)
    && directory + "/" <= normalize(members[i].header.name)
  }

  predicate DirectoryAt(members: seq<Member>, name: string, normalize: string -> string, i: nat)
    requires i < |members|
  {
    members[i].header.kind.Directory? && normalize(members[i].header.name) == name
  }

  /** A directory member has the name, and no file is left below it. */
  predicate Emptied(members: seq<Member>, strip: seq<string>, name: string, normalize: string -> string) {
    && (exists i :: 0 <= i < |members| && DirectoryAt(members, name, normalize, i))
    && forall i :: 0 <= i < |members| ==> !FileBelow(members, strip, name, normalize, i)
  }

  predicate Goes(members: seq<Member>, strip: seq<string>, name: string, normalize: string -> string) {
    Stripped(strip, name, normalize) || Emptied(members, strip, name, normalize)
  }

  lemma StrippedExactly(strip: seq<string>, name: string, normalize: string -> string)
    ensures name in Normalized(strip, normalize) <==> Stripped(strip, name, normalize)
  {
  }

  lemma OccupiedExactly(members: seq<Member>, strip: seq<string>, directory: string, normalize: string -> string)
    ensures Occupied(directory, FilesLeft(HeadersOf(members), Normalized(strip, normalize), normalize)) <==>
            exists i :: 0 <= i < |members| && FileBelow(members, strip, directory, normalize, i)
  {
    hide Stripped, Normalized, HasPrefix;
    var headers := HeadersOf(members);
    var files := FilesLeft(headers, Normalized(strip, normalize), normalize);
    if Occupied(directory, files) {
      var file :| file in files && Beneath(file, directory);
      HasPrefixMeansPrefix(file, directory + "/");
      StrippedExactly(strip, file, normalize);
      var i :| 0 <= i < |headers| && !headers[i].kind.Directory? && normalize(headers[i].name) == file;
      assert FileBelow(members, strip, directory, normalize, i);
    }
    if i :| 0 <= i < |members| && FileBelow(members, strip, directory, normalize, i) {
      var file := normalize(headers[i].name);
      StrippedExactly(strip, file, normalize);
      HasPrefixMeansPrefix(file, directory + "/");
      assert file in files && Beneath(file, directory);
    }
  }

  lemma EmptiedExactly(members: seq<Member>, strip: seq<string>, name: string, normalize: string -> string)
    ensures name in EmptyDirectories(HeadersOf(members), Normalized(strip, normalize), normalize) <==>
            Emptied(members, strip, name, normalize)
  {
    hide Normalized, FileBelow, FilesLeft, Occupied;
    OccupiedExactly(members, strip, name, normalize);
    DirectoryExactly(members, name, normalize);
  }

  lemma DirectoryExactly(members: seq<Member>, name: string, normalize: string -> string)
    ensures name in DirectoriesOf(HeadersOf(members), normalize) <==>
            exists i :: 0 <= i < |members| && DirectoryAt(members, name, normalize, i)
  {
    var headers := HeadersOf(members);
    if name in DirectoriesOf(headers, normalize) {
      var i :| 0 <= i < |headers| && headers[i].kind.Directory? && normalize(headers[i].name) == name;
      assert DirectoryAt(members, name, normalize, i);
    }
    if i :| 0 <= i < |members| && DirectoryAt(members, name, normalize, i) {
      assert headers[i].kind.Directory? && normalize(headers[i].name) == name;
    }
  }

  lemma DroppedExactly(members: seq<Member>, strip: seq<string>, name: string, normalize: string -> string)
    ensures name in Dropped(HeadersOf(members), strip, normalize) <==> Goes(members, strip, name, normalize)
  {
    hide Normalized, EmptyDirectories, Stripped, Emptied;
    StrippedExactly(strip, name, normalize);
    EmptiedExactly(members, strip, name, normalize);
  }

  // ---------------------------------------------------------------- what is written

  /** The member at `i` stays, and is written as `w`: as it was, but for the text and
      the size of .MTREE, which loses the lines of what goes. */
  ghost predicate WrittenAs(members: seq<Member>, strip: seq<string>, tools: Tools, i: nat, w: Member)
    requires i < |members|
  {
    var m := members[i];
    && !Goes(members, strip, tools.normalize(m.header.name), tools.normalize)
    && w.header.name == m.header.name && w.header.kind == m.header.kind && w.header.rest == m.header.rest
    && if tools.normalize(m.header.name) != ".MTREE" then
         w.header.size == m.header.size && w.content == if m.header.kind.Regular? then m.content else ""
       else
         && tools.gunzip(m.content).Some? && w.header.size == |w.content|
         && exists drop :: GoesAll(members, strip, drop, tools.normalize) &&
              w.content == tools.gzip(FilteredText(tools.gunzip(m.content).value, drop, tools.normalize))
  }

  /** `drop` is the set of the names that go. */
  ghost predicate GoesAll(members: seq<Member>, strip: seq<string>, drop: set<string>, normalize: string -> string) {
    forall name :: name in drop <==> Goes(members, strip, name, normalize)
  }

  /** `at` lists the positions of the members that stay, in order. */
  ghost predicate Staying(members: seq<Member>, strip: seq<string>, normalize: string -> string, at: seq<nat>) {
    && (forall k :: 0 <= k < |at| ==> at[k] < |members|)
    && (forall j, k :: 0 <= j < k < |at| ==> at[j] < at[k])
    && (forall i :: 0 <= i < |members| ==>
         (i in at <==> !Goes(members, strip, normalize(members[i].header.name), normalize)))
  }

  predicate Missing(members: seq<Member>, name: string, normalize: string -> string) {
    forall k :: 0 <= k < |members| ==> normalize(members[k].header.name) != normalize(name)
  }

  predicate Protected(name: string, normalize: string -> string) {
    normalize(name) in {".PKGINFO", ".BUILDINFO", ".MTREE", ".CHANGELOG"}
  }

  predicate BadMTree(members: seq<Member>, tools: Tools, k: nat)
    requires k < |members|
  {
    tools.normalize(members[k].header.name) == ".MTREE" && tools.gunzip(members[k].content).None?
  }

  /** The rewrite has to be refused. */
  predicate Unfit(members: seq<Member>, strip: seq<string>, tools: Tools) {
    || (exists i :: 0 <= i < |strip| && Missing(members, strip[i], tools.normalize))
    || (exists i :: 0 <= i < |strip| && Protected(strip[i], tools.normalize))
    || ((exists k :: 0 <= k < |members| && BadMTree(members, tools, k)) &&
        !Goes(members, strip, ".MTREE", tools.normalize))
  }

  lemma StrippableExactly(members: seq<Member>, name: string, normalize: string -> string)
    ensures Strippable(members, name, normalize) <==> !Missing(members, name, normalize) && !Protected(name, normalize)
  {
  }

  lemma {:induction false} WrittenExactly(members: seq<Member>, drop: set<string>, tools: Tools)
    ensures WrittenMembers(members, drop, tools).None? <==>
            (exists k :: 0 <= k < |members| && BadMTree(members, tools, k)) && ".MTREE" !in drop
  {
    hide FilteredText;
    if members != [] {
      var init, n := members[..|members| - 1], |members| - 1;
      WrittenExactly(init, drop, tools);
      assert forall k :: 0 <= k < n ==> (BadMTree(members, tools, k) <==> BadMTree(init, tools, k));
      assert (exists k :: 0 <= k < |members| && BadMTree(members, tools, k)) <==>
             (exists k :: 0 <= k < n && BadMTree(init, tools, k)) || BadMTree(members, tools, n);
    }
  }

  /** The result of the rewrite: it is refused exactly when a name to be stripped is
      missing or protected or the .MTREE that stays cannot be read; otherwise every
      member that neither was to be stripped nor is a directory left empty is written
      once and in order, and the directories left empty are listed. */
  lemma RewriteExactly(members: seq<Member>, strip: seq<string>, tools: Tools) returns (at: seq<nat>)
    ensures var result := RewriteSpec(members, strip, tools);
            && (result.Refused? <==> Unfit(members, strip, tools))
            && Staying(members, strip, tools.normalize, at)
            && (result.Rewritten? ==>
                  && (forall name :: name in result.pruned <==> Emptied(members, strip, name, tools.normalize))
                  && |result.members| == |at|
                  && forall k :: 0 <= k < |at| ==> WrittenAs(members, strip, tools, at[k], result.members[k]))
  {
    hide Goes, Emptied, Strippable, Missing, Protected, BadMTree, WrittenMembers, Dropped, EmptyDirectories, Normalized,
         FaithfulCopy, WrittenAs, FilteredText;
    var drop := Dropped(HeadersOf(members), strip, tools.normalize);
    forall name ensures name in drop <==> Goes(members, strip, name, tools.normalize) {
      DroppedExactly(members, strip, name, tools.normalize);
    }
    forall i | 0 <= i < |strip|
      ensures Strippable(members, strip[i], tools.normalize) <==>
              !Missing(members, strip[i], tools.normalize) && !Protected(strip[i], tools.normalize)
    {
      StrippableExactly(members, strip[i], tools.normalize);
    }
    forall name
      ensures name in EmptyDirectories(HeadersOf(members), Normalized(strip, tools.normalize), tools.normalize) <==>
              Emptied(members, strip, name, tools.normalize)
    {
      EmptiedExactly(members, strip, name, tools.normalize);
    }
    WrittenExactly(members, drop, tools);
    RefusedExactly(members, strip, drop, tools);
    at := StayingAt(members, drop, tools.normalize);
    if WrittenMembers(members, drop, tools).Some? {
      RewriteKeepsTheOthers(members, drop, tools);
      var written := WrittenMembers(members, drop, tools).value;
      forall k | 0 <= k < |at| ensures WrittenAs(members, strip, tools, at[k], written[k]) {
        CopyIsWritten(members, strip, drop, tools, at[k], written[k]);
      }
    }
  }

  lemma CopyIsWritten(members: seq<Member>, strip: seq<string>, drop: set<string>, tools: Tools, i: nat, w: Member)
    requires i < |members| && FaithfulCopy(members[i], w, drop, tools)
    requires GoesAll(members, strip, drop, tools.normalize) && tools.normalize(members[i].header.name) !in drop
    ensures WrittenAs(members, strip, tools, i, w)
  {
    hide Goes, FilteredText;
  }

  lemma RefusedExactly(members: seq<Member>, strip: seq<string>, drop: set<string>, tools: Tools)
    requires GoesAll(members, strip, drop, tools.normalize)
    requires forall i :: 0 <= i < |strip| ==>
               (Strippable(members, strip[i], tools.normalize) <==>
                  !Missing(members, strip[i], tools.normalize) && !Protected(strip[i], tools.normalize))
    requires WrittenMembers(members, drop, tools).None? <==>
             (exists k :: 0 <= k < |members| && BadMTree(members, tools, k)) && ".MTREE" !in drop
    ensures (exists i :: 0 <= i < |strip| && !Strippable(members, strip[i], tools.normalize)) ||
            WrittenMembers(members, drop, tools).None? <==>
            Unfit(members, strip, tools)
  {
    hide Goes, Strippable, WrittenMembers, BadMTree, Missing, Protected;
  }

  // ---------------------------------------------------------------- the records that stay

  /** The records whose name does not go, in their order. */
  function RecordsLeft(records: seq<Record>, members: seq<Member>, strip: seq<string>, normalize: string -> string):
    seq<Record>
  {
    if records == [] then []
    else (if Goes(members, strip, normalize(records[0].path), normalize) then [] else [records[0]]) +
         RecordsLeft(records[1..], members, strip, normalize)
  }

  lemma {:induction false} SurvivingIsLeft(records: seq<Record>, members: seq<Member>, strip: seq<string>,
                                           drop: set<string>, normalize: string -> string)
    requires GoesAll(members, strip, drop, normalize)
    ensures Surviving(records, drop, normalize) == RecordsLeft(records, members, strip, normalize)
  {
    hide Goes;
    if records != [] {
      SurvivingIsLeft(records[1..], members, strip, drop, normalize);
    }
  }

  /** And the .MTREE that is written holds exactly the records of what does not go,
      when its text was one that reader and filter read alike. */
  lemma MTreeExactly(members: seq<Member>, strip: seq<string>, tools: Tools, i: nat, w: Member)
    requires i < |members| && WrittenAs(members, strip, tools, i, w)
    requires GzipInverts(tools) && tools.normalize(members[i].header.name) == ".MTREE"
    requires LibarchiveText(tools.gunzip(members[i].content).value, tools.normalize)
    ensures tools.gunzip(w.content).Some?
    ensures ParsedText(tools.gunzip(w.content).value) ==
            RecordsLeft(ParsedText(tools.gunzip(members[i].content).value), members, strip, tools.normalize)
  {
    hide Goes, FilteredText, ParsedText, LibarchiveText;
    var text := tools.gunzip(members[i].content).value;
    var drop :| GoesAll(members, strip, drop, tools.normalize) &&
                w.content == tools.gzip(FilteredText(text, drop, tools.normalize));
    AlignedTextFilters(text, drop, tools.normalize);
    SurvivingIsLeft(ParsedText(text), members, strip, drop, tools.normalize);
  }
}
