/** The package rewrite of internal/brief/filter.go: one drop set decides which
    archive members go and which .MTREE lines go.

    Name normalization, gzip and its inverse are parameters; an archive is the
    sequence of its members. */
module PackageRewrite {
  import opened Text
  import opened MTree
  import opened MTreeFilter

  datatype MemberType = Directory | Regular | Special

  /** `rest` stands for every other header field. */
  datatype Header = Header(name: string, kind: MemberType, size: nat, rest: string)

  datatype Member = Member(header: Header, content: string)

  datatype Tools = Tools(
    normalize: string -> string, gunzip: string -> Option<string>, gzip: string -> string)

  // ---------------------------------------------------------------- the drop set

  function Normalized(names: seq<string>, normalize: string -> string): set<string> {
    set i | 0 <= i < |names| :: normalize(names[i])
  }

  function DirectoriesOf(members: seq<Header>, normalize: string -> string): set<string> {
    set i | 0 <= i < |members| && members[i].kind.Directory? :: normalize(members[i].name)
  }

  /** The files that the strip set leaves. */
  function FilesLeft(members: seq<Header>, strip: set<string>, normalize: string -> string): set<string> {
    set i | 0 <= i < |members| && !members[i].kind.Directory?
      && normalize(members[i].name) !in strip :: normalize(members[i].name)
  }

  predicate Beneath(file: string, directory: string) {
    HasPrefix(file, directory + "/")
  }

  predicate Occupied(directory: string, files: set<string>) {
    exists file :: file in files && Beneath(file, directory)
  }

  /** The directories with no file left beneath them. */
  function EmptyDirectories(members: seq<Header>, strip: set<string>, normalize: string -> string): set<string> {
    set d | d in DirectoriesOf(members, normalize) && !Occupied(d, FilesLeft(members, strip, normalize))
  }

  function Dropped(members: seq<Header>, strip: seq<string>, normalize: string -> string): set<string> {
    Normalized(strip, normalize) + EmptyDirectories(members, Normalized(strip, normalize), normalize)
  }

  method DropSet(members: seq<Header>, strip: seq<string>, normalize: string -> string)
    returns (drop: set<string>, pruned: set<string>)
    ensures pruned == EmptyDirectories(members, Normalized(strip, normalize), normalize)
    ensures drop == Dropped(members, strip, normalize)
  {
    var stripSet: set<string> := {};
    for i := 0 to |strip|
      invariant stripSet == Normalized(strip[..i], normalize)
    {
      NormalizedGrows(strip, i, normalize);
      stripSet := stripSet + {normalize(strip[i])};
    }
    assert strip[..|strip|] == strip;
    var directories: set<string> := {};
    var survivingFiles: set<string> := {};
    for i := 0 to |members|
      invariant directories == DirectoriesOf(members[..i], normalize)
      invariant survivingFiles == FilesLeft(members[..i], stripSet, normalize)
    {
      SetsGrow(members, i, stripSet, normalize);
      var name := normalize(members[i].name);
      if members[i].kind.Directory? {
        directories := directories + {name};
        continue;
      }
      if name !in stripSet {
        survivingFiles := survivingFiles + {name};
      }
    }
    assert members[..|members|] == members;
    drop, pruned := stripSet, {};
    var left := directories;
    while left != {}
      invariant left <= directories
      invariant pruned == set d | d in directories - left && !Occupied(d, survivingFiles)
      invariant drop == stripSet + pruned
      decreases left
    {
      var directory :| directory in left;
      left := left - {directory};
      var occupied := IsOccupied(directory, survivingFiles);
      if !occupied {
        drop := drop + {directory};
        pruned := pruned + {directory};
      }
    }
  }

  method IsOccupied(directory: string, files: set<string>) returns (occupied: bool)
    ensures occupied == Occupied(directory, files)
  {
    var left := files;
    while left != {}
      invariant left <= files
      invariant forall file :: file in files - left ==> !Beneath(file, directory)
      decreases left
    {
      var file :| file in left;
      if Beneath(file, directory) {
        return true;
      }
      left := left - {file};
    }
    return false;
  }

  lemma NormalizedGrows(names: seq<string>, i: nat, normalize: string -> string)
    requires i < |names|
    ensures Normalized(names[..i + 1], normalize) == Normalized(names[..i], normalize) + {normalize(names[i])}
  {
    var longer, shorter := names[..i + 1], names[..i];
    assert forall k :: 0 <= k < i ==> longer[k] == shorter[k];
    assert longer[i] == names[i];
    forall n | n in Normalized(shorter, normalize) ensures n in Normalized(longer, normalize) {
      var k :| 0 <= k < |shorter| && n == normalize(shorter[k]);
      assert n == normalize(longer[k]);
    }
    assert normalize(longer[i]) in Normalized(longer, normalize);
  }

  lemma SetsGrow(members: seq<Header>, i: nat, strip: set<string>, normalize: string -> string)
    requires i < |members|
    ensures DirectoriesOf(members[..i + 1], normalize) ==
            DirectoriesOf(members[..i], normalize) + if members[i].kind.Directory? then {normalize(members[i].name)}
              else {}
    ensures FilesLeft(members[..i + 1], strip, normalize) ==
            FilesLeft(members[..i], strip, normalize) +
            if !members[i].kind.Directory? && normalize(members[i].name) !in strip then {normalize(members[i].name)}
              else {}
  {
    var longer, shorter := members[..i + 1], members[..i];
    assert longer == shorter + [members[i]];
    forall n | n in DirectoriesOf(shorter, normalize) ensures n in DirectoriesOf(longer, normalize) {
      var k :| 0 <= k < |shorter| && shorter[k].kind.Directory? && n == normalize(shorter[k].name);
      assert longer[k] == shorter[k];
    }
    forall n | n in FilesLeft(shorter, strip, normalize) ensures n in FilesLeft(longer, strip, normalize) {
      var k :| 0 <= k < |shorter| && !shorter[k].kind.Directory? && normalize(shorter[k].name) !in strip
        && n == normalize(shorter[k].name);
      assert longer[k] == shorter[k];
    }
    assert longer[i] == members[i];
  }

  /** No file that survives loses an archived directory above it, unless that
      directory was itself to be stripped. */
  lemma SurvivorsKeepTheirDirectories(members: seq<Header>, strip: seq<string>, normalize: string -> string, file: nat,
                                      directory: string)
    requires file < |members| && !members[file].kind.Directory?
    requires normalize(members[file].name) !in Dropped(members, strip, normalize)
    requires directory in DirectoriesOf(members, normalize) && Beneath(normalize(members[file].name), directory)
    requires directory !in Normalized(strip, normalize)
    ensures directory !in Dropped(members, strip, normalize)
  {
    var name := normalize(members[file].name);
    assert name in FilesLeft(members, Normalized(strip, normalize), normalize);
  }

  // ---------------------------------------------------------------- the rewrite

  const MTREE := ".MTREE"
  const METADATA := {".PKGINFO", ".BUILDINFO", ".MTREE", ".INSTALL", ".CHANGELOG"}

  datatype Result = Refused | Rewritten(members: seq<Member>, pruned: set<string>)

  function HeadersOf(members: seq<Member>): (r: seq<Header>)
    ensures |r| == |members| && forall i :: 0 <= i < |r| ==> r[i] == members[i].header
  {
    seq(|members|, i requires 0 <= i < |members| => members[i].header)
  }

  function NamesOf(members: seq<Member>, normalize: string -> string): set<string> {
    set i | 0 <= i < |members| :: normalize(members[i].header.name)
  }

  /** The name can be stripped from the package. */
  predicate Strippable(members: seq<Member>, name: string, normalize: string -> string) {
    normalize(name) in NamesOf(members, normalize) && (normalize(name) in METADATA ==> normalize(name) == ".INSTALL")
  }

  /** A member that stays, as it is written. */
  function WrittenMember(m: Member, drop: set<string>, tools: Tools): Option<Member> {
    if tools.normalize(m.header.name) == MTREE then
      match tools.gunzip(m.content)
      case None => None
      case Some(text) =>
        var blob := tools.gzip(FilteredText(text, drop, tools.normalize));
        Some(Member(m.header.(size := |blob|), blob))
    else Some(Member(m.header, if m.header.kind.Regular? then m.content else ""))
  }

  function WrittenMembers(members: seq<Member>, drop: set<string>, tools: Tools): Option<seq<Member>> {
    if members == [] then Some([])
    else
      var init, last := members[..|members| - 1], members[|members| - 1];
      match WrittenMembers(init, drop, tools)
      case None => None
      case Some(written) =>
        if tools.normalize(last.header.name) in drop then Some(written) else
          match WrittenMember(last, drop, tools)
          case None => None
          case Some(m) => Some(written + [m])
  }

  function RewriteSpec(members: seq<Member>, strip: seq<string>, tools: Tools): Result {
    if exists i :: 0 <= i < |strip| && !Strippable(members, strip[i], tools.normalize) then Refused
    else
      match WrittenMembers(members, Dropped(HeadersOf(members), strip, tools.normalize), tools)
      case None => Refused
      case Some(written) =>
        Rewritten(written, EmptyDirectories(HeadersOf(members), Normalized(strip, tools.normalize), tools.normalize))
  }

  method FilterArchive(members: seq<Member>, strip: seq<string>, tools: Tools) returns (result: Result)
    ensures result == RewriteSpec(members, strip, tools)
  {
    hide WrittenMembers, WrittenMember, FilteredText, Dropped, EmptyDirectories, Normalized;
    var present := NamesOf(members, tools.normalize);
    for i := 0 to |strip|
      invariant forall k :: 0 <= k < i ==> Strippable(members, strip[k], tools.normalize)
    {
      var normalized := tools.normalize(strip[i]);
      if normalized !in present {
        assert !Strippable(members, strip[i], tools.normalize);
        return Refused;
      }
      if normalized in METADATA && normalized != ".INSTALL" {
        assert !Strippable(members, strip[i], tools.normalize);
        return Refused;
      }
    }
    var drop, pruned := DropSet(HeadersOf(members), strip, tools.normalize);
    var written: seq<Member> := [];
    assert members[..0] == [] && WrittenMembers([], drop, tools) == Some([]) by { NoMembers(drop, tools); }
    for i := 0 to |members|
      invariant WrittenMembers(members[..i], drop, tools) == Some(written)
    {
      WrittenStep(members, i, drop, tools);
      var m := members[i];
      var name := tools.normalize(m.header.name);
      if name in drop {
        continue;
      }
      if name == MTREE {
        var text := tools.gunzip(m.content);
        if text.None? {
          NothingWritten(members, i + 1, drop, tools);
          return Refused;
        }
        var kept := FilterMTreeText(text.value, drop, tools.normalize);
        var blob := tools.gzip(kept);
        written := written + [Member(m.header.(size := |blob|), blob)];
        continue;
      }
      written := written + [Member(m.header, if m.header.kind.Regular? then m.content else "")];
    }
    assert members[..|members|] == members;
    return Rewritten(written, pruned);
  }

  lemma NoMembers(drop: set<string>, tools: Tools)
    ensures WrittenMembers([], drop, tools) == Some([])
  {
  }

  lemma WrittenStep(members: seq<Member>, i: nat, drop: set<string>, tools: Tools)
    requires i < |members| && WrittenMembers(members[..i], drop, tools).Some?
    ensures var written, m, name := WrittenMembers(members[..i], drop, tools).value, members[i],
              tools.normalize(members[i].header.name);
            WrittenMembers(members[..i + 1], drop, tools) ==
            if name in drop then Some(written)
            else if name == MTREE then
              match tools.gunzip(m.content)
              case None => None
              case Some(text) =>
                var blob := tools.gzip(FilteredText(text, drop, tools.normalize));
                Some(written + [Member(m.header.(size := |blob|), blob)])
            else Some(written + [Member(m.header, if m.header.kind.Regular? then m.content else "")])
  {
    hide FilteredText;
    assert members[..i + 1][..i] == members[..i];
  }

  lemma {:induction false} NothingWritten(members: seq<Member>, n: nat, drop: set<string>, tools: Tools)
    requires n <= |members| && WrittenMembers(members[..n], drop, tools).None?
    ensures WrittenMembers(members, drop, tools).None?
    decreases |members|
  {
    hide WrittenMember;
    if n == |members| {
      assert members[..n] == members;
    } else {
      assert members[..|members| - 1][..n] == members[..n];
      NothingWritten(members[..|members| - 1], n, drop, tools);
    }
  }

  // ---------------------------------------------------------------- what the rewrite keeps

  /** The positions of the members that stay, in order. */
  function StayingAt(members: seq<Member>, drop: set<string>, normalize: string -> string): (at: seq<nat>)
    ensures forall k :: 0 <= k < |at| ==> at[k] < |members| && normalize(members[at[k]].header.name) !in drop
    ensures forall j, k :: 0 <= j < k < |at| ==> at[j] < at[k]
    ensures forall i :: 0 <= i < |members| && normalize(members[i].header.name) !in drop ==> i in at
  {
    if members == [] then []
    else
      var before := StayingAt(members[..|members| - 1], drop, normalize);
      if normalize(members[|members| - 1].header.name) in drop then before else before + [|members| - 1]
  }

  /** The output holds the members that stay, each once and in order; only
      .MTREE is written differently, and of its header only the size. */
  lemma {:induction false} RewriteKeepsTheOthers(members: seq<Member>, drop: set<string>, tools: Tools)
    requires WrittenMembers(members, drop, tools).Some?
    ensures var written, at := WrittenMembers(members, drop, tools).value, StayingAt(members, drop, tools.normalize);
            |written| == |at| && forall k :: 0 <= k < |at| ==> FaithfulCopy(members[at[k]], written[k], drop, tools)
  {
    hide FilteredText;
    if members != [] {
      RewriteKeepsTheOthers(members[..|members| - 1], drop, tools);
    }
  }

  predicate FaithfulCopy(m: Member, w: Member, drop: set<string>, tools: Tools) {
    && w.header.name == m.header.name && w.header.kind == m.header.kind && w.header.rest == m.header.rest
    && (tools.normalize(m.header.name) != MTREE ==>
         w.header == m.header && w.content == if m.header.kind.Regular? then m.content else "")
    && (tools.normalize(m.header.name) == MTREE ==>
          && tools.gunzip(m.content).Some?
          && w.content == tools.gzip(FilteredText(tools.gunzip(m.content).value, drop, tools.normalize))
          && w.header.size == |w.content|)
  }

  ghost predicate GzipInverts(tools: Tools) {
    forall text: string :: tools.gunzip(tools.gzip(text)) == Some(text)
  }

  /** Every record of the .MTREE text names an archive member. */
  predicate NamesOnlyMembers(text: string, members: seq<Member>, normalize: string -> string) {
    forall i :: 0 <= i < |ParsedText(text)| ==> normalize(ParsedText(text)[i].path) in NamesOf(members, normalize)
  }

  predicate LibarchiveText(text: string, normalize: string -> string) {
    AllDirectivesKept(RawLines(text)) && AllRecordsAligned(RawLines(text), normalize)
  }

  /** Archive and .MTREE lose the same names: a name that had a member and a
      record keeps both or loses both. */
  lemma OutputsAgree(members: seq<Member>, drop: set<string>, tools: Tools, k: nat)
    requires WrittenMembers(members, drop, tools).Some? && GzipInverts(tools)
    requires k < |WrittenMembers(members, drop, tools).value|
    requires var w := WrittenMembers(members, drop, tools).value[k];
             tools.normalize(w.header.name) == MTREE
    ensures var written := WrittenMembers(members, drop, tools).value;
            var at := StayingAt(members, drop, tools.normalize);
            && |written| == |at|
            && tools.gunzip(members[at[k]].content).Some?
            && tools.gunzip(written[k].content).Some?
            && var before, after := tools.gunzip(members[at[k]].content).value, tools.gunzip(written[k].content).value;
               LibarchiveText(before, tools.normalize) ==>
                 && ParsedText(after) == Surviving(ParsedText(before), drop, tools.normalize)
                 && (NamesOnlyMembers(before, members, tools.normalize) ==>
                      NamesOnlyMembers(after, written, tools.normalize))
  {
    hide WrittenMembers, FilteredText, ParsedText, RawLines, AllDirectivesKept, AllRecordsAligned;
    var written, at := WrittenMembers(members, drop, tools).value, StayingAt(members, drop, tools.normalize);
    RewriteKeepsTheOthers(members, drop, tools);
    assert FaithfulCopy(members[at[k]], written[k], drop, tools);
    var before := tools.gunzip(members[at[k]].content).value;
    var after := tools.gunzip(written[k].content).value;
    assert after == FilteredText(before, drop, tools.normalize);
    if LibarchiveText(before, tools.normalize) {
      AlignedTextFilters(before, drop, tools.normalize);
      if NamesOnlyMembers(before, members, tools.normalize) {
        forall i | 0 <= i < |ParsedText(after)|
          ensures tools.normalize(ParsedText(after)[i].path) in NamesOf(written, tools.normalize)
        {
          SurvivingIsPart(ParsedText(before), drop, tools.normalize, i);
          SurvivingMember(members, drop, tools, tools.normalize(ParsedText(after)[i].path));
        }
      }
    }
  }

  lemma AlignedTextFilters(text: string, drop: set<string>, normalize: string -> string)
    requires LibarchiveText(text, normalize)
    ensures ParsedText(FilteredText(text, drop, normalize)) == Surviving(ParsedText(text), drop, normalize)
  {
    hide RawLines, KeptLines, FilteredText, Records, Surviving, AllDirectivesKept, AllRecordsAligned;
    LinesOfFilteredText(text, drop, normalize);
    AlignedLinesFilter(RawLines(text), NO_DEFAULTS, drop, normalize);
  }

  lemma {:induction false} SurvivingIsPart(records: seq<Record>, drop: set<string>, normalize: string -> string, i: nat)
    requires i < |Surviving(records, drop, normalize)|
    ensures normalize(Surviving(records, drop, normalize)[i].path) !in drop
    ensures exists j :: 0 <= j < |records| && records[j] == Surviving(records, drop, normalize)[i]
  {
    var rest := Surviving(records[1..], drop, normalize);
    if normalize(records[0].path) in drop {
      SurvivingIsPart(records[1..], drop, normalize, i);
      var j :| 0 <= j < |records[1..]| && records[1..][j] == rest[i];
      assert records[j + 1] == rest[i];
    } else if i > 0 {
      SurvivingIsPart(records[1..], drop, normalize, i - 1);
      var j :| 0 <= j < |records[1..]| && records[1..][j] == rest[i - 1];
      assert records[j + 1] == rest[i - 1];
    }
  }

  lemma SurvivingMember(members: seq<Member>, drop: set<string>, tools: Tools, name: string)
    requires WrittenMembers(members, drop, tools).Some?
    requires name in NamesOf(members, tools.normalize) && name !in drop
    ensures name in NamesOf(WrittenMembers(members, drop, tools).value, tools.normalize)
  {
    hide WrittenMembers, FilteredText;
    RewriteKeepsTheOthers(members, drop, tools);
    var at := StayingAt(members, drop, tools.normalize);
    var i :| 0 <= i < |members| && name == tools.normalize(members[i].header.name);
    var k :| 0 <= k < |at| && at[k] == i;
    var w := WrittenMembers(members, drop, tools).value[k];
    assert FaithfulCopy(members[at[k]], w, drop, tools);
  }
}
