/** The decision protocol as a transition system: scans and their markers
    (internal/audit/policy.go), one-time approvals (internal/audit/approvals.go)
    and the start of a marker-gated build phase (internal/audit/build.go).

    Any number of processes take turns.  A step is what one process does to shared
    state without another being able to step in: reading a directory, reading one
    file, checking that one is absent, renaming, replacing one.  The environment
    may edit every tree, rewrite reports in place, prune and clean up. */
module DecisionProtocol {
  import opened Text
  import opened DecisionPolicy

  /** What an approval is good for. */
  datatype Grant = Grant(packageBase: string, phase: Phase, contentHash: string, fingerprint: string)

  datatype Token = Token(reportId: string, grant: Grant)

  datatype Consumer =
    | Scanning(want: Grant, names: seq<string>)
    | Holding(want: Grant, name: string, token: Token, rest: seq<string>)

  /** The report of a phase that is about to start; `at` is when its marker was read. */
  datatype Loaded = Loaded(slot: Slot, fingerprint: string, report: Report, at: nat)

  /** A phase about to start has read its marker, then its report, then seen its
      transaction alive; its tree is not yet bound. */
  datatype Starter =
    | Pointed(slot: Slot, fingerprint: string, marker: Marker, at: nat)
    | Matched(loaded: Loaded)
    | Ready(loaded: Loaded)

  datatype Start = Start(loaded: Loaded, boundAt: nat, tree: seq<Record>)

  datatype Write = Write(slot: Slot, marker: Marker)

  /** Two digests of a manifest: the content hash and the binding hash. */
  datatype Hashes = Hashes(content: seq<Record> -> string, binding: seq<Record> -> string)

  /** `trees` are the materials of each root and phase; `pending` maps the name of
      a token file to its token; `held` are grants that scans obtained and have not
      yet put into a report.  `built`, `log`, `created`, `spent`, `overrides` and
      `starts` record what happened. */
  datatype State = State(
    reports: map<string, Report>, markers: map<Slot, Marker>, live: set<string>, trees: map<Slot, seq<Record>>,
    pending: map<string, Token>, creators: map<int, string>, consumers: map<int, Consumer>, held: multiset<Grant>,
    starters: map<int, Starter>,
    built: map<string, Report>, log: seq<Write>, created: multiset<Grant>, spent: multiset<Grant>,
    overrides: multiset<Grant>, starts: seq<Start>)

  datatype Step =
    | Save(report: Report)
    | Replace(report: Report)
    | Prune(id: string)
    | WriteMarker(root: string, phase: Phase, id: string)
    | DropMarker(slot: Slot)
    | Edit(trees: map<Slot, seq<Record>>)
    | End(transaction: string)
    | CheckAbsent(process: int, id: string)
    | CreateToken(process: int)
    | Cancel(name: string)
    | ReadDirectory(process: int, want: Grant, names: seq<string>)
    | ReadToken(process: int)
    | RenameToken(process: int, stamped: bool)
    | ReadMarker(process: int, slot: Slot, fingerprint: string)
    | ReadReport(process: int)
    | CheckLive(process: int)
    | Bind(process: int)

  function GrantOf(r: Report): Grant {
    Grant(r.packageBase, r.phase, r.contentHash, r.fingerprint)
  }

  function TokenOf(r: Report): Token {
    Token(r.id, GrantOf(r))
  }

  /** Validation of what is saved binds the content hash to the manifest. */
  predicate Bound(h: Hashes, r: Report) {
    h.content(r.manifest) == r.contentHash
  }

  function Initial(trees: map<Slot, seq<Record>>, live: set<string>): State {
    State(map[], map[], live, trees, map[], map[], map[], multiset{}, map[], map[], [], multiset{}, multiset{},
      multiset{}, [])
  }

  // ---------------------------------------------------------------- one step

  function Apply(h: Hashes, s: State, step: Step): Option<State> {
    match step
    case Save(r) => SaveReport(h, s, r)
    case Replace(r) => ReplaceReport(h, s, r)
    case Prune(id) => Some(s.(reports := s.reports - {id}))
    case WriteMarker(root, phase, id) => PutMarker(s, root, phase, id)
    case DropMarker(slot) => Some(s.(markers := s.markers - {slot}))
    case Edit(trees) => Some(s.(trees := trees))
    case End(transaction) => Some(s.(live := s.live - {transaction}))
    case CheckAbsent(p, id) =>
      if id !in s.built || !s.built[id].approvalEligible || id in s.pending then None
      else Some(s.(creators := s.creators[p := id]))
    case CreateToken(p) => PutToken(s, p)
    case Cancel(name) => Some(s.(pending := s.pending - {name}))
    case ReadDirectory(p, want, names) => Some(s.(consumers := s.consumers[p := Scanning(want, names)]))
    case ReadToken(p) =>
      if p !in s.consumers || !s.consumers[p].Scanning? then None else Some(s.(consumers := AfterRead(s, p)))
    case RenameToken(p, stamped) =>
      if p !in s.consumers || !s.consumers[p].Holding? then None else Some(AfterRename(s, p, stamped))
    case ReadMarker(p, slot, fingerprint) => FollowMarker(s, p, slot, fingerprint)
    case ReadReport(p) => LoadReport(s, p)
    case CheckLive(p) => SeeAlive(s, p)
    case Bind(p) => BindTree(h, s, p)
  }

  /** A report is rewritten in place with more evidence about the same decision. */
  function ReplaceReport(h: Hashes, s: State, r: Report): Option<State> {
    if r.id !in s.reports || !Bound(h, r) || GrantOf(s.reports[r.id]) != GrantOf(r) then None
    else Some(s.(reports := s.reports[r.id := r]))
  }

  function PutMarker(s: State, root: string, phase: Phase, id: string): Option<State> {
    if id !in s.built then None else
      var slot := Slot(root, phase, s.built[id].transaction);
      var marker := MarkerFor(root, phase, s.built[id]);
      Some(s.(markers := s.markers[slot := marker], log := s.log + [Write(slot, marker)]))
  }

  function PutToken(s: State, p: int): Option<State> {
    if p !in s.creators || s.creators[p] !in s.built then None else
      var r := s.built[s.creators[p]];
      Some(s.(pending := s.pending[r.id := TokenOf(r)], creators := s.creators - {p},
        created := s.created + multiset{GrantOf(r)}))
  }

  function FollowMarker(s: State, p: int, slot: Slot, fingerprint: string): Option<State> {
    if slot !in s.markers then None else
      var m := s.markers[slot];
      if m.root != slot.root || m.phase != slot.phase || !m.allows then None
      else Some(s.(starters := s.starters[p := Pointed(slot, fingerprint, m, |s.log|)]))
  }

  function LoadReport(s: State, p: int): Option<State> {
    if p !in s.starters || !s.starters[p].Pointed? || s.starters[p].marker.reportId !in s.reports then None else
      var c, m := s.starters[p], s.starters[p].marker;
      var r := s.reports[m.reportId];
      if Describes(m, r) && m.fingerprint == c.fingerprint && m.transaction == c.slot.transaction
        && r.transaction == c.slot.transaction
      then Some(s.(starters := s.starters[p := Matched(Loaded(c.slot, c.fingerprint, r, c.at))]))
      else None
  }

  function SeeAlive(s: State, p: int): Option<State> {
    if p !in s.starters || !s.starters[p].Matched? || s.starters[p].loaded.slot.transaction !in s.live then None
    else Some(s.(starters := s.starters[p := Ready(s.starters[p].loaded)]))
  }

  function BindTree(h: Hashes, s: State, p: int): Option<State> {
    if p !in s.starters || !s.starters[p].Ready? || s.starters[p].loaded.slot !in s.trees then None else
      var l := s.starters[p].loaded;
      if h.binding(s.trees[l.slot]) != h.binding(l.report.manifest) then None
      else Some(s.(starters := s.starters - {p}, starts := s.starts + [Start(l, |s.log|, s.trees[l.slot])]))
  }

  /** A scan stores its report under a new ID; a report with an override uses up
      a grant that a scan obtained. */
  function SaveReport(h: Hashes, s: State, r: Report): Option<State> {
    if r.id in s.built || !Bound(h, r) then None
    else
      var saved := s.(reports := s.reports[r.id := r], built := s.built[r.id := r]);
      if !r.overridden then Some(saved)
      else if s.held[GrantOf(r)] == 0 then None
      else Some(saved.(held := s.held - multiset{GrantOf(r)}, overrides := s.overrides + multiset{GrantOf(r)}))
  }

  /** One turn of the loop over the directory entries, up to the comparison. */
  function AfterRead(s: State, p: int): map<int, Consumer>
    requires p in s.consumers && s.consumers[p].Scanning?
  {
    var c := s.consumers[p];
    if c.names == [] then s.consumers - {p}
    else
      var name, rest := c.names[0], c.names[1..];
      if name in s.pending && s.pending[name].grant == c.want then
        s.consumers[p := Holding(c.want, name, s.pending[name], rest)]
      else s.consumers[p := Scanning(c.want, rest)]
  }

  /** The rename succeeds only while the file is still there; `stamped` says that
      rewriting the moved file with its consumption time succeeded too. */
  function AfterRename(s: State, p: int, stamped: bool): State
    requires p in s.consumers && s.consumers[p].Holding?
  {
    var c := s.consumers[p];
    if c.name !in s.pending then s.(consumers := s.consumers[p := Scanning(c.want, c.rest)])
    else
      var moved := s.(pending := s.pending - {c.name}, consumers := s.consumers - {p});
      if stamped then moved.(held := s.held + multiset{c.token.grant}, spent := s.spent + multiset{c.token.grant})
        else moved
  }

  /** Some(s'): the run succeeds step by step and ends in s'. */
  function Run(h: Hashes, s: State, steps: seq<Step>): Option<State>
    decreases |steps|
  {
    if steps == [] then Some(s)
    else match Apply(h, s, steps[0])
      case None => None
      case Some(next) => Run(h, next, steps[1..])
  }

  // ---------------------------------------------------------------- the marker log

  /** The last marker written to a slot. */
  function LastWrite(log: seq<Write>, slot: Slot): Option<Marker> {
    if log == [] then None
    else if log[|log| - 1].slot == slot then Some(log[|log| - 1].marker)
    else LastWrite(log[..|log| - 1], slot)
  }

  predicate NoWrite(log: seq<Write>, slot: Slot, a: nat, b: nat)
    requires b <= |log|
  {
    forall i :: a <= i < b ==> log[i].slot != slot
  }

  lemma {:induction false} LastWriteUnchanged(log: seq<Write>, slot: Slot, a: nat, b: nat)
    requires a <= b <= |log| && NoWrite(log, slot, a, b)
    ensures LastWrite(log[..b], slot) == LastWrite(log[..a], slot)
    decreases b
  {
    if a < b {
      LastWriteUnchanged(log, slot, a, b - 1);
      assert log[..b][..b - 1] == log[..b - 1];
    }
  }

  lemma {:induction false} LastWriteSplit(a: seq<Write>, b: seq<Write>, slot: Slot)
    ensures LastWrite(a + b, slot) == if LastWrite(b, slot).Some? then LastWrite(b, slot) else LastWrite(a, slot)
  {
    if b == [] {
      assert a + b == a;
    } else {
      assert (a + b)[..|a + b| - 1] == a + b[..|b| - 1];
      LastWriteSplit(a, b[..|b| - 1], slot);
    }
  }

  lemma {:induction false} WrittenExactly(log: seq<Write>, slot: Slot, a: nat, b: nat)
    requires a <= b <= |log|
    ensures LastWrite(log[a..b], slot).None? <==> NoWrite(log, slot, a, b)
    decreases b
  {
    if a < b {
      WrittenExactly(log, slot, a, b - 1);
      assert log[a..b][..b - a - 1] == log[a..b - 1];
    }
  }

  // ---------------------------------------------------------------- the invariant

  function PendingFor(pending: map<string, Token>, g: Grant): nat {
    |set name | name in pending && pending[name].grant == g|
  }

  ghost predicate MarkersInv(s: State) {
    && (forall slot :: slot in s.markers ==> LastWrite(s.log, slot) == Some(s.markers[slot]))
    && (forall w :: w in s.log ==> Genuine(s.built, w))
  }

  /** A marker repeats what some scan decided. */
  ghost predicate Genuine(built: map<string, Report>, w: Write) {
    && w.marker.reportId in built && built[w.marker.reportId].transaction == w.slot.transaction
    && w.marker == MarkerFor(w.slot.root, w.slot.phase, built[w.marker.reportId])
  }

  ghost predicate ReportsInv(h: Hashes, s: State) {
    AllBuilt(h, s.built) && forall id :: id in s.reports ==> Stored(h, s.built, id, s.reports[id])
  }

  ghost predicate AllBuilt(h: Hashes, built: map<string, Report>) {
    forall id :: id in built ==> built[id].id == id && Bound(h, built[id])
  }

  ghost predicate Stored(h: Hashes, built: map<string, Report>, id: string, r: Report) {
    id in built && r.id == id && Bound(h, r) && GrantOf(r) == GrantOf(built[id])
  }

  ghost predicate TokensInv(s: State) {
    PendingInv(s) && CreatorsInv(s) && HoldersInv(s)
  }

  ghost predicate PendingInv(s: State) {
    forall name :: name in s.pending ==> Approved(s.built, name) && s.pending[name] == TokenOf(s.built[name])
  }

  ghost predicate CreatorsInv(s: State) {
    forall p :: p in s.creators ==> Approved(s.built, s.creators[p])
  }

  ghost predicate HoldersInv(s: State) {
    forall p :: p in s.consumers && s.consumers[p].Holding? ==> GenuineToken(s.built, s.consumers[p])
  }

  ghost predicate GenuineToken(built: map<string, Report>, c: Consumer)
    requires c.Holding?
  {
    Approved(built, c.name) && c.token == TokenOf(built[c.name]) && c.token.grant == c.want
  }

  ghost predicate Approved(built: map<string, Report>, id: string) {
    id in built && built[id].approvalEligible
  }

  /** Every token was created for a saved report that was open to approval. */
  ghost predicate CreatedInv(s: State) {
    forall g: Grant :: g in s.created ==> exists id :: Approved(s.built, id) && GrantOf(s.built[id]) == g
  }

  ghost predicate CountsInv(s: State) {
    && (forall g: Grant :: s.spent[g] + PendingFor(s.pending, g) <= s.created[g])
    && (forall g: Grant :: s.overrides[g] + s.held[g] <= s.spent[g])
  }

  /** When the phase read its marker, the last marker of its slot allowed it,
      under the policy of the phase, and the report is the one that a scan of the
      same transaction built. */
  ghost predicate WellLoaded(h: Hashes, s: State, l: Loaded) {
    && l.at <= |s.log| && LastWrite(s.log[..l.at], l.slot).Some?
    && var m := LastWrite(s.log[..l.at], l.slot).value;
    && m.allows && m.fingerprint == l.fingerprint
    && m.reportId in s.built && s.built[m.reportId].allows && s.built[m.reportId].fingerprint == l.fingerprint
    && s.built[m.reportId].transaction == l.slot.transaction
    && l.report.contentHash == s.built[m.reportId].contentHash
    && h.content(l.report.manifest) == h.content(s.built[m.reportId].manifest)
  }

  /** What a marker that allows, read as the last one, points at. */
  ghost predicate WellPointed(s: State, c: Starter)
    requires c.Pointed?
  {
    && c.at <= |s.log| && LastWrite(s.log[..c.at], c.slot) == Some(c.marker) && c.marker.allows
    && Genuine(s.built, Write(c.slot, c.marker))
  }

  ghost predicate WellOnItsWay(h: Hashes, s: State, c: Starter) {
    if c.Pointed? then WellPointed(s, c) else WellLoaded(h, s, c.loaded)
  }

  ghost predicate WellStarted(h: Hashes, s: State, e: Start) {
    && WellLoaded(h, s, e.loaded) && e.loaded.at <= e.boundAt <= |s.log|
    && h.binding(e.tree) == h.binding(e.loaded.report.manifest)
  }

  ghost predicate StartsInv(h: Hashes, s: State) {
    && (forall p :: p in s.starters ==> WellOnItsWay(h, s, s.starters[p]))
    && (forall e :: e in s.starts ==> WellStarted(h, s, e))
  }

  ghost predicate Inv(h: Hashes, s: State) {
    MarkersInv(s) && ReportsInv(h, s) && TokensInv(s) && CreatedInv(s) && CountsInv(s) && StartsInv(h, s)
  }

  // ---------------------------------------------------------------- every step keeps the invariant

  /** What happened stays recorded. */
  ghost predicate Grows(s: State, t: State) {
    && s.log <= t.log
    && forall id :: id in s.built ==> id in t.built && t.built[id] == s.built[id]
  }

  /** Which step changes what. */
  lemma Frame(h: Hashes, s: State, step: Step, t: State)
    requires Apply(h, s, step) == Some(t)
    ensures step.Save? || (t.built == s.built && t.overrides == s.overrides)
    ensures step.Save? || step.Replace? || step.Prune? || t.reports == s.reports
    ensures step.WriteMarker? || t.log == s.log
    ensures step.WriteMarker? || step.DropMarker? || t.markers == s.markers
    ensures step.CreateToken? || step.Cancel? || step.RenameToken? || t.pending == s.pending
    ensures step.CheckAbsent? || step.CreateToken? || t.creators == s.creators
    ensures step.CreateToken? || t.created == s.created
    ensures step.ReadDirectory? || step.ReadToken? || step.RenameToken? || t.consumers == s.consumers
    ensures step.Save? || step.RenameToken? || t.held == s.held
    ensures step.RenameToken? || t.spent == s.spent
    ensures step.ReadMarker? || step.ReadReport? || step.CheckLive? || step.Bind? || t.starters == s.starters
    ensures step.Bind? || t.starts == s.starts
  {
    hide FollowMarker, LoadReport, BindTree, PutToken, PutMarker, ReplaceReport, SaveReport, AfterRename, AfterRead;
    match step {
      case Save(r) => SaveFrame(h, s, r);
      case Replace(r) => ReplaceFrame(h, s, r);
      case WriteMarker(root, phase, id) => MarkerFrame(s, root, phase, id);
      case CreateToken(p) => TokenFrame(s, p);
      case RenameToken(p, stamped) => RenameFrame(s, p, stamped);
      case ReadMarker(p, slot, fingerprint) => LoadFrame(s, p, slot, fingerprint);
      case ReadReport(p) => LoadFrame(s, p, HERE, "");
      case Bind(p) => BindFrame(h, s, p);
      case _ =>
    }
  }

  lemma SaveFrame(h: Hashes, s: State, r: Report)
    ensures var t := SaveReport(h, s, r);
            t.Some? ==> t.value == s.(reports := t.value.reports, built := t.value.built, held := t.value.held,
              overrides := t.value.overrides)
  {
  }

  lemma ReplaceFrame(h: Hashes, s: State, r: Report)
    ensures var t := ReplaceReport(h, s, r);
            t.Some? ==> t.value == s.(reports := t.value.reports)
  {
  }

  lemma MarkerFrame(s: State, root: string, phase: Phase, id: string)
    ensures var t := PutMarker(s, root, phase, id);
            t.Some? ==> t.value == s.(markers := t.value.markers, log := t.value.log)
  {
  }

  lemma TokenFrame(s: State, p: int)
    ensures var t := PutToken(s, p);
            t.Some? ==> t.value == s.(pending := t.value.pending, creators := t.value.creators,
              created := t.value.created)
  {
  }

  lemma RenameFrame(s: State, p: int, stamped: bool)
    requires p in s.consumers && s.consumers[p].Holding?
    ensures var t := AfterRename(s, p, stamped);
            t == s.(pending := t.pending, consumers := t.consumers, held := t.held, spent := t.spent)
  {
  }

  lemma LoadFrame(s: State, p: int, slot: Slot, fingerprint: string)
    ensures var t := FollowMarker(s, p, slot, fingerprint);
            t.Some? ==> t.value == s.(starters := t.value.starters)
    ensures var t := LoadReport(s, p);
            t.Some? ==> t.value == s.(starters := t.value.starters)
  {
  }

  lemma BindFrame(h: Hashes, s: State, p: int)
    ensures var t := BindTree(h, s, p);
            t.Some? ==> t.value == s.(starters := t.value.starters, starts := t.value.starts)
  {
  }

  lemma SaveStep(h: Hashes, s: State, r: Report, t: State)
    requires Apply(h, s, Save(r)) == Some(t)
    ensures r.id !in s.built && Bound(h, r)
    ensures t.reports == s.reports[r.id := r] && t.built == s.built[r.id := r]
    ensures !r.overridden ==> t.held == s.held && t.overrides == s.overrides
    ensures r.overridden ==>
              s.held[GrantOf(r)] > 0 && t.held == s.held - multiset{GrantOf(r)}
                && t.overrides == s.overrides + multiset{GrantOf(r)}
  {
    hide ReplaceReport, PutMarker, PutToken, FollowMarker, LoadReport, BindTree, AfterRead, AfterRename;
  }

  lemma CreateStep(h: Hashes, s: State, p: int, t: State)
    requires Apply(h, s, CreateToken(p)) == Some(t)
    ensures p in s.creators && s.creators[p] in s.built
    ensures var r := s.built[s.creators[p]];
            && t.pending == s.pending[r.id := TokenOf(r)] && t.creators == s.creators - {p}
            && t.created == s.created + multiset{GrantOf(r)}
  {
    hide SaveReport, ReplaceReport, PutMarker, FollowMarker, LoadReport, BindTree, AfterRead, AfterRename;
  }

  lemma RenameStep(h: Hashes, s: State, p: int, stamped: bool, t: State)
    requires Apply(h, s, RenameToken(p, stamped)) == Some(t)
    ensures p in s.consumers && s.consumers[p].Holding?
    ensures var c := s.consumers[p];
            if c.name !in s.pending then
              t.pending == s.pending && t.consumers == s.consumers[p := Scanning(c.want, c.rest)] && t.held == s.held
                && t.spent == s.spent
            else
              && t.pending == s.pending - {c.name} && t.consumers == s.consumers - {p}
              && (!stamped ==> t.held == s.held && t.spent == s.spent)
              && (stamped ==>
                    t.held == s.held + multiset{c.token.grant} && t.spent == s.spent + multiset{c.token.grant})
  {
    hide SaveReport, ReplaceReport, PutMarker, PutToken, FollowMarker, LoadReport, BindTree, AfterRead, AfterRename;
    Renamed(s, p, stamped);
  }

  lemma Renamed(s: State, p: int, stamped: bool)
    requires p in s.consumers && s.consumers[p].Holding?
    ensures var c, t := s.consumers[p], AfterRename(s, p, stamped);
            if c.name !in s.pending then
              t.pending == s.pending && t.consumers == s.consumers[p := Scanning(c.want, c.rest)] && t.held == s.held
                && t.spent == s.spent
            else
              && t.pending == s.pending - {c.name} && t.consumers == s.consumers - {p}
              && (!stamped ==> t.held == s.held && t.spent == s.spent)
              && (stamped ==>
                    t.held == s.held + multiset{c.token.grant} && t.spent == s.spent + multiset{c.token.grant})
  {
  }

  lemma ReadStep(h: Hashes, s: State, p: int, t: State)
    requires Apply(h, s, ReadToken(p)) == Some(t)
    ensures p in s.consumers && s.consumers[p].Scanning? && t.consumers == AfterRead(s, p)
  {
    hide SaveReport, ReplaceReport, PutMarker, PutToken, FollowMarker, LoadReport, BindTree, AfterRead, AfterRename;
  }

  lemma WriteStep(h: Hashes, s: State, root: string, phase: Phase, id: string, t: State)
    requires Apply(h, s, WriteMarker(root, phase, id)) == Some(t)
    ensures id in s.built
    ensures var slot, m := Slot(root, phase, s.built[id].transaction), MarkerFor(root, phase, s.built[id]);
            t.markers == s.markers[slot := m] && t.log == s.log + [Write(slot, m)]
  {
    hide SaveReport, ReplaceReport, PutToken, FollowMarker, LoadReport, BindTree, AfterRead, AfterRename;
  }

  lemma PointStep(h: Hashes, s: State, p: int, slot: Slot, fingerprint: string, t: State)
    requires Apply(h, s, ReadMarker(p, slot, fingerprint)) == Some(t)
    ensures slot in s.markers && s.markers[slot].allows
    ensures t.starters == s.starters[p := Pointed(slot, fingerprint, s.markers[slot], |s.log|)]
  {
    hide SaveReport, ReplaceReport, PutMarker, PutToken, LoadReport, BindTree, AfterRead, AfterRename;
  }

  lemma LoadStep(h: Hashes, s: State, p: int, t: State)
    requires Apply(h, s, ReadReport(p)) == Some(t)
    ensures p in s.starters && s.starters[p].Pointed? && s.starters[p].marker.reportId in s.reports
    ensures var c := s.starters[p];
            var r := s.reports[c.marker.reportId];
            && Describes(c.marker, r) && c.marker.fingerprint == c.fingerprint && r.transaction == c.slot.transaction
            && t.starters == s.starters[p := Matched(Loaded(c.slot, c.fingerprint, r, c.at))]
  {
    hide SaveReport, ReplaceReport, PutMarker, PutToken, FollowMarker, BindTree, AfterRead, AfterRename, Describes;
  }

  lemma LiveStep(h: Hashes, s: State, p: int, t: State)
    requires Apply(h, s, CheckLive(p)) == Some(t)
    ensures p in s.starters && s.starters[p].Matched? && t.starters == s.starters[p := Ready(s.starters[p].loaded)]
  {
    hide SaveReport, ReplaceReport, PutMarker, PutToken, FollowMarker, LoadReport, BindTree, AfterRead, AfterRename;
  }

  lemma BindStep(h: Hashes, s: State, p: int, t: State)
    requires Apply(h, s, Bind(p)) == Some(t)
    ensures p in s.starters && s.starters[p].Ready? && s.starters[p].loaded.slot in s.trees
    ensures var l := s.starters[p].loaded;
            && h.binding(s.trees[l.slot]) == h.binding(l.report.manifest)
            && t.starters == s.starters - {p} && t.starts == s.starts + [Start(l, |s.log|, s.trees[l.slot])]
  {
    hide SaveReport, ReplaceReport, PutMarker, PutToken, FollowMarker, LoadReport, AfterRead, AfterRename;
  }

  lemma StepGrows(h: Hashes, s: State, step: Step, t: State)
    requires Apply(h, s, step) == Some(t)
    ensures Grows(s, t)
  {
    hide Apply;
    Frame(h, s, step, t);
    if step.Save? {
      SaveStep(h, s, step.report, t);
    } else if step.WriteMarker? {
      WriteStep(h, s, step.root, step.phase, step.id, t);
    }
  }

  lemma StaysWellLoaded(h: Hashes, s: State, t: State, l: Loaded)
    requires Grows(s, t) && WellLoaded(h, s, l)
    ensures WellLoaded(h, t, l)
  {
    assert t.log[..l.at] == s.log[..l.at];
  }

  lemma StaysWellPointed(s: State, t: State, c: Starter)
    requires Grows(s, t) && c.Pointed? && WellPointed(s, c)
    ensures WellPointed(t, c)
  {
    assert t.log[..c.at] == s.log[..c.at];
  }

  lemma StepKeepsMarkers(h: Hashes, s: State, step: Step, t: State)
    requires Inv(h, s) && Apply(h, s, step) == Some(t)
    ensures MarkersInv(t)
  {
    hide Apply, TokensInv, CountsInv, StartsInv, Bound, MarkerFor;
    Frame(h, s, step, t);
    if step.Save? {
      SaveStep(h, s, step.report, t);
    } else if step.WriteMarker? {
      WriteStep(h, s, step.root, step.phase, step.id, t);
      MarkerNames(s.built[step.id], step.root, step.phase);
      assert t.log[..|t.log| - 1] == s.log;
    } else if step.DropMarker? {
      assert t.markers == s.markers - {step.slot} by { DropStep(h, s, step.slot, t); }
    }
  }

  lemma DropStep(h: Hashes, s: State, slot: Slot, t: State)
    requires Apply(h, s, DropMarker(slot)) == Some(t)
    ensures t.markers == s.markers - {slot}
  {
    hide SaveReport, ReplaceReport, PutMarker, PutToken, FollowMarker, LoadReport, BindTree, AfterRead, AfterRename;
  }

  lemma MarkerNames(r: Report, root: string, phase: Phase)
    ensures MarkerFor(root, phase, r).reportId == r.id
  {
  }

  lemma StepKeepsReports(h: Hashes, s: State, step: Step, t: State)
    requires Inv(h, s) && Apply(h, s, step) == Some(t)
    ensures ReportsInv(h, t)
  {
    hide Apply, MarkersInv, TokensInv, CountsInv, StartsInv, AllBuilt, Stored;
    Frame(h, s, step, t);
    if step.Save? {
      SaveStep(h, s, step.report, t);
      SaveStored(h, s, step.report);
    } else if step.Replace? || step.Prune? {
      RewriteStep(h, s, step, t);
      if step.Replace? {
        assert Stored(h, s.built, step.report.id, s.reports[step.report.id]);
        ReplaceStored(h, s.built, step.report.id, s.reports[step.report.id], step.report);
      }
    }
  }

  lemma SaveStored(h: Hashes, s: State, r: Report)
    requires ReportsInv(h, s) && r.id !in s.built && Bound(h, r)
    ensures AllBuilt(h, s.built[r.id := r]) && Stored(h, s.built[r.id := r], r.id, r)
    ensures forall id, q :: Stored(h, s.built, id, q) ==> Stored(h, s.built[r.id := r], id, q)
  {
    hide Bound, GrantOf;
  }

  lemma ReplaceStored(h: Hashes, built: map<string, Report>, id: string, q: Report, r: Report)
    requires Stored(h, built, id, q) && r.id == id && Bound(h, r) && GrantOf(q) == GrantOf(r)
    ensures Stored(h, built, id, r)
  {
  }

  lemma RewriteStep(h: Hashes, s: State, step: Step, t: State)
    requires Apply(h, s, step) == Some(t)
    ensures step.Replace? ==>
              && step.report.id in s.reports && Bound(h, step.report)
              && GrantOf(s.reports[step.report.id]) == GrantOf(step.report)
              && t.reports == s.reports[step.report.id := step.report]
    ensures step.Prune? ==> t.reports == s.reports - {step.id}
  {
    hide SaveReport, PutMarker, PutToken, FollowMarker, LoadReport, BindTree, AfterRead, AfterRename, Bound, GrantOf;
  }

  lemma StepKeepsTokens(h: Hashes, s: State, step: Step, t: State)
    requires Inv(h, s) && Apply(h, s, step) == Some(t)
    ensures TokensInv(t)
  {
    hide Apply, MarkersInv, CountsInv, StartsInv, ReportsInv, PendingInv, CreatorsInv, HoldersInv;
    PendingStays(h, s, step, t);
    CreatorsStay(h, s, step, t);
    HoldersStay(h, s, step, t);
  }

  lemma PendingStays(h: Hashes, s: State, step: Step, t: State)
    requires ReportsInv(h, s) && PendingInv(s) && CreatorsInv(s) && Apply(h, s, step) == Some(t)
    ensures PendingInv(t)
  {
    hide Apply, Bound, GrantOf, TokenOf;
    Frame(h, s, step, t);
    if step.Save? {
      SaveStep(h, s, step.report, t);
    } else if step.CreateToken? {
      CreateStep(h, s, step.process, t);
    } else if step.RenameToken? {
      RenameStep(h, s, step.process, step.stamped, t);
    } else if step.Cancel? {
      OtherTokenStep(h, s, step, t);
    }
  }

  lemma CreatorsStay(h: Hashes, s: State, step: Step, t: State)
    requires CreatorsInv(s) && Apply(h, s, step) == Some(t)
    ensures CreatorsInv(t)
  {
    hide Apply, Bound, GrantOf, TokenOf;
    Frame(h, s, step, t);
    if step.Save? {
      SaveStep(h, s, step.report, t);
    } else if step.CreateToken? {
      CreateStep(h, s, step.process, t);
    } else if step.CheckAbsent? {
      OtherTokenStep(h, s, step, t);
    }
  }

  lemma HoldersStay(h: Hashes, s: State, step: Step, t: State)
    requires PendingInv(s) && HoldersInv(s) && Apply(h, s, step) == Some(t)
    ensures HoldersInv(t)
  {
    hide Apply, Bound, GrantOf, TokenOf, AfterRead;
    Frame(h, s, step, t);
    if step.Save? {
      SaveStep(h, s, step.report, t);
    } else if step.RenameToken? {
      RenameStep(h, s, step.process, step.stamped, t);
    } else if step.ReadToken? {
      ReadStep(h, s, step.process, t);
      AfterReadMeans(s, step.process);
    } else if step.ReadDirectory? {
      OtherTokenStep(h, s, step, t);
    }
  }

  lemma AfterReadMeans(s: State, p: int)
    requires p in s.consumers && s.consumers[p].Scanning?
    ensures forall q :: q in AfterRead(s, p) && q != p ==> q in s.consumers && AfterRead(s, p)[q] == s.consumers[q]
    ensures p in AfterRead(s, p) && AfterRead(s, p)[p].Holding? ==>
              var c := AfterRead(s, p)[p];
              c.name in s.pending && c.token == s.pending[c.name] && c.token.grant == c.want
  {
  }

  lemma OtherTokenStep(h: Hashes, s: State, step: Step, t: State)
    requires Apply(h, s, step) == Some(t)
    ensures step.CheckAbsent? ==> Approved(s.built, step.id) && t.creators == s.creators[step.process := step.id]
    ensures step.Cancel? ==> t.pending == s.pending - {step.name}
    ensures step.ReadDirectory? ==> t.consumers == s.consumers[step.process := Scanning(step.want, step.names)]
  {
    hide SaveReport, ReplaceReport, PutMarker, PutToken, FollowMarker, LoadReport, BindTree, AfterRead, AfterRename;
  }

  lemma StepKeepsStarts(h: Hashes, s: State, step: Step, t: State)
    requires Inv(h, s) && Apply(h, s, step) == Some(t)
    ensures StartsInv(h, t)
  {
    hide Apply, MarkersInv, ReportsInv, CountsInv, TokensInv, WellLoaded, WellPointed, Bound, GrantOf;
    Frame(h, s, step, t);
    StepGrows(h, s, step, t);
    forall l | WellLoaded(h, s, l) ensures WellLoaded(h, t, l) {
      StaysWellLoaded(h, s, t, l);
    }
    forall c: Starter | c.Pointed? && WellPointed(s, c) ensures WellPointed(t, c) {
      StaysWellPointed(s, t, c);
    }
    if step.ReadMarker? {
      PointStep(h, s, step.process, step.slot, step.fingerprint, t);
      MarkerIsWell(s, step.slot, step.fingerprint);
    } else if step.ReadReport? {
      LoadStep(h, s, step.process, t);
      ReportIsWell(h, s, s.starters[step.process]);
    } else if step.CheckLive? {
      LiveStep(h, s, step.process, t);
    } else if step.Bind? {
      BindStep(h, s, step.process, t);
      assert s.starters[step.process].loaded.at <= |s.log| by { LoadedEarlier(h, s, s.starters[step.process].loaded); }
    }
  }

  lemma LoadedEarlier(h: Hashes, s: State, l: Loaded)
    requires WellLoaded(h, s, l)
    ensures l.at <= |s.log|
  {
  }

  lemma MarkerIsWell(s: State, slot: Slot, fingerprint: string)
    requires MarkersInv(s) && slot in s.markers && s.markers[slot].allows
    ensures WellPointed(s, Pointed(slot, fingerprint, s.markers[slot], |s.log|))
  {
    assert s.log[..|s.log|] == s.log;
    LastWriteIsWritten(s.log, slot);
    assert Genuine(s.built, Write(slot, s.markers[slot]));
  }

  lemma ReportIsWell(h: Hashes, s: State, c: Starter)
    requires ReportsInv(h, s) && c.Pointed? && WellPointed(s, c) && c.marker.reportId in s.reports
    requires Describes(c.marker, s.reports[c.marker.reportId]) && c.marker.fingerprint == c.fingerprint
    ensures WellLoaded(h, s, Loaded(c.slot, c.fingerprint, s.reports[c.marker.reportId], c.at))
  {
  }

  lemma {:induction false} LastWriteIsWritten(log: seq<Write>, slot: Slot)
    requires LastWrite(log, slot).Some?
    ensures Write(slot, LastWrite(log, slot).value) in log
  {
    if log[|log| - 1].slot != slot {
      LastWriteIsWritten(log[..|log| - 1], slot);
    }
  }

  // ---------------------------------------------------------------- counting tokens

  lemma AddToken(pending: map<string, Token>, name: string, token: Token, g: Grant)
    ensures PendingFor(pending[name := token], g) <= PendingFor(pending, g) + if token.grant == g then 1 else 0
  {
    var before := set n | n in pending && pending[n].grant == g;
    var more := pending[name := token];
    var after := set n | n in more && more[n].grant == g;
    if token.grant == g {
      assert after <= before + {name};
      SubsetSize(after, before + {name});
    } else {
      assert after <= before;
      SubsetSize(after, before);
    }
  }

  lemma RemoveToken(pending: map<string, Token>, name: string, g: Grant)
    ensures PendingFor(pending - {name}, g) == PendingFor(pending, g) -
              if name in pending && pending[name].grant == g then 1 else 0
  {
    var before := set n | n in pending && pending[n].grant == g;
    var less := pending - {name};
    var after := set n | n in less && less[n].grant == g;
    assert after == before - {name};
  }

  lemma {:induction false} SubsetSize<T>(a: set<T>, b: set<T>)
    requires a <= b
    ensures |a| <= |b|
  {
    if a != {} {
      var x :| x in a;
      SubsetSize(a - {x}, b - {x});
    }
  }

  lemma StepKeepsCounts(h: Hashes, s: State, step: Step, t: State)
    requires Inv(h, s) && Apply(h, s, step) == Some(t)
    ensures CountsInv(t)
  {
    hide Apply, MarkersInv, StartsInv, ReportsInv, TokensInv, PendingFor;
    forall g: Grant
      ensures t.spent[g] + PendingFor(t.pending, g) <= t.created[g]
      ensures t.overrides[g] + t.held[g] <= t.spent[g]
    {
      SpentStays(h, s, step, t, g);
      HeldStays(h, s, step, t, g);
    }
  }

  lemma SpentStays(h: Hashes, s: State, step: Step, t: State, g: Grant)
    requires TokensInv(s) && CountsInv(s) && Apply(h, s, step) == Some(t)
    ensures t.spent[g] + PendingFor(t.pending, g) <= t.created[g]
  {
    hide Apply, GrantOf, PendingFor;
    Frame(h, s, step, t);
    if step.CreateToken? {
      CreateStep(h, s, step.process, t);
      AddToken(s.pending, s.built[s.creators[step.process]].id, TokenOf(s.built[s.creators[step.process]]), g);
    } else if step.Cancel? {
      OtherTokenStep(h, s, step, t);
      RemoveToken(s.pending, step.name, g);
    } else if step.RenameToken? {
      RenameStep(h, s, step.process, step.stamped, t);
      RemoveToken(s.pending, s.consumers[step.process].name, g);
    }
  }

  lemma HeldStays(h: Hashes, s: State, step: Step, t: State, g: Grant)
    requires CountsInv(s) && Apply(h, s, step) == Some(t)
    ensures t.overrides[g] + t.held[g] <= t.spent[g]
  {
    hide Apply, GrantOf, PendingFor;
    Frame(h, s, step, t);
    if step.Save? {
      SaveStep(h, s, step.report, t);
    } else if step.RenameToken? {
      RenameStep(h, s, step.process, step.stamped, t);
    }
  }

  lemma StepKeepsCreated(h: Hashes, s: State, step: Step, t: State)
    requires Inv(h, s) && Apply(h, s, step) == Some(t)
    ensures CreatedInv(t)
  {
    hide Apply, MarkersInv, CountsInv, StartsInv, ReportsInv, GrantOf, Bound;
    Frame(h, s, step, t);
    StepGrows(h, s, step, t);
    if step.CreateToken? {
      CreateStep(h, s, step.process, t);
    }
    forall g: Grant | g in t.created ensures exists id :: Approved(t.built, id) && GrantOf(t.built[id]) == g {
      if g in s.created {
        var id :| Approved(s.built, id) && GrantOf(s.built[id]) == g;
        assert Approved(t.built, id);
      } else {
        assert Approved(t.built, s.creators[step.process]);
      }
    }
  }

  lemma {:induction false} RunKeepsInv(h: Hashes, s: State, steps: seq<Step>, t: State)
    requires Inv(h, s) && Run(h, s, steps) == Some(t)
    ensures Inv(h, t) && Grows(s, t)
    decreases |steps|
  {
    hide Inv, Apply;
    if steps != [] {
      var next := Apply(h, s, steps[0]).value;
      StepKeepsInv(h, s, steps[0], next);
      RunKeepsInv(h, next, steps[1..], t);
    }
  }

  lemma StepKeepsInv(h: Hashes, s: State, step: Step, t: State)
    requires Inv(h, s) && Apply(h, s, step) == Some(t)
    ensures Inv(h, t) && Grows(s, t)
  {
    hide MarkersInv, ReportsInv, TokensInv, CreatedInv, CountsInv, StartsInv, Apply, Grows;
    StepGrows(h, s, step, t);
    StepKeepsCreated(h, s, step, t);
    StepKeepsMarkers(h, s, step, t);
    StepKeepsReports(h, s, step, t);
    StepKeepsTokens(h, s, step, t);
    StepKeepsStarts(h, s, step, t);
    StepKeepsCounts(h, s, step, t);
  }

  lemma InitiallyInv(h: Hashes, trees: map<Slot, seq<Record>>, live: set<string>)
    ensures Inv(h, Initial(trees, live))
  {
  }

  // ---------------------------------------------------------------- what every run guarantees

  ghost predicate Injective(h: Hashes) {
    forall a: seq<Record>, b: seq<Record> :: h.content(a) == h.content(b) ==> a == b
  }

  /** A phase that started did so under a report `b` that a scan of its own
      transaction built: when it read its marker, the last marker of its root,
      phase and transaction was the one for `b`, which allows under the policy of
      the phase; and when it bound the tree, that had the binding of the manifest of
      `b`.  At that moment the last marker still was the one for `b` unless one was
      written in between, and it allowed if and only if the last one written in
      between, if any, allows. */
  lemma StartsAreAuthorized(h: Hashes, trees: map<Slot, seq<Record>>, live: set<string>, steps: seq<Step>, s: State,
                            e: Start)
    returns (b: Report)
    requires Injective(h)
    requires Run(h, Initial(trees, live), steps) == Some(s) && e in s.starts
    ensures b.id in s.built && s.built[b.id] == b && e.loaded.at <= e.boundAt <= |s.log|
    ensures var slot := e.loaded.slot;
            var marker := Some(MarkerFor(slot.root, slot.phase, b));
            && LastWrite(s.log[..e.loaded.at], slot) == marker
            && b.allows && b.fingerprint == e.loaded.fingerprint && b.transaction == slot.transaction
            && h.binding(e.tree) == h.binding(b.manifest)
            && (NoWrite(s.log, slot, e.loaded.at, e.boundAt) ==> LastWrite(s.log[..e.boundAt], slot) == marker)
    ensures var slot, between := e.loaded.slot, LastWrite(s.log[e.loaded.at..e.boundAt], e.loaded.slot);
            && (between.None? <==> NoWrite(s.log, slot, e.loaded.at, e.boundAt))
            && (between.Some? ==> LastWrite(s.log[..e.boundAt], slot) == between)
            && LastWrite(s.log[..e.boundAt], slot).Some?
            && (LastWrite(s.log[..e.boundAt], slot).value.allows <==> between.None? || between.value.allows)
  {
    hide Run, Apply, TokensInv, CountsInv, CreatedInv, MarkerFor, NoWrite, LastWrite;
    InitiallyInv(h, trees, live);
    RunKeepsInv(h, Initial(trees, live), steps, s);
    assert WellStarted(h, s, e);
    var slot, log := e.loaded.slot, s.log[..e.loaded.at];
    var m := LastWrite(log, slot).value;
    b := s.built[m.reportId];
    LastWriteIsWritten(log, slot);
    assert Write(slot, m) in s.log;
    assert Genuine(s.built, Write(slot, m));
    LastWriteSplit(log, s.log[e.loaded.at..e.boundAt], slot);
    WrittenExactly(s.log, slot, e.loaded.at, e.boundAt);
    assert log + s.log[e.loaded.at..e.boundAt] == s.log[..e.boundAt];
    MarkerAllows(slot, b);
  }

  lemma MarkerAllows(slot: Slot, b: Report)
    ensures MarkerFor(slot.root, slot.phase, b).allows == b.allows
  {
  }

  /** Once a blocking scan has written its marker, no phase can start out from a
      marker of that slot until another one is written to it. */
  lemma BlockRevokes(h: Hashes, trees: map<Slot, seq<Record>>, live: set<string>, steps: seq<Step>, s: State,
                     root: string, phase: Phase, id: string, blocked: State, more: seq<Step>, t: State, process: int,
                     fingerprint: string)
    requires Run(h, Initial(trees, live), steps) == Some(s)
    requires Apply(h, s, WriteMarker(root, phase, id)) == Some(blocked) && id in s.built && !s.built[id].allows
    requires Run(h, blocked, more) == Some(t)
    ensures |blocked.log| <= |t.log|
    ensures var slot := Slot(root, phase, s.built[id].transaction);
            NoWrite(t.log, slot, |blocked.log|, |t.log|) ==> Apply(h, t, ReadMarker(process, slot, fingerprint)) == None
  {
    hide Run, Apply, TokensInv, CountsInv, CreatedInv, ReportsInv, StartsInv;
    InitiallyInv(h, trees, live);
    RunKeepsInv(h, Initial(trees, live), steps, s);
    StepKeepsInv(h, s, WriteMarker(root, phase, id), blocked);
    RunKeepsInv(h, blocked, more, t);
    WriteStep(h, s, root, phase, id, blocked);
    var slot := Slot(root, phase, s.built[id].transaction);
    if NoWrite(t.log, slot, |blocked.log|, |t.log|) {
      LastWriteUnchanged(t.log, slot, |blocked.log|, |t.log|);
      assert t.log[..|t.log|] == t.log && t.log[..|blocked.log|] == blocked.log;
      CannotLoad(h, t, process, slot, fingerprint);
    }
  }

  lemma CannotLoad(h: Hashes, s: State, process: int, slot: Slot, fingerprint: string)
    requires slot in s.markers ==> !s.markers[slot].allows
    ensures Apply(h, s, ReadMarker(process, slot, fingerprint)) == None
  {
  }

  /** However the processes interleave, no more reports are overridden than tokens
      were spent, no more tokens are spent than were created, and each was created
      for a saved report of this package, phase, content and policy that was open
      to approval. */
  lemma ApprovalsAreOneTime(h: Hashes, trees: map<Slot, seq<Record>>, live: set<string>, steps: seq<Step>, s: State,
                            g: Grant)
    requires Run(h, Initial(trees, live), steps) == Some(s)
    ensures s.overrides[g] <= s.spent[g] && s.spent[g] + PendingFor(s.pending, g) <= s.created[g]
    ensures s.spent[g] > 0 ==> exists id :: Approved(s.built, id) && GrantOf(s.built[id]) == g
  {
    hide Run, Apply, MarkersInv, ReportsInv, TokensInv, StartsInv, PendingFor, GrantOf;
    InitiallyInv(h, trees, live);
    RunKeepsInv(h, Initial(trees, live), steps, s);
    if s.spent[g] > 0 {
      assert g in s.created;
    }
  }

  function WithStarter(s: State, p: int, c: Starter): State {
    s.(starters := s.starters[p := c])
  }

  lemma Restarted(s: State, p: int, a: Starter, b: Starter)
    ensures WithStarter(WithStarter(s, p, a), p, b) == WithStarter(s, p, b)
  {
    assert s.starters[p := a][p := b] == s.starters[p := b];
  }

  /** What the three steps of loading do, one after the other. */
  function LoadInSteps(s: State, p: int, slot: Slot, fingerprint: string): Option<State> {
    match FollowMarker(s, p, slot, fingerprint)
    case None => None
    case Some(s1) =>
      match LoadReport(s1, p)
      case None => None
      case Some(s2) => SeeAlive(s2, p)
  }

  lemma PointedLoads(s: State, p: int, c: Starter)
    requires c.Pointed?
    ensures LoadReport(WithStarter(s, p, c), p) ==
            if c.marker.reportId !in s.reports then None else
              var r := s.reports[c.marker.reportId];
              if Describes(c.marker, r) && c.marker.fingerprint == c.fingerprint
                && c.marker.transaction == c.slot.transaction && r.transaction == c.slot.transaction
              then Some(WithStarter(s, p, Matched(Loaded(c.slot, c.fingerprint, r, c.at))))
              else None
  {
    hide Describes;
    if c.marker.reportId in s.reports {
      Restarted(s, p, c, Matched(Loaded(c.slot, c.fingerprint, s.reports[c.marker.reportId], c.at)));
    }
  }

  lemma MatchedIsSeen(s: State, p: int, l: Loaded)
    ensures SeeAlive(WithStarter(s, p, Matched(l)), p) ==
            if l.slot.transaction in s.live then Some(WithStarter(s, p, Ready(l))) else None
  {
    Restarted(s, p, Matched(l), Ready(l));
  }

  lemma StepsLoadLive(s: State, p: int, slot: Slot, fingerprint: string)
    ensures var live := LoadLive(s.markers, s.reports, slot, fingerprint, slot.transaction in s.live);
            LoadInSteps(s, p, slot, fingerprint) ==
            if live.None? then None else Some(WithStarter(s, p, Ready(Loaded(slot, fingerprint, live.value, |s.log|))))
  {
    hide Describes, LoadReport, SeeAlive;
    if slot in s.markers {
      var m := s.markers[slot];
      PointedLoads(s, p, Pointed(slot, fingerprint, m, |s.log|));
      if m.reportId in s.reports {
        MatchedIsSeen(s, p, Loaded(slot, fingerprint, s.reports[m.reportId], |s.log|));
      }
    }
  }

  /** Undisturbed, reading marker, report and liveness one after the other succeeds
      exactly when the report of a live marker can be loaded, and loads it. */
  lemma LoadIsARun(h: Hashes, s: State, p: int, slot: Slot, fingerprint: string)
    ensures var live := LoadLive(s.markers, s.reports, slot, fingerprint, slot.transaction in s.live);
            Run(h, s, [ReadMarker(p, slot, fingerprint), ReadReport(p), CheckLive(p)]) ==
            if live.None? then None
            else Some(s.(starters := s.starters[p := Ready(Loaded(slot, fingerprint, live.value, |s.log|))]))
  {
    hide Run, Apply, FollowMarker, LoadReport, SeeAlive, LoadLive;
    var all := [ReadMarker(p, slot, fingerprint), ReadReport(p), CheckLive(p)];
    var rest, last := [ReadReport(p), CheckLive(p)], [CheckLive(p)];
    assert all[1..] == rest && rest[1..] == last && last[1..] == [];
    StepsLoadLive(s, p, slot, fingerprint);
    RunUnfolds(h, s, all);
    LoadingSteps(h, s, p, slot, fingerprint);
    if Apply(h, s, all[0]).Some? {
      var s1 := Apply(h, s, all[0]).value;
      RunUnfolds(h, s1, rest);
      LoadingSteps(h, s1, p, slot, fingerprint);
      if Apply(h, s1, rest[0]).Some? {
        var s2 := Apply(h, s1, rest[0]).value;
        RunUnfolds(h, s2, last);
        LoadingSteps(h, s2, p, slot, fingerprint);
        if Apply(h, s2, last[0]).Some? {
          RunEnds(h, Apply(h, s2, last[0]).value);
        }
      }
    }
  }

  lemma LoadingSteps(h: Hashes, s: State, p: int, slot: Slot, fingerprint: string)
    ensures Apply(h, s, ReadMarker(p, slot, fingerprint)) == FollowMarker(s, p, slot, fingerprint)
    ensures Apply(h, s, ReadReport(p)) == LoadReport(s, p)
    ensures Apply(h, s, CheckLive(p)) == SeeAlive(s, p)
  {
    hide SaveReport, ReplaceReport, PutMarker, PutToken, FollowMarker, LoadReport, BindTree, AfterRead, AfterRename;
  }

  lemma RunUnfolds(h: Hashes, s: State, steps: seq<Step>)
    requires steps != []
    ensures Run(h, s, steps) ==
            match Apply(h, s, steps[0])
            case None => None
            case Some(next) => Run(h, next, steps[1..])
  {
    hide Apply;
  }

  // ---------------------------------------------------------------- the gap

  function Plain(h: Hashes, id: string, allows: bool): Report {
    Report(id, "tx", "pkg", Pre, allows, if allows then Allowed else Blocked, h.content([]), "fp",
           Reviewer(false, false, "", false, []), true, [], [], false, false, false, None)
  }

  const HERE := Slot("/build/pkg", Pre, "tx")

  /** A scan allows. */
  lemma ScanAllows(h: Hashes, s0: State) returns (s1: State, s2: State)
    requires s0 == Initial(map[HERE := []], {"tx"})
    ensures Apply(h, s0, Save(Plain(h, "a", true))) == Some(s1)
    ensures Apply(h, s1, WriteMarker(HERE.root, Pre, "a")) == Some(s2)
    ensures var a := Plain(h, "a", true);
            var m := MarkerFor(HERE.root, Pre, a);
            s2 == s0.(reports := map["a" := a], built := map["a" := a], markers := map[HERE := m],
              log := [Write(HERE, m)])
  {
    hide FollowMarker, LoadReport, BindTree, PutToken, ReplaceReport, AfterRead, AfterRename, MarkerFor;
    var a := Plain(h, "a", true);
    s1 := Apply(h, s0, Save(a)).value;
    s2 := Apply(h, s1, WriteMarker(HERE.root, Pre, "a")).value;
  }

  lemma MarkerOfPlain(h: Hashes)
    ensures var a := Plain(h, "a", true);
            var m := MarkerFor(HERE.root, Pre, a);
            && m.root == HERE.root && m.phase == HERE.phase && m.allows && m.reportId == "a" && m.fingerprint == "fp"
            && m.transaction == HERE.transaction == a.transaction && Describes(m, a)
  {
  }

  /** A phase loads its report. */
  lemma PhaseLoads(h: Hashes, s2: State) returns (s3: State, s4: State, s5: State)
    requires var a := Plain(h, "a", true);
             s2.reports == map["a" := a] && s2.markers == map[HERE := MarkerFor(HERE.root, Pre, a)] && "tx" in s2.live
    ensures Apply(h, s2, ReadMarker(1, HERE, "fp")) == Some(s3)
    ensures Apply(h, s3, ReadReport(1)) == Some(s4)
    ensures Apply(h, s4, CheckLive(1)) == Some(s5)
    ensures s5 == s2.(starters := s2.starters[1 := Ready(Loaded(HERE, "fp", Plain(h, "a", true), |s2.log|))])
  {
    hide Apply, FollowMarker, LoadReport, SeeAlive, Describes, Plain, MarkerFor;
    MarkerOfPlain(h);
    StepsLoadLive(s2, 1, HERE, "fp");
    LoadingSteps(h, s2, 1, HERE, "fp");
    s3 := FollowMarker(s2, 1, HERE, "fp").value;
    LoadingSteps(h, s3, 1, HERE, "fp");
    s4 := LoadReport(s3, 1).value;
    LoadingSteps(h, s4, 1, HERE, "fp");
    s5 := SeeAlive(s4, 1).value;
  }

  /** Another scan blocks, and the phase binds its tree. */
  lemma PhaseBinds(h: Hashes, s5: State) returns (s6: State, s7: State, s8: State)
    requires s5.built == map["a" := Plain(h, "a", true)] && HERE in s5.trees && s5.trees[HERE] == [] && s5.starts == []
    requires 1 in s5.starters && s5.starters[1].Ready? && s5.starters[1].loaded.slot == HERE
    requires s5.starters[1].loaded.report == Plain(h, "a", true)
    ensures Apply(h, s5, Save(Plain(h, "b", false))) == Some(s6)
    ensures Apply(h, s6, WriteMarker(HERE.root, Pre, "b")) == Some(s7)
    ensures Apply(h, s7, Bind(1)) == Some(s8)
    ensures |s8.starts| == 1 && s8.starts[0].loaded.slot == HERE && s8.starts[0].boundAt == |s8.log|
    ensures s8.log != [] && s8.log[|s8.log| - 1] == Write(HERE, MarkerFor(HERE.root, Pre, Plain(h, "b", false)))
  {
    s6 := Apply(h, s5, Save(Plain(h, "b", false))).value;
    s7 := Apply(h, s6, WriteMarker(HERE.root, Pre, "b")).value;
    s8 := Apply(h, s7, Bind(1)).value;
  }

  /** Verification loads the report and then binds the tree: a scan that blocks in
      between is not seen, although nothing in the tree changed. */
  lemma LateBlockIsNotSeen(h: Hashes) returns (steps: seq<Step>, s: State)
    ensures Run(h, Initial(map[HERE := []], {"tx"}), steps) == Some(s)
    ensures |s.starts| == 1 && s.starts[0].boundAt == |s.log|
    ensures LastWrite(s.log, s.starts[0].loaded.slot).Some? && !LastWrite(s.log, s.starts[0].loaded.slot).value.allows
  {
    hide Run, LastWrite, Apply, Plain;
    var s0 := Initial(map[HERE := []], {"tx"});
    var s1, s2 := ScanAllows(h, s0);
    var s3, s4, s5 := PhaseLoads(h, s2);
    var s6, s7, s8 := PhaseBinds(h, s5);
    s := s8;
    RunEnds(h, s);
    RunStep(h, s7, Bind(1), [], s);
    steps := [Bind(1)] + [];
    RunStep(h, s6, WriteMarker(HERE.root, Pre, "b"), steps, s7);
    steps := [WriteMarker(HERE.root, Pre, "b")] + steps;
    RunStep(h, s5, Save(Plain(h, "b", false)), steps, s6);
    steps := [Save(Plain(h, "b", false))] + steps;
    RunStep(h, s4, CheckLive(1), steps, s5);
    steps := [CheckLive(1)] + steps;
    RunStep(h, s3, ReadReport(1), steps, s4);
    steps := [ReadReport(1)] + steps;
    RunStep(h, s2, ReadMarker(1, HERE, "fp"), steps, s3);
    steps := [ReadMarker(1, HERE, "fp")] + steps;
    RunStep(h, s1, WriteMarker(HERE.root, Pre, "a"), steps, s2);
    steps := [WriteMarker(HERE.root, Pre, "a")] + steps;
    RunStep(h, s0, Save(Plain(h, "a", true)), steps, s1);
    steps := [Save(Plain(h, "a", true))] + steps;
    LastOfLog(s.log, HERE);
    PlainBlocks(h);
  }

  lemma PlainBlocks(h: Hashes)
    ensures !Plain(h, "b", false).allows
  {
  }

  lemma LastOfLog(log: seq<Write>, slot: Slot)
    requires log != [] && log[|log| - 1].slot == slot
    ensures LastWrite(log, slot) == Some(log[|log| - 1].marker)
  {
  }

  lemma RunEnds(h: Hashes, s: State)
    ensures Run(h, s, []) == Some(s)
  {
  }

  lemma RunStep(h: Hashes, s: State, step: Step, rest: seq<Step>, next: State)
    requires Apply(h, s, step) == Some(next)
    ensures Run(h, s, [step] + rest) == Run(h, next, rest)
  {
    hide Apply;
    var steps := [step] + rest;
    assert steps[0] == step && steps[1..] == rest;
  }
}
