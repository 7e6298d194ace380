/** The approval store of internal/audit/approvals.go as one process sees it, and
    how its operations break down into steps of the decision protocol. */
module Approvals {
  import opened Text
  import opened DecisionPolicy
  import opened DecisionProtocol

  /** The first listed token file that grants what is wanted. */
  function FirstMatch(pending: map<string, Token>, names: seq<string>, want: Grant): (name: Option<string>)
    ensures name.Some? ==> name.value in pending && pending[name.value].grant == want
  {
    if names == [] then None
    else if names[0] in pending && pending[names[0]].grant == want then Some(names[0])
    else FirstMatch(pending, names[1..], want)
  }

  /** None of the listed files grants what is wanted, or the result is the first that
      does. */
  lemma {:induction false} FirstMatchExactly(pending: map<string, Token>, names: seq<string>, want: Grant, i: nat)
    requires i <= |names| && forall j :: 0 <= j < i ==> !(names[j] in pending && pending[names[j]].grant == want)
    requires i < |names| ==> names[i] in pending && pending[names[i]].grant == want
    ensures FirstMatch(pending, names, want) == if i < |names| then Some(names[i]) else None
  {
    if i > 0 {
      FirstMatchExactly(pending, names[1..], want, i - 1);
    }
  }

  /** `pending` and `used` are the two directories, by file name. */
  class ApprovalStore {
    var pending: map<string, Token>
    var used: map<string, Token>

    constructor ()
      ensures pending == map[] && used == map[]
    {
      pending, used := map[], map[];
    }

    method Create(r: Report, reason: string) returns (ok: bool)
      modifies this`pending
      ensures ok <==> r.approvalEligible && 4 <= |reason| <= 2000 && r.id !in old(pending)
      ensures pending == if ok then old(pending)[r.id := TokenOf(r)] else old(pending)
      ensures ok ==> pending[r.id] == Token(r.id, Grant(r.packageBase, r.phase, r.contentHash, r.fingerprint))
    {
      if !r.approvalEligible || |reason| < 4 || |reason| > 2000 || r.id in pending {
        return false;
      }
      pending := pending[r.id := TokenOf(r)];
      return true;
    }

    /** `names` is the sorted listing of the directory. */
    method Consume(want: Grant, names: seq<string>) returns (token: Option<Token>)
      modifies this
      ensures var name := FirstMatch(old(pending), names, want);
              if name.None? then token == None && pending == old(pending) && used == old(used)
              else
                && token == Some(old(pending)[name.value]) && token.value.grant == want
                && pending == old(pending) - {name.value} && used == old(used)[name.value := token.value]
    {
      for i := 0 to |names|
        invariant pending == old(pending) && used == old(used)
        invariant FirstMatch(old(pending), names, want) == FirstMatch(old(pending), names[i..], want)
      {
        var name := names[i];
        assert names[i..][0] == name && names[i..][1..] == names[i + 1..];
        if name !in pending || pending[name].grant != want {
          continue;
        }
        assert FirstMatch(old(pending), names, want) == Some(name);
        var found := pending[name];
        pending, used := pending - {name}, used[name := found];
        return Some(found);
      }
      assert names[|names|..] == [];
      return None;
    }

    method CancelPending(name: string)
      modifies this`pending
      ensures pending == old(pending) - {name}
    {
      pending := pending - {name};
    }
  }

  /** Undisturbed, creating a token is two steps. */
  lemma CreateIsARun(h: Hashes, s: State, process: int, id: string) returns (t: State)
    requires id in s.built && s.built[id].id == id && s.built[id].approvalEligible && id !in s.pending
    ensures Run(h, s, [CheckAbsent(process, id)] + [CreateToken(process)]) == Some(t)
    ensures t.pending == s.pending[id := TokenOf(s.built[id])]
              && t.created == s.created + multiset{GrantOf(s.built[id])}
  {
    hide Run;
    var checked := Apply(h, s, CheckAbsent(process, id)).value;
    t := Apply(h, checked, CreateToken(process)).value;
    RunEnds(h, t);
    RunStep(h, checked, CreateToken(process), [], t);
    assert [CreateToken(process)] + [] == [CreateToken(process)];
    RunStep(h, s, CheckAbsent(process, id), [CreateToken(process)], checked);
  }

  /** Undisturbed, the steps of a consumer take exactly the token that Consume takes. */
  lemma ConsumeIsARun(h: Hashes, s: State, process: int, want: Grant, names: seq<string>)
    returns (steps: seq<Step>, t: State)
    ensures Run(h, s, steps) == Some(t)
    ensures Taken(s, t, FirstMatch(s.pending, names, want), want)
  {
    hide Run, Apply, FirstMatch;
    var listed := s.(consumers := s.consumers[process := Scanning(want, names)]);
    assert Apply(h, s, ReadDirectory(process, want, names)) == Some(listed) by { Listing(h, s, process, want, names); }
    steps, t := ScanIsARun(h, listed, process);
    RunStep(h, s, ReadDirectory(process, want, names), steps, listed);
    steps := [ReadDirectory(process, want, names)] + steps;
  }

  /** From s to t the token file `name` was spent, or nothing was. */
  ghost predicate Taken(s: State, t: State, name: Option<string>, want: Grant) {
    if name.None? then t.pending == s.pending && t.spent == s.spent && t.held == s.held
    else
      && t.pending == s.pending - {name.value}
      && t.spent == s.spent + multiset{want} && t.held == s.held + multiset{want}
  }

  lemma Listing(h: Hashes, s: State, process: int, want: Grant, names: seq<string>)
    ensures Apply(h, s, ReadDirectory(process, want, names)) ==
              Some(s.(consumers := s.consumers[process := Scanning(want, names)]))
  {
  }

  lemma {:induction false} ScanIsARun(h: Hashes, s: State, process: int) returns (steps: seq<Step>, t: State)
    requires process in s.consumers && s.consumers[process].Scanning?
    ensures Run(h, s, steps) == Some(t)
    ensures var c := s.consumers[process]; Taken(s, t, FirstMatch(s.pending, c.names, c.want), c.want)
    decreases |s.consumers[process].names|
  {
    hide Run, Apply;
    var c := s.consumers[process];
    var next := s.(consumers := AfterRead(s, process));
    assert Apply(h, s, ReadToken(process)) == Some(next) by { Reading(h, s, process); }
    if c.names == [] {
      steps, t := [], next;
      RunEnds(h, t);
    } else if c.names[0] in s.pending && s.pending[c.names[0]].grant == c.want {
      t := AfterRename(next, process, true);
      assert Apply(h, next, RenameToken(process, true)) == Some(t) by { Renaming(h, next, process); }
      RunEnds(h, t);
      RunStep(h, next, RenameToken(process, true), [], t);
      steps := [RenameToken(process, true)] + [];
    } else {
      steps, t := ScanIsARun(h, next, process);
    }
    RunStep(h, s, ReadToken(process), steps, next);
    steps := [ReadToken(process)] + steps;
  }

  lemma Reading(h: Hashes, s: State, process: int)
    requires process in s.consumers && s.consumers[process].Scanning?
    ensures Apply(h, s, ReadToken(process)) == Some(s.(consumers := AfterRead(s, process)))
  {
    hide AfterRead;
  }

  lemma Renaming(h: Hashes, s: State, process: int)
    requires process in s.consumers && s.consumers[process].Holding?
    ensures Apply(h, s, RenameToken(process, true)) == Some(AfterRename(s, process, true))
  {
    hide AfterRename;
  }
}
