/** Process ownership from lineage evidence (pt-common/src/lineage_evidence.rs). */
module Lineage {
  import opened Wrappers
  import opened Provenance
  import opened Strings

  datatype SupervisorKind =
    | Systemd | Launchd | Container | Supervisord | TerminalMultiplexer | ShellJob | Init | UnknownKind

  datatype Supervisor = Supervisor(
    kind: SupervisorKind, unitName: Option<string>, autoRestart: Option<bool>, confidence: Confidence)

  datatype Ancestor = Ancestor(pid: nat, comm: string, uid: nat)

  datatype Tty = Tty(device: string, hasControllingTty: bool, isSessionLeader: bool)

  datatype Evidence = Evidence(
    pid: nat, ppid: nat, sid: nat, uid: nat,
    tty: Option<Tty>, supervisor: Option<Supervisor>, ancestors: seq<Ancestor>)

  datatype Ownership =
    | ShellOwned(shellPid: nat, shellComm: string)
    | Supervised(supervisor: Supervisor)
    | AgentOwned(agentPid: nat, agentComm: string)
    | Orphaned | InitChild | Unknown

  datatype Reason = OrphanOrInitChild | NoAncestors

  datatype Lineage = Lineage(
    ownership: Ownership, isOrphaned: bool, crossedUserBoundary: bool,
    hasTty: bool, ttyDevice: Option<string>, isSessionLeader: bool,
    confidence: Confidence, downgradeReasons: seq<Reason>)

  const KNOWN_SHELLS := ["bash", "zsh", "fish", "sh", "dash", "ksh", "csh", "tcsh"]
  const KNOWN_AGENTS := ["claude", "codex", "copilot", "gemini", "cursor", "aider", "continue"]
  const KNOWN_MULTIPLEXERS := ["tmux", "screen", "zellij"]

  predicate ContainsAny(s: string, names: seq<string>) {
    exists n | n in names :: Contains(s, n)
  }

  /** The owner an ancestor stands for: an agent before a multiplexer before a shell. */
  function Recognized(a: Ancestor): Option<Ownership> {
    var comm := Lower(a.comm);
    if ContainsAny(comm, KNOWN_AGENTS) then Some(AgentOwned(a.pid, a.comm))
    else if ContainsAny(comm, KNOWN_MULTIPLEXERS) then
      Some(Supervised(Supervisor(TerminalMultiplexer, Some(a.comm), None, Medium)))
    else if comm in KNOWN_SHELLS then Some(ShellOwned(a.pid, a.comm))
    else None
  }

  /** Ancestor i is the nearest recognised one. */
  ghost predicate Nearest(ancestors: seq<Ancestor>, i: nat) {
    i < |ancestors| && Recognized(ancestors[i]).Some? && forall j | 0 <= j < i :: Recognized(ancestors[j]).None?
  }

  ghost predicate NoneRecognized(ancestors: seq<Ancestor>) {
    forall j | 0 <= j < |ancestors| :: Recognized(ancestors[j]).None?
  }

  /** The walk's verdict. */
  ghost predicate Decides(ancestors: seq<Ancestor>, o: Ownership) {
    || (exists i: nat :: Nearest(ancestors, i) && o == Recognized(ancestors[i]).value)
    || (NoneRecognized(ancestors) && o == Ownership.Unknown)
  }

  /** `classify_ownership`'s verdict: a detected supervisor, then init, then the nearest
      recognised ancestor. */
  ghost predicate Owns(e: Evidence, o: Ownership) {
    if e.supervisor.Some? then o == Supervised(e.supervisor.value)
    else if e.ppid == 1 then o == if |e.ancestors| == 0 then Orphaned else InitChild
    else Decides(e.ancestors, o)
  }

  /** `classify_ownership`; the two mutable references are in- and out-parameters. */
  method ClassifyOwnership(e: Evidence, confidence: Confidence, reasons: seq<Reason>)
    returns (o: Ownership, confidence': Confidence, reasons': seq<Reason>)
    ensures Owns(e, o)
    ensures e.supervisor.None? && |e.ancestors| == 0 ==>
              confidence' == Downgrade(confidence) && |reasons'| == |reasons| + 1 && reasons <= reasons'
    ensures !(e.supervisor.None? && |e.ancestors| == 0) ==> confidence' == confidence && reasons' == reasons
  {
    confidence', reasons' := confidence, reasons;
    if e.supervisor.Some? {
      o := Supervised(e.supervisor.value);
      return;
    }
    if e.ppid == 1 {
      if |e.ancestors| == 0 {
        confidence' := Downgrade(confidence');
        reasons' := reasons' + [OrphanOrInitChild];
        o := Orphaned;
        return;
      }
      o := InitChild;
      return;
    }
    var i := 0;
    while i < |e.ancestors|
      invariant 0 <= i <= |e.ancestors|
      invariant forall j | 0 <= j < i :: Recognized(e.ancestors[j]).None?
    {
      var ancestor := e.ancestors[i];
      var commLower := Lower(ancestor.comm);
      if ContainsAny(commLower, KNOWN_AGENTS) {
        o := AgentOwned(ancestor.pid, ancestor.comm);
        assert Nearest(e.ancestors, i);
        return;
      }
      if ContainsAny(commLower, KNOWN_MULTIPLEXERS) {
        o := Supervised(Supervisor(TerminalMultiplexer, Some(ancestor.comm), None, Medium));
        assert Nearest(e.ancestors, i);
        return;
      }
      if commLower in KNOWN_SHELLS {
        o := ShellOwned(ancestor.pid, ancestor.comm);
        assert Nearest(e.ancestors, i);
        return;
      }
      i := i + 1;
    }
    if |e.ancestors| == 0 {
      confidence' := Downgrade(confidence');
      reasons' := reasons' + [NoAncestors];
    }
    o := Ownership.Unknown;
  }

  /** `normalize_lineage`. For all evidence the orphan flag agrees with the ownership, and
      confidence drops one step exactly when nothing explains the process: no supervisor
      and no ancestor. */
  method NormalizeLineage(e: Evidence) returns (r: Lineage)
    ensures Owns(e, r.ownership)
    ensures r.isOrphaned <==> r.ownership == Orphaned
    ensures r.confidence == if e.supervisor.None? && |e.ancestors| == 0 then Medium else High
    ensures |r.downgradeReasons| == if r.confidence == High then 0 else 1
    ensures r.crossedUserBoundary <==> |e.ancestors| > 0 && e.ancestors[0].uid != e.uid
    ensures r.hasTty == (e.tty.Some? && e.tty.value.hasControllingTty)
    ensures r.isSessionLeader == (e.tty.Some? && e.tty.value.isSessionLeader)
    ensures r.ttyDevice == if e.tty.Some? then Some(e.tty.value.device) else None
  {
    var isOrphaned := e.ppid == 1 && e.supervisor.None? && |e.ancestors| == 0;
    var crossed := |e.ancestors| > 0 && e.ancestors[0].uid != e.uid;
    var hasTty := e.tty.Some? && e.tty.value.hasControllingTty;
    var device := if e.tty.Some? then Some(e.tty.value.device) else None;
    var leader := e.tty.Some? && e.tty.value.isSessionLeader;
    var o, confidence, reasons := ClassifyOwnership(e, High, []);
    RecognizedIsOwner(e, o);
    r := Lineage(o, isOrphaned, crossed, hasTty, device, leader, confidence, reasons);
  }

  lemma RecognizedIsOwner(e: Evidence, o: Ownership)
    requires Owns(e, o)
    ensures o == Orphaned <==> e.supervisor.None? && e.ppid == 1 && |e.ancestors| == 0
  {}

  // ------------------------------------------------- the verdict, by names

  predicate AgentName(comm: string) { exists n | n in KNOWN_AGENTS :: Contains(Lower(comm), n) }

  predicate MultiplexerName(comm: string) { exists n | n in KNOWN_MULTIPLEXERS :: Contains(Lower(comm), n) }

  predicate ShellName(comm: string) { Lower(comm) in KNOWN_SHELLS }

  predicate Qualifies(comm: string) { AgentName(comm) || MultiplexerName(comm) || ShellName(comm) }

  /** The first ancestor whose name qualifies. */
  ghost predicate FirstQualified(ancestors: seq<Ancestor>, i: nat) {
    i < |ancestors| && Qualifies(ancestors[i].comm) && forall j | 0 <= j < i :: !Qualifies(ancestors[j].comm)
  }

  /** With no supervisor and another parent than init, the first ancestor whose name qualifies
      is the owner: as an agent when its name contains an agent's, else as a multiplexer when
      it contains one's, else as a shell. Without such an ancestor the owner is unknown. */
  lemma OwnerByName(e: Evidence, o: Ownership, i: nat)
    requires Owns(e, o) && e.supervisor.None? && e.ppid != 1
    ensures FirstQualified(e.ancestors, i) ==>
              var a := e.ancestors[i];
              o == if AgentName(a.comm) then AgentOwned(a.pid, a.comm)
                   else if MultiplexerName(a.comm) then
                     Supervised(Supervisor(TerminalMultiplexer, Some(a.comm), None, Medium))
                   else ShellOwned(a.pid, a.comm)
    ensures o == Ownership.Unknown <==> forall j | 0 <= j < |e.ancestors| :: !Qualifies(e.ancestors[j].comm)
  {
    forall a: Ancestor ensures Recognized(a).Some? <==> Qualifies(a.comm) { RecognizedByName(a); }
    if FirstQualified(e.ancestors, i) {
      assert Nearest(e.ancestors, i);
      OneOwner(e, o, Recognized(e.ancestors[i]).value);
      RecognizedByName(e.ancestors[i]);
    }
  }

  lemma RecognizedByName(a: Ancestor)
    ensures Recognized(a) ==
              if AgentName(a.comm) then Some(AgentOwned(a.pid, a.comm))
              else if MultiplexerName(a.comm) then
                Some(Supervised(Supervisor(TerminalMultiplexer, Some(a.comm), None, Medium)))
              else if ShellName(a.comm) then Some(ShellOwned(a.pid, a.comm))
              else None
  {}

  /** A supervisor and init come first. */
  lemma OwnerBeforeAncestors(e: Evidence, o: Ownership)
    requires Owns(e, o)
    ensures e.supervisor.Some? ==> o == Supervised(e.supervisor.value)
    ensures e.supervisor.None? && e.ppid == 1 ==> o == if e.ancestors == [] then Orphaned else InitChild
  {}

  lemma KnownNames()
    ensures (set n | n in KNOWN_SHELLS) == {"bash", "zsh", "fish", "sh", "dash", "ksh", "csh", "tcsh"}
    ensures (set n | n in KNOWN_AGENTS) == {"claude", "codex", "copilot", "gemini", "cursor", "aider", "continue"}
    ensures (set n | n in KNOWN_MULTIPLEXERS) == {"tmux", "screen", "zellij"}
  {}

  /** Three parents, three owners, whatever the case of their names. */
  lemma ThreeOwners(e: Evidence, o: Ownership)
    requires Owns(e, o) && e.supervisor.None? && e.ppid != 1 && |e.ancestors| == 1
    ensures e.ancestors[0].comm == "Claude" ==> o == AgentOwned(e.ancestors[0].pid, "Claude")
    ensures e.ancestors[0].comm == "tmux" ==>
              o == Supervised(Supervisor(TerminalMultiplexer, Some("tmux"), None, Medium))
    ensures e.ancestors[0].comm == "bash" ==> o == ShellOwned(e.ancestors[0].pid, "bash")
  {
    LowerSamples();
    var comm := e.ancestors[0].comm;
    if comm == "Claude" {
      ContainsItself("claude");
      assert "claude" in KNOWN_AGENTS;
      assert AgentName(comm);
    } else if comm == "tmux" {
      ContainsItself("tmux");
      assert "tmux" in KNOWN_MULTIPLEXERS;
      ShortNames(comm);
      assert MultiplexerName(comm);
    } else if comm == "bash" {
      ShortNames(comm);
      NoMultiplexerInBash();
      assert ShellName(comm);
    }
    if Qualifies(comm) { assert FirstQualified(e.ancestors, 0); }
    OwnerByName(e, o, 0);
  }

  lemma LowerSamples()
    ensures Lower("Claude") == "claude" && Lower("tmux") == "tmux" && Lower("bash") == "bash"
  {}

  lemma ContainsItself(s: string)
    ensures Contains(s, s)
  {
    assert s[0..] == s;
    assert OccursAt(s, s, 0);
  }

  lemma ContainsNoLonger(s: string, n: string)
    ensures Contains(s, n) && |s| <= |n| ==> s == n
  {
    if Contains(s, n) {
      var a, b := ContainsSplit(s, n);
      assert |s| == |a| + |n| + |b|;
      assert |s| <= |n| ==> a + n + b == n;
    }
  }

  /** No agent's name fits into four letters. */
  lemma ShortNames(comm: string)
    requires |comm| <= 4
    ensures !AgentName(comm)
  {
    forall n | n in KNOWN_AGENTS ensures !Contains(Lower(comm), n) { ContainsNoLonger(Lower(comm), n); }
  }

  lemma NoMultiplexerInBash()
    ensures !MultiplexerName("bash")
  {
    LowerSamples();
    forall n | n in KNOWN_MULTIPLEXERS ensures !Contains("bash", n) {
      ContainsNoLonger("bash", n);
      assert "bash"[0] == 'b';
    }
  }

  /** There is one verdict. */
  lemma OneOwner(e: Evidence, o: Ownership, o': Ownership)
    requires Owns(e, o) && Owns(e, o')
    ensures o == o'
  {
    if e.supervisor.None? && e.ppid != 1 {
      if i: nat :| Nearest(e.ancestors, i) && o == Recognized(e.ancestors[i]).value {
        var j: nat :| Nearest(e.ancestors, j) && o' == Recognized(e.ancestors[j]).value;
        assert i == j;
      }
    }
  }

  /** Farther ancestors never change a decided verdict: whatever is appended to the chain,
      only "unknown" and "orphaned" can be revised. */
  lemma FartherAncestorsIgnored(e: Evidence, more: seq<Ancestor>, o: Ownership)
    requires Owns(e, o) && o != Ownership.Unknown && o != Orphaned
    ensures Owns(e.(ancestors := e.ancestors + more), o)
  {
    var e' := e.(ancestors := e.ancestors + more);
    if e.supervisor.None? && e.ppid != 1 {
      var i: nat :| Nearest(e.ancestors, i) && o == Recognized(e.ancestors[i]).value;
      assert Nearest(e'.ancestors, i);
    }
  }

  lemma NearestShifts(front: seq<Ancestor>, more: seq<Ancestor>, i: nat)
    requires NoneRecognized(front)
    ensures Nearest(front + more, i) <==> i >= |front| && Nearest(more, i - |front|)
    ensures Nearest(more, i) <==> Nearest(front + more, |front| + i)
    ensures NoneRecognized(front + more) <==> NoneRecognized(more)
  {
    var whole, n := front + more, |front|;
    assert forall j | 0 <= j < n :: whole[j] == front[j];
    assert forall j | 0 <= j < |more| :: whole[n + j] == more[j];
    assert forall j | n <= j < |whole| :: whole[j] == more[j - n];
  }

  lemma DecidedByMore(front: seq<Ancestor>, more: seq<Ancestor>, o: Ownership)
    requires NoneRecognized(front) && Decides(more, o)
    ensures Decides(front + more, o)
  {
    NearestShifts(front, more, 0);
    if i: nat :| Nearest(more, i) && o == Recognized(more[i]).value {
      NearestShifts(front, more, i);
      assert (front + more)[|front| + i] == more[i];
    }
  }

  lemma DecidedByWhole(front: seq<Ancestor>, more: seq<Ancestor>, o: Ownership)
    requires NoneRecognized(front) && Decides(front + more, o)
    ensures Decides(more, o)
  {
    NearestShifts(front, more, 0);
    if i: nat :| Nearest(front + more, i) && o == Recognized((front + more)[i]).value {
      NearestShifts(front, more, i);
      assert (front + more)[i] == more[i - |front|];
    }
  }

  /** And an unknown owner is the owner the farther ancestors decide. */
  lemma UnknownIsRevised(e: Evidence, more: seq<Ancestor>, o: Ownership)
    requires e.supervisor.None? && e.ppid != 1 && Owns(e, Ownership.Unknown)
    ensures Owns(e.(ancestors := e.ancestors + more), o) <==> Owns(e.(ancestors := more), o)
  {
    assert NoneRecognized(e.ancestors);
    if Decides(more, o) { DecidedByMore(e.ancestors, more, o); }
    if Decides(e.ancestors + more, o) { DecidedByWhole(e.ancestors, more, o); }
  }
}
