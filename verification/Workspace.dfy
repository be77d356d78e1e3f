/** Workspace evidence normalisation (pt-common/src/workspace_evidence.rs). */
module Workspace {
  import opened Wrappers
  import opened Provenance
  import opened Paths

  datatype PathResolutionError = BrokenSymlink | PermissionDenied | NotFound | IoError(message: string) | InvalidPath

  datatype RawPath = RawPath(original: string, canonical: Option<string>, resolutionError: Option<PathResolutionError>)
  {
    function EffectivePath(): string { if canonical.Some? then canonical.value else original }
  }

  datatype HeadState = Branch(name: string) | Detached(commitPrefix: string) | Unreadable(reason: string) | NotARepo

  datatype Evidence = Evidence(
    cwd: Option<RawPath>, repoRoot: Option<RawPath>, worktree: Option<RawPath>, headState: Option<HeadState>)

  /** The facts the source's messages carry. */
  datatype Reason =
    | RootNotCanonical(original: string, error: Option<PathResolutionError>)
    | WorktreeNotCanonical(original: string)
    | CwdUnreadable
    | CwdOutside(cwd: string, root: string)

  datatype Normalized = Normalized(
    workspaceId: string, canonicalRoot: string,
    worktreeId: Option<string>, canonicalWorktree: Option<string>,
    headState: Option<HeadState>, confidence: Confidence, downgradeReasons: seq<Reason>)

  datatype Outcome =
    | Resolved(workspace: Normalized)
    | NoWorkspace(cwd: Option<string>)
    | Degraded(partial: Normalized, warnings: seq<Reason>)

  function Same(a: RawPath, b: RawPath): bool {
    Normalize(a.EffectivePath()) == Normalize(b.EffectivePath())
  }

  /** `stable_path_id`: a digest of the normal form; the digest is a parameter. */
  function StablePathId(digest: string -> string, path: string): string { digest(Normalize(path)) }

  // ---------------------------------------------------------- what is wrong

  /** The worktree, when its path is spelled differently from the root's. */
  function SeparateWorktree(e: Evidence): Option<RawPath>
    requires e.repoRoot.Some?
  {
    if e.worktree.Some? && e.worktree.value.EffectivePath() != e.repoRoot.value.EffectivePath()
    then e.worktree else None
  }

  predicate CwdAttributed(e: Evidence)
    requires e.repoRoot.Some?
  {
    && e.cwd.Some?
    && (|| IsPathUnder(e.repoRoot.value.EffectivePath(), e.cwd.value.EffectivePath())
        || (SeparateWorktree(e).Some?
            && IsPathUnder(SeparateWorktree(e).value.EffectivePath(), e.cwd.value.EffectivePath())))
  }

  function RootReasons(e: Evidence): seq<Reason>
    requires e.repoRoot.Some?
  {
    var root := e.repoRoot.value;
    if root.canonical.None? then [RootNotCanonical(root.original, root.resolutionError)] else []
  }

  function WorktreeReasons(e: Evidence): seq<Reason>
    requires e.repoRoot.Some?
  {
    var wt := SeparateWorktree(e);
    if wt.Some? && wt.value.canonical.None? then [WorktreeNotCanonical(wt.value.original)] else []
  }

  function CwdReasons(e: Evidence): seq<Reason>
    requires e.repoRoot.Some?
  {
    if e.cwd.None? then [CwdUnreadable]
    else if CwdAttributed(e) then []
    else [CwdOutside(e.cwd.value.EffectivePath(), e.repoRoot.value.EffectivePath())]
  }

  function Reasons(e: Evidence): seq<Reason>
    requires e.repoRoot.Some?
  {
    RootReasons(e) + WorktreeReasons(e) + CwdReasons(e)
  }

  /** The confidence so many steps below High. */
  function StepsBelowHigh(n: nat): Confidence {
    if n == 0 then High else if n == 1 then Medium else if n == 2 then Low else Unknown
  }

  function WorkspaceOf(r: Outcome): Normalized
    requires !r.NoWorkspace?
  {
    if r.Resolved? then r.workspace else r.partial
  }

  /** With a repository root, the reasons are exactly the defects of the evidence, the
      confidence is as many steps below High as there are reasons, and the workspace is
      resolved exactly when there is none. */
  function Normalization(digest: string -> string, e: Evidence): Outcome {
    if e.repoRoot.None? then
      NoWorkspace(if e.cwd.Some? then Some(e.cwd.value.EffectivePath()) else None)
    else
      var root, wt := e.repoRoot.value.EffectivePath(), SeparateWorktree(e);
      var workspace := Normalized(
        StablePathId(digest, root), root,
        if wt.Some? then Some(StablePathId(digest, wt.value.EffectivePath())) else None,
        if wt.Some? then Some(wt.value.EffectivePath()) else None,
        e.headState, StepsBelowHigh(|Reasons(e)|), Reasons(e));
      if Reasons(e) == [] then Resolved(workspace) else Degraded(workspace, Reasons(e))
  }

  method NormalizeWorkspace(digest: string -> string, e: Evidence) returns (r: Outcome)
    ensures r == Normalization(digest, e)
    ensures r.NoWorkspace? <==> e.repoRoot.None?
    ensures r.Resolved? <==> !r.NoWorkspace? && WorkspaceOf(r).confidence == High
  {
    if e.repoRoot.None? {
      return NoWorkspace(if e.cwd.Some? then Some(e.cwd.value.EffectivePath()) else None);
    }
    var repoRoot := e.repoRoot.value;
    var canonicalRoot := repoRoot.EffectivePath();
    var workspaceId := StablePathId(digest, canonicalRoot);
    var downgradeReasons := [];
    var confidence := High;
    if repoRoot.canonical.None? {
      confidence := Medium;
      downgradeReasons := downgradeReasons + [RootNotCanonical(repoRoot.original, repoRoot.resolutionError)];
    }

    var worktreeId, canonicalWorktree := None, None;
    if e.worktree.Some? {
      var wt := e.worktree.value;
      var wtPath := wt.EffectivePath();
      if wtPath != canonicalRoot {
        if wt.canonical.None? {
          confidence := Downgrade(confidence);
          downgradeReasons := downgradeReasons + [WorktreeNotCanonical(wt.original)];
        }
        worktreeId, canonicalWorktree := Some(StablePathId(digest, wtPath)), Some(wtPath);
      }
    }

    if e.cwd.None? {
      confidence := Downgrade(confidence);
      downgradeReasons := downgradeReasons + [CwdUnreadable];
    } else {
      var cwd := e.cwd.value.EffectivePath();
      var underRoot := IsPathUnder(canonicalRoot, cwd);
      var underWorktree := canonicalWorktree.Some? && IsPathUnder(canonicalWorktree.value, cwd);
      if !underRoot && !underWorktree {
        confidence := Downgrade(confidence);
        downgradeReasons := downgradeReasons + [CwdOutside(cwd, canonicalRoot)];
      }
    }

    assert downgradeReasons == Reasons(e);
    var workspace := Normalized(workspaceId, canonicalRoot, worktreeId, canonicalWorktree,
                                e.headState, confidence, downgradeReasons);
    r := if |downgradeReasons| == 0 then Resolved(workspace) else Degraded(workspace, downgradeReasons);
  }

  /** The path is above the other, or the same: stated on components, the root apart. */
  ghost predicate Holds(parent: string, child: string) {
    if Normalize(parent) == "/" then "/" <= Normalize(child)
    else Components(Normalize(parent)) <= Components(Normalize(child))
  }

  function PathOf(p: RawPath): string { if p.canonical.Some? then p.canonical.value else p.original }

  /** How many of three things are wrong. */
  function Faults(a: bool, b: bool, c: bool): nat {
    (if a then 1 else 0) + (if b then 1 else 0) + if c then 1 else 0
  }

  /** Without a worktree: resolved, with High confidence, exactly when the root is canonical,
      the working directory is known, and it is the root or below it; otherwise Medium with one
      thing wrong and Low with two. */
  lemma WithoutWorktree(digest: string -> string, e: Evidence)
    requires e.repoRoot.Some? && e.worktree.None?
    ensures var r, root := Normalization(digest, e), e.repoRoot.value;
            var outside := e.cwd.None? || !Holds(PathOf(root), PathOf(e.cwd.value));
            && !r.NoWorkspace?
            && (r.Resolved? <==> root.canonical.Some? && !outside)
            && WorkspaceOf(r).confidence == (match Faults(root.canonical.None?, outside, false)
                                             case 0 => High case 1 => Medium case _ => Low)
            && WorkspaceOf(r).worktreeId == WorkspaceOf(r).canonicalWorktree == None
  {
    var root := e.repoRoot.value;
    if e.cwd.Some? { AncestryByComponents(PathOf(root), PathOf(e.cwd.value)); }
    assert |RootReasons(e)| == Faults(root.canonical.None?, false, false);
    assert WorktreeReasons(e) == [];
  }

  /** With a worktree whose path is spelled otherwise than the root's: it must be canonical too,
      and the working directory may be below either. */
  lemma WithWorktree(digest: string -> string, e: Evidence)
    requires e.repoRoot.Some? && e.worktree.Some? && PathOf(e.worktree.value) != PathOf(e.repoRoot.value)
    ensures var r, root, wt := Normalization(digest, e), e.repoRoot.value, e.worktree.value;
            var outside := e.cwd.None? || !(|| Holds(PathOf(root), PathOf(e.cwd.value))
                                            || Holds(PathOf(wt), PathOf(e.cwd.value)));
            && !r.NoWorkspace?
            && (r.Resolved? <==> root.canonical.Some? && wt.canonical.Some? && !outside)
            && WorkspaceOf(r).confidence == (match Faults(root.canonical.None?, wt.canonical.None?, outside)
                                             case 0 => High case 1 => Medium case 2 => Low case _ => Unknown)
            && WorkspaceOf(r).worktreeId == Some(digest(Normalize(PathOf(wt))))
            && WorkspaceOf(r).canonicalWorktree == Some(PathOf(wt))
  {
    var root, wt := e.repoRoot.value, e.worktree.value;
    assert SeparateWorktree(e) == Some(wt);
    if e.cwd.Some? {
      AncestryByComponents(PathOf(root), PathOf(e.cwd.value));
      AncestryByComponents(PathOf(wt), PathOf(e.cwd.value));
    }
    assert |RootReasons(e)| == Faults(root.canonical.None?, false, false);
    assert |WorktreeReasons(e)| == Faults(wt.canonical.None?, false, false);
  }

  /** A worktree spelled like the root is no worktree. */
  lemma SameSpelling(digest: string -> string, e: Evidence)
    requires e.repoRoot.Some? && e.worktree.Some? && PathOf(e.worktree.value) == PathOf(e.repoRoot.value)
    ensures Normalization(digest, e) == Normalization(digest, e.(worktree := None))
  {
    var e' := e.(worktree := None);
    assert SeparateWorktree(e) == SeparateWorktree(e') == None;
    assert RootReasons(e) == RootReasons(e') && WorktreeReasons(e) == WorktreeReasons(e') == [];
    assert CwdReasons(e) == CwdReasons(e');
  }

  /** What is reported of the evidence in every case. */
  lemma Reported(digest: string -> string, e: Evidence)
    ensures e.repoRoot.None? ==>
              Normalization(digest, e) == NoWorkspace(if e.cwd.Some? then Some(PathOf(e.cwd.value)) else None)
    ensures e.repoRoot.Some? ==>
              var r, root := Normalization(digest, e), e.repoRoot.value;
              && !r.NoWorkspace?
              && WorkspaceOf(r).workspaceId == digest(Normalize(PathOf(root)))
              && WorkspaceOf(r).canonicalRoot == PathOf(root) && WorkspaceOf(r).headState == e.headState
              && (r.Degraded? ==> r.warnings == r.partial.downgradeReasons)
  {}

  /** The reasons, in order: the root's, the separate worktree's, the working directory's. */
  lemma ReasonsSpelledOut(digest: string -> string, e: Evidence)
    requires e.repoRoot.Some?
    ensures var root, separate := e.repoRoot.value,
                  e.worktree.Some? && PathOf(e.worktree.value) != PathOf(e.repoRoot.value);
            var outside := e.cwd.Some? && !Holds(PathOf(root), PathOf(e.cwd.value))
                           && !(separate && Holds(PathOf(e.worktree.value), PathOf(e.cwd.value)));
            WorkspaceOf(Normalization(digest, e)).downgradeReasons
            == (if root.canonical.None? then [RootNotCanonical(root.original, root.resolutionError)] else [])
               + (if separate && e.worktree.value.canonical.None?
                  then [WorktreeNotCanonical(e.worktree.value.original)] else [])
               + (if e.cwd.None? then [CwdUnreadable]
                  else if outside then [CwdOutside(PathOf(e.cwd.value), PathOf(root))] else [])
  {
    if e.cwd.Some? {
      AncestryByComponents(PathOf(e.repoRoot.value), PathOf(e.cwd.value));
      if e.worktree.Some? { AncestryByComponents(PathOf(e.worktree.value), PathOf(e.cwd.value)); }
    }
  }

  /** Without a worktree, the identity, the confidence and the status depend only on the
      normal forms of the root and the working directory (and on whether they resolved). */
  lemma OnlyNormalFormsMatter(digest: string -> string, e: Evidence, e': Evidence)
    requires e.repoRoot.Some? && e'.repoRoot.Some? && e.worktree == e'.worktree == None
    requires Same(e.repoRoot.value, e'.repoRoot.value)
    requires e.repoRoot.value.canonical.Some? <==> e'.repoRoot.value.canonical.Some?
    requires e.cwd.Some? <==> e'.cwd.Some?
    requires e.cwd.Some? ==> Same(e.cwd.value, e'.cwd.value)
    ensures var r, r' := Normalization(digest, e), Normalization(digest, e');
            && !r.NoWorkspace? && !r'.NoWorkspace? && (r.Resolved? <==> r'.Resolved?)
            && WorkspaceOf(r).workspaceId == WorkspaceOf(r').workspaceId
            && WorkspaceOf(r).confidence == WorkspaceOf(r').confidence
  {
    SameNumberOfReasons(e, e');
    assert Reasons(e) == [] <==> Reasons(e') == [];
  }

  lemma SameNumberOfReasons(e: Evidence, e': Evidence)
    requires e.repoRoot.Some? && e'.repoRoot.Some? && e.worktree == e'.worktree == None
    requires Same(e.repoRoot.value, e'.repoRoot.value)
    requires e.repoRoot.value.canonical.Some? <==> e'.repoRoot.value.canonical.Some?
    requires e.cwd.Some? <==> e'.cwd.Some?
    requires e.cwd.Some? ==> Same(e.cwd.value, e'.cwd.value)
    ensures |Reasons(e)| == |Reasons(e')|
  {
    assert |RootReasons(e)| == |RootReasons(e')|;
    assert WorktreeReasons(e) == WorktreeReasons(e') == [];
    SameAttribution(e, e');
    assert |CwdReasons(e)| == |CwdReasons(e')|;
  }

  lemma SameAttribution(e: Evidence, e': Evidence)
    requires e.repoRoot.Some? && e'.repoRoot.Some? && e.worktree == e'.worktree == None
    requires Same(e.repoRoot.value, e'.repoRoot.value)
    requires e.cwd.Some? <==> e'.cwd.Some?
    requires e.cwd.Some? ==> Same(e.cwd.value, e'.cwd.value)
    ensures e.cwd.Some? ==> (CwdAttributed(e) <==> CwdAttributed(e'))
  {}

  /** A worktree is meant to get an identity only when it is distinct from the root. The
      code compares spellings, so the worktree's identity repeats the workspace's own
      exactly when the worktree is the root spelled differently, or when the digests of two
      different normal forms collide. */
  lemma WorktreeIdentityRepeats(digest: string -> string, e: Evidence)
    requires e.repoRoot.Some?
    ensures var w := WorkspaceOf(Normalization(digest, e));
            (w.worktreeId == Some(w.workspaceId) <==> RootRespelled(e) || DigestsCollide(digest, e))
  {}

  predicate RootRespelled(e: Evidence)
    requires e.repoRoot.Some?
  {
    SeparateWorktree(e).Some? && Same(e.repoRoot.value, e.worktree.value)
  }

  /** The digests of the two normal forms are equal although these differ. */
  predicate DigestsCollide(digest: string -> string, e: Evidence)
    requires e.repoRoot.Some?
  {
    e.worktree.Some?
    && var root, wt := Normalize(e.repoRoot.value.EffectivePath()), Normalize(e.worktree.value.EffectivePath());
       root != wt && digest(root) == digest(wt)
  }

  lemma RootAsItsOwnWorktree(digest: string -> string)
    ensures var root, worktree := RawPath("/p", Some("/p"), None), RawPath("/p/", Some("/p/"), None);
            var e := Evidence(None, Some(root), Some(worktree), None);
            var w := WorkspaceOf(Normalization(digest, e));
            w.worktreeId == Some(w.workspaceId)
  {
    assert Slashes("/p/") == "/p" + Run(1);
    assert Slashes("/p") == "/p" + Run(0);
    ProperSpellings("/p/", "/p");
    ProperSpellings("/p", "/p");
  }
}
