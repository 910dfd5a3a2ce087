/** git_update/actions.py (and git_update/git_update.py, an earlier revision
    whose `check_changes` and `update_repo` are the same code): updating one
    repository. The snapshot `{ref: ref.commit}` is taken right after the
    repository is opened, before the pull; the pull's report and the branches
    read after it are then compared with that snapshot. */
module Actions {
  import opened Git
  import opened Checks

  /** An opened repository as the library presents it: its git directory, its
      references with their commits, and the remote `repo.remote()` resolves
      to (None when that call raises `ValueError`). */
  datatype Repo = Repo(gitDir: string, refs: seq<RefState>, remote: Option<string>)

  /** What `remote.pull()` does: it reports its fetch results, after which the
      repository's branches are read, or it raises `GitCommandError`. */
  datatype PullResult =
    | Pulled(infos: seq<FetchInfo>, branches: seq<Branch>)
    | GitCommandError(message: string)

  /** The steps of `update_repo` that were attempted, in order. */
  datatype Step = OpenRepo | TakeSnapshot | ResolveRemote | PullRemote | CheckForChanges

  /** `{ref: ref.commit for ref in repo.refs}`: the repository's references
      are exactly its keys. */
  function Snapshot(refs: seq<RefState>): (current: map<Ref, Commit>)
    ensures current.Keys == set r | r in refs :: r.ref
  {
    var pairs := seq(|refs|, i requires 0 <= i < |refs| => (refs[i].ref, refs[i].commit));
    assert forall r | r in refs :: exists i | 0 <= i < |pairs| :: pairs[i].0 == r.ref by {
      forall r | r in refs ensures exists i | 0 <= i < |pairs| :: pairs[i].0 == r.ref {
        var i :| 0 <= i < |refs| && refs[i] == r;
        assert pairs[i].0 == r.ref;
      }
    }
    FromPairs(pairs)
  }

  /** The references of a repository are distinct. */
  predicate DistinctRefs(refs: seq<RefState>)
  {
    forall i, j | 0 <= i < j < |refs| :: refs[i].ref != refs[j].ref
  }

  /** Each reference of the repository is mapped to the commit it resolved to
      when the snapshot was taken. */
  lemma SnapshotCommits(refs: seq<RefState>, i: nat)
    requires DistinctRefs(refs) && i < |refs|
    ensures Snapshot(refs)[refs[i].ref] == refs[i].commit
  {
    var pairs := seq(|refs|, i requires 0 <= i < |refs| => (refs[i].ref, refs[i].commit));
    forall k | i < k < |pairs| ensures pairs[k].0 != pairs[i].0 {
      assert pairs[k].0 == refs[k].ref;
    }
    FromPairsLastWins(pairs, i);
  }

  /** `check_changes`: the fetch results against the snapshot, then every
      branch's snapshot commit against its own commit after the pull. The
      fetch results' events are emitted whatever the branch loop does; it
      returns True unless a branch is missing from the snapshot, whose
      `KeyError` escapes. */
  function CheckChanges(current: map<Ref, Commit>, infos: seq<FetchInfo>, branches: seq<Branch>): (run: Run)
    ensures CheckReferences(current, infos) <= run.events
    ensures |run.events| <= |infos| + |branches|
    ensures run.completion == Returned(true) <==> AllInSnapshot(current, branches)
    ensures run.completion.RaisedKeyError? ==>
      exists k | 0 <= k < |branches| :: branches[k].ref !in current && run.completion.key == branches[k].ref
  {
    var branchRun := BranchDiff(current, branches, OwnCommit);
    Run(CheckReferences(current, infos) + branchRun.events, branchRun.completion)
  }

  /** In a run that does not raise, branch `i` yields an update event iff its
      snapshot commit differs from its commit after the pull, carrying (name,
      snapshot commit, current commit), after the fetch results' events and
      the events of the branches before it. */
  lemma CheckChangesBranchAt(current: map<Ref, Commit>, infos: seq<FetchInfo>, branches: seq<Branch>, i: nat)
    requires i < |branches| && AllInSnapshot(current, branches)
    ensures var b := branches[i];
      var before, after := CheckChanges(current, infos, branches[..i]).events,
                           BranchDiff(current, branches[i + 1..], OwnCommit).events;
      && CheckChanges(current, infos, branches).completion == Returned(true)
      && (current[b.ref] == b.commit ==> CheckChanges(current, infos, branches).events == before + after)
      && (current[b.ref] != b.commit ==>
            CheckChanges(current, infos, branches).events
              == before + [BranchUpdated(b.name, current[b.ref], b.commit)] + after)
  {
    var b := branches[i];
    var refEvents := CheckReferences(current, infos);
    var before, after := BranchDiff(current, branches[..i], OwnCommit).events,
                         BranchDiff(current, branches[i + 1..], OwnCommit).events;
    BranchDiffAt(current, branches, OwnCommit, i);
    assert CheckChanges(current, infos, branches[..i]).events == refEvents + before;
    assert CheckChanges(current, infos, branches).events
      == refEvents + (before + BranchEvent(current, b, OwnCommit) + after);
  }

  /** The first branch missing from the snapshot raises `KeyError` on its
      reference; what was emitted is the report of the same call on the
      branches before it. */
  lemma CheckChangesRaises(current: map<Ref, Commit>, infos: seq<FetchInfo>, branches: seq<Branch>, k: nat)
    requires k < |branches| && branches[k].ref !in current
    requires AllInSnapshot(current, branches[..k])
    ensures CheckChanges(current, infos, branches)
      == Run(CheckChanges(current, infos, branches[..k]).events, RaisedKeyError(branches[k].ref))
  {
    BranchDiffRaises(current, branches, OwnCommit, k);
  }

  /** Because the snapshot is taken before the pull, a fetch result for a
      reference the repository did not have is reported new, and one for a
      reference the pull moved is reported with its pre-pull commit. */
  lemma PrePullSnapshotReportsReference(refs: seq<RefState>, infos: seq<FetchInfo>, branches: seq<Branch>, i: nat)
    requires DistinctRefs(refs) && i < |infos|
    ensures var events := CheckChanges(Snapshot(refs), infos, branches).events;
      && ((forall r | r in refs :: r.ref != infos[i].ref) ==> NewReference(infos[i].name) in events)
      && (forall j | 0 <= j < |refs| && refs[j].ref == infos[i].ref && refs[j].commit != infos[i].commit ::
            RefUpdated(infos[i].name, refs[j].commit, infos[i].commit) in events)
  {
    var current := Snapshot(refs);
    CheckReferencesAt(current, infos, i);
    forall j | 0 <= j < |refs| && refs[j].ref == infos[i].ref
      ensures current[infos[i].ref] == refs[j].commit
    {
      SnapshotCommits(refs, j);
    }
  }

  /** Because the snapshot is taken before the pull, a branch the pull moved
      is reported with its pre-pull and post-pull commits. */
  lemma PrePullSnapshotReportsBranch(refs: seq<RefState>, infos: seq<FetchInfo>, branches: seq<Branch>, i: nat, j: nat)
    requires DistinctRefs(refs) && AllInSnapshot(Snapshot(refs), branches)
    requires i < |branches| && j < |refs| && refs[j].ref == branches[i].ref
    requires refs[j].commit != branches[i].commit
    ensures BranchUpdated(branches[i].name, refs[j].commit, branches[i].commit)
      in CheckChanges(Snapshot(refs), infos, branches).events
  {
    SnapshotCommits(refs, j);
    CheckChangesBranchAt(Snapshot(refs), infos, branches, i);
  }

  /** `update_repo`: open, snapshot, resolve the remote, pull, check for
      changes, returning False at the first caught failure. Returns the steps
      attempted, the events emitted and how the call ended. */
  method UpdateRepo(directory: string, opening: Option<Repo>, pull: PullResult)
    returns (steps: seq<Step>, events: seq<Event>, completion: Completion)
    ensures opening.None? ==>
      && steps == [OpenRepo]
      && events == [NotValidRepository(directory)]
      && completion == Returned(false)
    ensures opening.Some? && opening.value.remote.None? ==>
      && steps == [OpenRepo, TakeSnapshot, ResolveRemote]
      && events == [Updating(opening.value.gitDir), CheckRemotes(directory)]
      && completion == Returned(false)
    ensures opening.Some? && opening.value.remote.Some? && pull.GitCommandError? ==>
      && steps == [OpenRepo, TakeSnapshot, ResolveRemote, PullRemote]
      && events == [Updating(opening.value.gitDir), PullFailed(pull.message)]
      && completion == Returned(false)
    ensures opening.Some? && opening.value.remote.Some? && pull.Pulled? ==>
      var run := CheckChanges(Snapshot(opening.value.refs), pull.infos, pull.branches);
      && steps == [OpenRepo, TakeSnapshot, ResolveRemote, PullRemote, CheckForChanges]
      && events == [Updating(opening.value.gitDir)] + run.events
      && completion == run.completion
    ensures completion == Returned(true) <==>
      opening.Some? && opening.value.remote.Some? && pull.Pulled?
      && AllInSnapshot(Snapshot(opening.value.refs), pull.branches)
    ensures completion.RaisedKeyError? ==> CheckForChanges in steps
  {
    steps := [OpenRepo];
    if opening.None? {
      events := [NotValidRepository(directory)];
      completion := Returned(false);
      return;
    }
    var repo := opening.value;
    steps := steps + [TakeSnapshot];
    var current := Snapshot(repo.refs);
    events := [Updating(repo.gitDir)];

    steps := steps + [ResolveRemote];
    if repo.remote.None? {
      events := events + [CheckRemotes(directory)];
      completion := Returned(false);
      return;
    }

    steps := steps + [PullRemote];
    if pull.GitCommandError? {
      events := events + [PullFailed(pull.message)];
      completion := Returned(false);
      return;
    }

    steps := steps + [CheckForChanges];
    var run := CheckChanges(current, pull.infos, pull.branches);
    events := events + run.events;
    if run.completion.RaisedKeyError? {
      completion := run.completion;
      return;
    }
    completion := Returned(true);
  }
}
