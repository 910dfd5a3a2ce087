/** The comparisons of git_update/checks.py: what a pull reported against the
    snapshot taken before it (`check_references`), and local branches against
    the remote's refs (`check_branches`). Both only read their inputs and emit
    at most one event per element, in input order. */
module Checks {
  import opened Git

  // ---------------------------------------------------------------------------
  // Reference diff

  /** The events one fetch result contributes: a key miss in the snapshot is a
      new reference, a different commit an update, an equal commit nothing. */
  function ReferenceEvent(current: map<Ref, Commit>, info: FetchInfo): seq<Event>
  {
    if info.ref !in current then [NewReference(info.name)]
    else if current[info.ref] != info.commit then [RefUpdated(info.name, current[info.ref], info.commit)]
    else []
  }

  /** `check_references`: the events for the fetch results, in their order. */
  function CheckReferences(current: map<Ref, Commit>, infos: seq<FetchInfo>): (events: seq<Event>)
    ensures |events| <= |infos|
    ensures forall e | e in events :: e.NewReference? || e.RefUpdated?
  {
    if infos == [] then []
    else ReferenceEvent(current, infos[0]) + CheckReferences(current, infos[1..])
  }

  /** The report for a concatenation is the concatenation of the reports:
      events keep the order of the fetch results. */
  lemma {:induction false} CheckReferencesAppend(current: map<Ref, Commit>, xs: seq<FetchInfo>, ys: seq<FetchInfo>)
    ensures CheckReferences(current, xs + ys) == CheckReferences(current, xs) + CheckReferences(current, ys)
  {
    if xs == [] {
      assert xs + ys == ys;
    } else {
      assert (xs + ys)[0] == xs[0];
      assert (xs + ys)[1..] == xs[1..] + ys;
      CheckReferencesAppend(current, xs[1..], ys);
    }
  }

  /** The place of fetch result `i` in the report: exactly one "new reference"
      event on a key miss, nothing when the snapshot commit equals the fetched
      one, otherwise one update event carrying (name, snapshot commit, fetched
      commit); between the events of the results before and after it. */
  lemma CheckReferencesAt(current: map<Ref, Commit>, infos: seq<FetchInfo>, i: nat)
    requires i < |infos|
    ensures var before, after := CheckReferences(current, infos[..i]), CheckReferences(current, infos[i + 1..]);
      && (infos[i].ref !in current ==>
            CheckReferences(current, infos) == before + [NewReference(infos[i].name)] + after)
      && (infos[i].ref in current && current[infos[i].ref] == infos[i].commit ==>
            CheckReferences(current, infos) == before + after)
      && (infos[i].ref in current && current[infos[i].ref] != infos[i].commit ==>
            CheckReferences(current, infos) == before + [RefUpdated(infos[i].name, current[infos[i].ref], infos[i].commit)] + after)
  {
    assert infos == infos[..i] + ([infos[i]] + infos[i + 1..]);
    CheckReferencesAppend(current, infos[..i], [infos[i]] + infos[i + 1..]);
    CheckReferencesAppend(current, [infos[i]], infos[i + 1..]);
    assert [infos[i]][1..] == [];
  }

  /** Every reported event is accounted for by one fetch result: a "new
      reference" event by a result whose ref the snapshot lacks, an update
      event by a result whose snapshot commit differs from the fetched one. */
  lemma {:induction false} CheckReferencesSound(current: map<Ref, Commit>, infos: seq<FetchInfo>, e: Event)
    requires e in CheckReferences(current, infos)
    ensures e.NewReference? ==>
      exists i | 0 <= i < |infos| :: infos[i].ref !in current && infos[i].name == e.name
    ensures e.RefUpdated? ==>
      exists i | 0 <= i < |infos| ::
        && infos[i].ref in current && infos[i].name == e.name
        && current[infos[i].ref] == e.local && infos[i].commit == e.remote && e.local != e.remote
  {
    if e in ReferenceEvent(current, infos[0]) {
      assert e == ReferenceEvent(current, infos[0])[0];
    } else {
      CheckReferencesSound(current, infos[1..], e);
      if e.NewReference? {
        var i :| 0 <= i < |infos[1..]| && infos[1..][i].ref !in current && infos[1..][i].name == e.name;
        assert infos[i + 1] == infos[1..][i];
      } else {
        var i :| 0 <= i < |infos[1..]| && infos[1..][i].ref in current && infos[1..][i].name == e.name
          && current[infos[1..][i].ref] == e.local && infos[1..][i].commit == e.remote && e.local != e.remote;
        assert infos[i + 1] == infos[1..][i];
      }
    }
  }

  // ---------------------------------------------------------------------------
  // Branch diff, shared with check_changes in actions.py

  /** What a branch's snapshot commit is compared with: the commit of the
      remote ref indexed under the branch's name (`check_branches`), or the
      branch's own commit as read after the pull (`check_changes`). */
  datatype Counterpart = ByRemoteHead(index: map<string, RemoteRef>) | OwnCommit

  /** The commit to compare with, or None when the branch has no remote counterpart. */
  function Target(against: Counterpart, branch: Branch): Option<Commit>
  {
    match against
    case ByRemoteHead(index) => if branch.name in index then Some(index[branch.name].commit) else None
    case OwnCommit => Some(branch.commit)
  }

  /** The event one branch contributes, once its snapshot commit is known. */
  function BranchEvent(current: map<Ref, Commit>, branch: Branch, against: Counterpart): seq<Event>
    requires branch.ref in current
  {
    match Target(against, branch)
    case None => []
    case Some(commit) =>
      if current[branch.ref] != commit then [BranchUpdated(branch.name, current[branch.ref], commit)] else []
  }

  /** All branches are keys of the snapshot. */
  predicate AllInSnapshot(current: map<Ref, Commit>, branches: seq<Branch>)
  {
    forall i | 0 <= i < |branches| :: branches[i].ref in current
  }

  /** The branch loop: the snapshot lookup comes first and nothing catches its
      `KeyError`, so a branch missing from the snapshot ends the loop with the
      error, after the events of the branches before it. */
  function BranchDiff(current: map<Ref, Commit>, branches: seq<Branch>, against: Counterpart): (run: Run)
    ensures run.completion.Returned? <==> AllInSnapshot(current, branches)
    ensures run.completion.Returned? ==> run.completion.value
    ensures |run.events| <= |branches|
    ensures run.completion.RaisedKeyError? ==>
      run.completion.key !in current && exists k | 0 <= k < |branches| :: branches[k].ref == run.completion.key
    ensures forall e | e in run.events :: e.BranchUpdated?
  {
    if branches == [] then Run([], Returned(true))
    else if branches[0].ref !in current then Run([], RaisedKeyError(branches[0].ref))
    else
      var rest := BranchDiff(current, branches[1..], against);
      assert AllInSnapshot(current, branches) <==> AllInSnapshot(current, branches[1..]) by {
        if AllInSnapshot(current, branches[1..]) {
          forall i | 0 <= i < |branches| ensures branches[i].ref in current {
            if i > 0 { assert branches[i] == branches[1..][i - 1]; }
          }
        }
      }
      assert rest.completion.RaisedKeyError? ==> exists k | 0 <= k < |branches| :: branches[k].ref == rest.completion.key by {
        if rest.completion.RaisedKeyError? {
          var k :| 0 <= k < |branches[1..]| && branches[1..][k].ref == rest.completion.key;
          assert branches[k + 1] == branches[1..][k];
        }
      }
      Run(BranchEvent(current, branches[0], against) + rest.events, rest.completion)
  }

  /** A prefix whose branches all have snapshot entries runs to its end, and
      the rest of the loop follows it. */
  lemma {:induction false} BranchDiffAppend(current: map<Ref, Commit>, xs: seq<Branch>, ys: seq<Branch>, against: Counterpart)
    requires AllInSnapshot(current, xs)
    ensures BranchDiff(current, xs + ys, against)
      == Run(BranchDiff(current, xs, against).events + BranchDiff(current, ys, against).events,
             BranchDiff(current, ys, against).completion)
  {
    if xs == [] {
      assert xs + ys == ys;
    } else {
      assert (xs + ys)[1..] == xs[1..] + ys;
      assert (xs + ys)[0] == xs[0];
      assert AllInSnapshot(current, xs[1..]) by {
        forall i | 0 <= i < |xs[1..]| ensures xs[1..][i].ref in current {
          assert xs[1..][i] == xs[i + 1];
        }
      }
      BranchDiffAppend(current, xs[1..], ys, against);
    }
  }

  /** The first branch missing from the snapshot raises `KeyError` on its
      reference; the events emitted are exactly those of the branches before it. */
  lemma BranchDiffRaises(current: map<Ref, Commit>, branches: seq<Branch>, against: Counterpart, k: nat)
    requires k < |branches| && branches[k].ref !in current
    requires AllInSnapshot(current, branches[..k])
    ensures BranchDiff(current, branches, against)
      == Run(BranchDiff(current, branches[..k], against).events, RaisedKeyError(branches[k].ref))
  {
    assert branches == branches[..k] + branches[k..];
    BranchDiffAppend(current, branches[..k], branches[k..], against);
  }

  /** The place of branch `i` in the report of a loop that does not raise. */
  lemma BranchDiffAt(current: map<Ref, Commit>, branches: seq<Branch>, against: Counterpart, i: nat)
    requires i < |branches| && AllInSnapshot(current, branches)
    ensures BranchDiff(current, branches, against).events
      == BranchDiff(current, branches[..i], against).events
       + BranchEvent(current, branches[i], against)
       + BranchDiff(current, branches[i + 1..], against).events
  {
    assert branches == branches[..i] + ([branches[i]] + branches[i + 1..]);
    assert AllInSnapshot(current, branches[..i]) by {
      forall j | 0 <= j < i ensures branches[..i][j].ref in current {
        assert branches[..i][j] == branches[j];
      }
    }
    BranchDiffAppend(current, branches[..i], [branches[i]] + branches[i + 1..], against);
    BranchDiffAppend(current, [branches[i]], branches[i + 1..], against);
    assert [branches[i]][1..] == [];
  }

  // ---------------------------------------------------------------------------
  // check_branches

  /** `{ref.remote_head: ref for ref in remote.refs}`: one entry per short
      name on the remote. */
  function RemoteIndex(remoteRefs: seq<RemoteRef>): (index: map<string, RemoteRef>)
    ensures index.Keys == set r | r in remoteRefs :: r.remoteHead
  {
    var pairs := seq(|remoteRefs|, i requires 0 <= i < |remoteRefs| => (remoteRefs[i].remoteHead, remoteRefs[i]));
    assert forall r | r in remoteRefs :: exists i | 0 <= i < |pairs| :: pairs[i].0 == r.remoteHead by {
      forall r | r in remoteRefs ensures exists i | 0 <= i < |pairs| :: pairs[i].0 == r.remoteHead {
        var i :| 0 <= i < |remoteRefs| && remoteRefs[i] == r;
        assert pairs[i].0 == r.remoteHead;
      }
    }
    FromPairs(pairs)
  }

  /** The ref the index keeps under a name is the last remote ref carrying
      that name: on a clash the later ref wins. */
  lemma RemoteIndexLastWins(remoteRefs: seq<RemoteRef>, j: nat)
    requires j < |remoteRefs|
    requires forall k | j < k < |remoteRefs| :: remoteRefs[k].remoteHead != remoteRefs[j].remoteHead
    ensures RemoteIndex(remoteRefs)[remoteRefs[j].remoteHead] == remoteRefs[j]
  {
    var pairs := seq(|remoteRefs|, i requires 0 <= i < |remoteRefs| => (remoteRefs[i].remoteHead, remoteRefs[i]));
    FromPairsLastWins(pairs, j);
  }

  /** Every entry of the index is a ref of the remote with that short name,
      and no later ref of the remote has the same name. */
  lemma RemoteIndexSource(remoteRefs: seq<RemoteRef>, name: string) returns (j: nat)
    requires name in RemoteIndex(remoteRefs)
    ensures j < |remoteRefs| && remoteRefs[j] == RemoteIndex(remoteRefs)[name] && remoteRefs[j].remoteHead == name
    ensures forall k | j < k < |remoteRefs| :: remoteRefs[k].remoteHead != name
  {
    var pairs := seq(|remoteRefs|, i requires 0 <= i < |remoteRefs| => (remoteRefs[i].remoteHead, remoteRefs[i]));
    j := FromPairsSource(pairs, name);
    forall k | j < k < |remoteRefs| ensures remoteRefs[k].remoteHead != name {
      assert pairs[k].0 == remoteRefs[k].remoteHead;
    }
  }

  /** `check_branches`: each branch's snapshot commit against the commit of
      the remote ref indexed under its name; returns True unless a branch is
      missing from the snapshot, in which case the `KeyError` on that branch
      escapes. */
  function CheckBranches(branches: seq<Branch>, current: map<Ref, Commit>, remoteRefs: seq<RemoteRef>): (run: Run)
    ensures run.completion == Returned(true) <==> AllInSnapshot(current, branches)
    ensures run.completion.RaisedKeyError? ==>
      exists k | 0 <= k < |branches| :: branches[k].ref !in current && run.completion.key == branches[k].ref
    ensures |run.events| <= |branches|
  {
    BranchDiff(current, branches, ByRemoteHead(RemoteIndex(remoteRefs)))
  }

  /** A branch whose name no remote ref carries is skipped without an event
      and without an error; a tracked branch yields an update event iff its
      snapshot commit differs from the commit of the remote ref indexed under
      its name (the last one on a clash), carrying (name, snapshot commit,
      remote commit); events keep the order of the branches. */
  lemma CheckBranchesAt(branches: seq<Branch>, current: map<Ref, Commit>, remoteRefs: seq<RemoteRef>, i: nat)
    requires i < |branches| && AllInSnapshot(current, branches)
    ensures var b, index := branches[i], RemoteIndex(remoteRefs);
      var before, after := CheckBranches(branches[..i], current, remoteRefs).events,
                           CheckBranches(branches[i + 1..], current, remoteRefs).events;
      && CheckBranches(branches, current, remoteRefs).completion == Returned(true)
      && ((forall r | r in remoteRefs :: r.remoteHead != b.name) ==>
            CheckBranches(branches, current, remoteRefs).events == before + after)
      && (b.name in index && current[b.ref] == index[b.name].commit ==>
            CheckBranches(branches, current, remoteRefs).events == before + after)
      && (b.name in index && current[b.ref] != index[b.name].commit ==>
            CheckBranches(branches, current, remoteRefs).events
              == before + [BranchUpdated(b.name, current[b.ref], index[b.name].commit)] + after)
  {
    BranchDiffAt(current, branches, ByRemoteHead(RemoteIndex(remoteRefs)), i);
  }
}
