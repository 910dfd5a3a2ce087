# git_update: change detection after `git pull`

`git_update` walks a directory of git working copies and pulls each one. Around
every pull it reports what moved. Before pulling, it snapshots the repository's
references as a map from reference to commit. After pulling, it compares that
snapshot with what the pull reported and with the branches.

This project models that logic in Dafny:

- `Git` (`git.dfy`) holds the abstract library values. A reference is keyed by
  its path and a commit is an opaque id. It also holds fetch results, branches,
  remote-tracking refs and the reported events. `FromPairs` gives the
  semantics of a dict comprehension: pairs are stored in order, so the later
  of two equal keys wins.
- `Checks` (`checks.dfy`) models `git_update/checks.py`:
  - `check_references` is the fetch-result diff.
  - `check_branches` builds the remote index keyed by `remote_head`, then runs
    the branch diff.
  - The branch loop (`BranchDiff`) is also shared with `check_changes`. It is
    parameterised by what each branch's snapshot commit is compared with: the
    commit of the remote ref indexed under the branch name, or the branch's
    own commit.
- `Actions` (`actions.dfy`) models `git_update/actions.py`:
  - the snapshot `{ref: ref.commit for ref in repo.refs}`;
  - `check_changes`, which is the reference diff followed by the branch loop;
  - `update_repo`, which runs open, snapshot, resolve remote, pull and check
    changes, and returns False at the first caught failure.

`git_update/git_update.py` is an earlier revision of the same module. Its
`check_changes` (lines 11-38) and `update_repo` (lines 41-72) match
`actions.py` lines 8-35 and 38-69 statement for statement. The `Actions`
members therefore model both files, and the table below cites whichever
revision each row is read against.

Library results are inputs of the model:
- opening a path gives `Option<Repo>`;
- `repo.remote()` gives an `Option` inside `Repo`;
- `remote.pull()` gives a `PullResult`, which holds either the fetch results
  and the branches read after the pull, or a `GitCommandError`.

Log and echo output is returned as a sequence of `Event` values, by kind and
payload. `update_repo` also returns the list of steps it attempted, so the
contracts can say that no pull happens after a failed remote lookup, and that
changes are not checked after a failed pull.

A `KeyError` that escapes is modelled as `Completion.RaisedKeyError`. This
happens when a branch is missing from the snapshot. Nothing in the branch
loops, or in `update_repo`, catches it. The events already emitted are kept
in the `Run`.

Notes on behaviour, following the code:
- A branch with no remote counterpart produces no event in `check_branches`.
  The code only logs a debug line for it.
- `check_branches` compares the snapshot commit `current[branch]` with the
  remote commit. The `check_changes` branch loop compares the snapshot commit
  with `branch.commit`.
- `update_repo` returns a boolean. A failed pull is reported with the error
  text only, not with the remote's URL.

## Model

| member | source | states |
|---|---|---|
| `Git.FromPairs` | git_update/actions.py:49 | A dict built from a sequence of pairs has exactly the pairs' keys |
| `Git.FromPairsLastWins` | git_update/checks.py:46 | The last pair carrying a key is the value the dict keeps |
| `Git.FromPairsSource` | git_update/git_update.py:52 | Every dict entry is the value of the last pair carrying its key |
| `Checks.CheckReferences` | git_update/checks.py:9-35 | At most one event per fetch result; every event is "new reference" or "updated" |
| `Checks.CheckReferencesAppend` | git_update/checks.py:17 | The report for two lists in sequence is the first list's report followed by the second's, so events follow fetch-result order and an empty list reports nothing |
| `Checks.CheckReferencesAt` | git_update/checks.py:22-35 | Fetch result i contributes, between the events of the results before and after it: exactly one "new reference" event (and no update) when its ref is not a snapshot key; nothing when the snapshot commit equals the fetched commit; otherwise one update event carrying (name, snapshot commit, fetched commit) |
| `Checks.CheckReferencesSound` | git_update/checks.py:23-33 | Every "new reference" event comes from a fetch result whose ref the snapshot lacks; every update event comes from a fetch result whose snapshot commit differs from its fetched commit, with those two commits as payload |
| `Checks.BranchDiff` | git_update/checks.py:47-62 | The branch loop returns True iff every branch is a snapshot key; otherwise the KeyError names a branch missing from the snapshot; at most one update event per branch |
| `Checks.BranchDiffAppend` | git_update/actions.py:28-33 | A prefix of branches that are all snapshot keys runs to its end, and the rest of the loop continues after its events |
| `Checks.BranchDiffRaises` | git_update/checks.py:50 | The first branch missing from the snapshot raises KeyError on that branch, after exactly the events of the branches before it, because the lookup is outside the try |
| `Checks.BranchDiffAt` | git_update/git_update.py:31-36 | In a run that does not raise, branch i's event (if any) sits between those of the branches before and after it |
| `Checks.RemoteIndex` | git_update/checks.py:46 | The remote index has exactly the remote refs' remote_head names as keys |
| `Checks.RemoteIndexLastWins` | git_update/checks.py:46 | On a name clash, the later ref in remote.refs is the one indexed |
| `Checks.RemoteIndexSource` | git_update/checks.py:53 | The ref found under a name is a ref of the remote with that remote_head, and no later ref has the same name |
| `Checks.CheckBranches` | git_update/checks.py:38-64 | Returns True iff every branch is a snapshot key; otherwise the escaping KeyError is on a branch missing from the snapshot; at most one event per branch |
| `Checks.CheckBranchesAt` | git_update/checks.py:50-62 | When no branch is missing from the snapshot, the call returns True, and branch i: is skipped with no event and no error when no remote ref has its name; gives no event when the snapshot commit equals the indexed remote ref's commit; otherwise gives one update event (name, snapshot commit, remote commit) in branch order |
| `Actions.Snapshot` | git_update/actions.py:49 | The snapshot's keys are exactly the repository's references |
| `Actions.SnapshotCommits` | git_update/git_update.py:52 | Each reference of the repository is mapped to the commit it resolved to when the snapshot was taken |
| `Actions.CheckChanges` | git_update/actions.py:8-35 | The fetch results' report comes first and is emitted whatever the branch loop does; returns True iff every branch is a snapshot key; otherwise the KeyError is on a branch missing from the snapshot |
| `Actions.CheckChangesBranchAt` | git_update/actions.py:28-33 | In a run that does not raise, branch i gives an update event iff its snapshot commit differs from branch.commit; the event carries (name, snapshot commit, branch.commit) and follows branch order |
| `Actions.CheckChangesRaises` | git_update/git_update.py:31-38 | A branch missing from the snapshot propagates KeyError on that branch; the events emitted are exactly those of the same call on the branches before it |
| `Actions.PrePullSnapshotReportsReference` | git_update/git_update.py:21-29 | With the snapshot taken from the repository before the pull: a fetch result for a reference the repository lacked is reported new; one whose pre-pull commit differs is reported with (name, pre-pull commit, fetched commit) |
| `Actions.PrePullSnapshotReportsBranch` | git_update/actions.py:47-67 | With the snapshot taken before the pull, a branch the pull moved is reported with its pre-pull and post-pull commits |
| `Actions.UpdateRepo` | git_update/actions.py:38-69 | An invalid repository returns False with only the open step attempted. A failed remote lookup returns False before any pull. A failed pull returns False without checking changes. Success runs check_changes on the pre-pull snapshot and the branches read after the pull. The result is True iff every step succeeded and no branch was missing from the snapshot; a KeyError can only come from the change check |

## Left out

- Debug log lines ("Checking for change in …", "Skipping local ref …") are not modelled. Only the reported events are.
- Message text, colours and log levels are not modelled. Events carry only their kind and payload.
- The `CheckRemotes` event carries the directory but not `repo.remotes`, the remote list the warning also prints.
- `Checks.CheckReferences`: returns its events only. The Python function returns None, and no caller uses that value.
- `main` in `git_update/git_update.py` (lines 75-104) and `git_update/__main__.py` are not modelled. They hold the command-line parsing, logging setup and directory listing. The `crawl` that `__main__.py` imports is not defined in `actions.py`, so crawling over a directory is not part of this model.
- `setup.py` holds packaging metadata only.
- GitPython internals are abstract inputs:
  - how `Repo(directory)` decides that a path is not a repository; its other exceptions, such as a missing path, are not modelled;
  - which remote `repo.remote()` picks, or why it raises `ValueError`;
  - how `remote.pull()` fetches and moves references. Its effect on the repository appears only as the branch list read after it.
- The `None` defaults of `branch_list` and `remote` in `check_branches` (checks.py:38) would crash on first use. The model's parameter types exclude them.
