/** Values the git library hands to the update logic, the events the logic
    reports, and the dict-comprehension semantics both snapshots and remote
    indexes are built with. Git objects are abstract: a reference is equal to
    another iff their paths are equal, a commit is an opaque id. */
module Git {

  datatype Option<T> = None | Some(value: T)

  /** A reference (branch head, tag or remote-tracking ref), keyed by its path. */
  datatype Ref = Ref(path: string)

  /** An opaque commit id. */
  datatype Commit = Commit(hexsha: string)

  /** A reference of the repository together with the commit it resolves to. */
  datatype RefState = RefState(ref: Ref, commit: Commit)

  /** One entry of what a pull reports: the remote ref's display name, the
      local reference it was written to, and the commit it now points at. */
  datatype FetchInfo = FetchInfo(name: string, ref: Ref, commit: Commit)

  /** A local branch head: its reference (the snapshot key), short name and
      the commit it points at when read. */
  datatype Branch = Branch(ref: Ref, name: string, commit: Commit)

  /** A remote-tracking ref: the branch's short name on the remote and its commit. */
  datatype RemoteRef = RemoteRef(remoteHead: string, commit: Commit)

  /** What the logic reports, by kind and payload (message text and colours are
      presentation). */
  datatype Event =
    | NewReference(name: string)
    | RefUpdated(name: string, local: Commit, remote: Commit)
    | BranchUpdated(name: string, local: Commit, remote: Commit)
    | Updating(gitDir: string)
    | NotValidRepository(directory: string)
    | CheckRemotes(directory: string)
    | PullFailed(error: string)

  /** How a call ends: it returns a value, or a `KeyError` on the given key escapes it. */
  datatype Completion = Returned(value: bool) | RaisedKeyError(key: Ref)

  /** The events a call emitted, in order, and how it ended. */
  datatype Run = Run(events: seq<Event>, completion: Completion)

  /** The dict `{k: v for (k, v) in ps}`: entries are stored in order, so a
      later pair overwrites an earlier one with the same key. */
  function FromPairs<K, V>(ps: seq<(K, V)>): (m: map<K, V>)
    ensures m.Keys == set i | 0 <= i < |ps| :: ps[i].0
  {
    if ps == [] then map[]
    else
      var init := FromPairs(ps[..|ps| - 1]);
      assert forall i | 0 <= i < |ps| - 1 :: ps[..|ps| - 1][i] == ps[i];
      init[ps[|ps| - 1].0 := ps[|ps| - 1].1]
  }

  /** The last pair with a given key is the one the dict keeps. */
  lemma {:induction false} FromPairsLastWins<K, V>(ps: seq<(K, V)>, j: nat)
    requires j < |ps|
    requires forall k | j < k < |ps| :: ps[k].0 != ps[j].0
    ensures ps[j].0 in FromPairs(ps) && FromPairs(ps)[ps[j].0] == ps[j].1
  {
    if j < |ps| - 1 {
      var init := ps[..|ps| - 1];
      assert init[j] == ps[j];
      forall k | j < k < |init| ensures init[k].0 != init[j].0 {
        assert init[k] == ps[k];
      }
      FromPairsLastWins(init, j);
    }
  }

  /** Every entry of the dict comes from the last pair carrying its key. */
  lemma {:induction false} FromPairsSource<K, V>(ps: seq<(K, V)>, key: K) returns (j: nat)
    requires key in FromPairs(ps)
    ensures j < |ps| && ps[j].0 == key && ps[j].1 == FromPairs(ps)[key]
    ensures forall k | j < k < |ps| :: ps[k].0 != key
  {
    var last := |ps| - 1;
    if ps[last].0 == key {
      j := last;
    } else {
      var init := ps[..last];
      j := FromPairsSource(init, key);
      assert init[j] == ps[j];
    }
  }
}
