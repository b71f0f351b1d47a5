/**
 * The remote list: adding appends, updating merges a partial record into
 * every remote with a name, removing filters them out.
 */
module RemoteStore {
  import opened Wrappers
  import opened Seqs

  datatype RemoteItem = RemoteItem(name: string, fetchUrl: string, pushUrl: Option<string>)

  /**
   * A partial record: `None` is a field the payload does not carry. A
   * carried `pushUrl` may itself be undefined, which clears it.
   */
  datatype Patch = Patch(name: Option<string>, fetchUrl: Option<string>, pushUrl: Option<Option<string>>)

  function InitialRemotes(): seq<RemoteItem> {
    [RemoteItem("origin", "https://github.com/example/repo.git", Some("git@github.com:example/repo.git"))]
  }

  /** The remote with each field the patch sets replaced, and the others kept. */
  function Merge(r: RemoteItem, p: Patch): RemoteItem {
    RemoteItem(p.name.GetOr(r.name), p.fetchUrl.GetOr(r.fetchUrl), p.pushUrl.GetOr(r.pushUrl))
  }

  /** `addRemote`: appended at the end, with no duplicate check. */
  function WithRemote(remotes: seq<RemoteItem>, remote: RemoteItem): seq<RemoteItem> {
    remotes + [remote]
  }

  /** `updateRemote`: every remote with the name takes the payload's fields. */
  function Patched(remotes: seq<RemoteItem>, name: string, p: Patch): seq<RemoteItem> {
    seq(|remotes|, i requires 0 <= i < |remotes| => if remotes[i].name == name then Merge(remotes[i], p) else remotes[i])
  }

  /** `removeRemote`: the remotes with other names, in order. */
  function WithoutName(remotes: seq<RemoteItem>, name: string): seq<RemoteItem> {
    Filter((r: RemoteItem) => r.name != name, remotes)
  }

  // ---------------------------------------------------------------- properties

  /** The initial state is one remote, `origin`, with both addresses set. */
  lemma InitialIsOrigin()
    ensures |InitialRemotes()| == 1
    ensures InitialRemotes()[0].name == "origin" && InitialRemotes()[0].fetchUrl != "" && InitialRemotes()[0].pushUrl.Some?
  {
  }

  /** A field the payload carries is overwritten, every other field kept; an empty payload changes nothing. */
  lemma MergeFields(r: RemoteItem, p: Patch)
    ensures Merge(r, p).name == (if p.name.Some? then p.name.value else r.name)
    ensures Merge(r, p).fetchUrl == (if p.fetchUrl.Some? then p.fetchUrl.value else r.fetchUrl)
    ensures Merge(r, p).pushUrl == (if p.pushUrl.Some? then p.pushUrl.value else r.pushUrl)
    ensures Merge(r, Patch(None, None, None)) == r
    ensures Merge(Merge(r, p), p) == Merge(r, p)
  {
  }

  /** Adding appends exactly one remote, even when the name is already taken. */
  lemma WithRemoteAppends(remotes: seq<RemoteItem>, remote: RemoteItem)
    ensures |WithRemote(remotes, remote)| == |remotes| + 1
    ensures WithRemote(remotes, remote)[..|remotes|] == remotes && WithRemote(remotes, remote)[|remotes|] == remote
  {
  }

  /** Updating keeps length and order, merges into exactly the remotes with that name and leaves the rest. */
  lemma PatchedFrame(remotes: seq<RemoteItem>, name: string, p: Patch)
    ensures |Patched(remotes, name, p)| == |remotes|
    ensures forall i | 0 <= i < |remotes| && remotes[i].name != name :: Patched(remotes, name, p)[i] == remotes[i]
    ensures forall i | 0 <= i < |remotes| && remotes[i].name == name :: Patched(remotes, name, p)[i] == Merge(remotes[i], p)
    ensures (forall r | r in remotes :: r.name != name) ==> Patched(remotes, name, p) == remotes
  {
  }

  /** Applying the same update twice is the same as applying it once, even when the payload renames. */
  lemma PatchedIdempotent(remotes: seq<RemoteItem>, name: string, p: Patch)
    ensures Patched(Patched(remotes, name, p), name, p) == Patched(remotes, name, p)
  {
    var once := Patched(remotes, name, p);
    forall i | 0 <= i < |remotes| ensures Patched(once, name, p)[i] == once[i] {
      MergeFields(remotes[i], p);
    }
  }

  /** Removing drops exactly the remotes with that name, keeps every other occurrence, and is idempotent. */
  lemma WithoutNameDrops(remotes: seq<RemoteItem>, name: string, r: RemoteItem)
    ensures r in WithoutName(remotes, name) <==> r in remotes && r.name != name
    ensures r.name != name ==> multiset(WithoutName(remotes, name))[r] == multiset(remotes)[r]
    ensures WithoutName(WithoutName(remotes, name), name) == WithoutName(remotes, name)
  {
    FilterMembership((r: RemoteItem) => r.name != name, remotes, r);
    FilterCounts((r: RemoteItem) => r.name != name, remotes, r);
    FilterIdempotent((r: RemoteItem) => r.name != name, remotes);
  }

  // ---------------------------------------------------------------- the store

  class Store {
    var remotes: seq<RemoteItem>

    constructor()
      ensures remotes == InitialRemotes()
    {
      remotes := InitialRemotes();
    }

    method AddRemote(remote: RemoteItem)
      modifies this
      ensures remotes == WithRemote(old(remotes), remote)
    {
      remotes := WithRemote(remotes, remote);
    }

    method UpdateRemote(name: string, payload: Patch)
      modifies this
      ensures remotes == Patched(old(remotes), name, payload)
    {
      remotes := Patched(remotes, name, payload);
    }

    method RemoveRemote(name: string)
      modifies this
      ensures remotes == WithoutName(old(remotes), name)
    {
      remotes := WithoutName(remotes, name);
    }
  }
}
