/** The segment manifest: an append-only log of additions and removals, and the list it replays to. */
module Manifest {

  /** The metadata compaction looks at. */
  datatype Meta = Meta(id: nat, bucket: int, death: int)

  datatype LogEntry = Add(meta: Meta) | Remove(id: nat)

  /** The entries of `ms` whose ids are not in `ids`, in order. */
  function Drop(ms: seq<Meta>, ids: set<nat>): seq<Meta> {
    if ms == [] then [] else Drop(ms[..|ms| - 1], ids) + KeepMeta(ms[|ms| - 1], ids)
  }

  function KeepMeta(m: Meta, ids: set<nat>): seq<Meta> {
    if m.id in ids then [] else [m]
  }

  function ReplayOne(ms: seq<Meta>, e: LogEntry): seq<Meta> {
    match e
    case Add(meta) => ms + [meta]
    case Remove(id) => Drop(ms, {id})
  }

  function Replay(log: seq<LogEntry>): seq<Meta> {
    if log == [] then [] else ReplayOne(Replay(log[..|log| - 1]), log[|log| - 1])
  }

  // ---- Dropping ----

  lemma {:induction false} DropMembers(ms: seq<Meta>, ids: set<nat>)
    ensures forall m :: m in Drop(ms, ids) <==> m in ms && m.id !in ids
  {
    if ms != [] {
      assert ms == ms[..|ms| - 1] + [ms[|ms| - 1]];
      DropMembers(ms[..|ms| - 1], ids);
    }
  }

  lemma {:induction false} DropSnoc(ms: seq<Meta>, m: Meta, ids: set<nat>)
    ensures Drop(ms + [m], ids) == Drop(ms, ids) + KeepMeta(m, ids)
  {
    assert (ms + [m])[..|ms|] == ms;
  }

  lemma {:induction false} DropTwice(ms: seq<Meta>, a: set<nat>, b: set<nat>)
    ensures Drop(Drop(ms, a), b) == Drop(ms, a + b)
  {
    if ms != [] {
      var ms', m := ms[..|ms| - 1], ms[|ms| - 1];
      DropTwice(ms', a, b);
      if m.id !in a {
        DropSnoc(Drop(ms', a), m, b);
      } else {
        assert Drop(ms, a) == Drop(ms', a);
      }
    }
  }

  lemma {:induction false} DropNone(ms: seq<Meta>, ids: set<nat>)
    requires forall m :: m in ms ==> m.id !in ids
    ensures Drop(ms, ids) == ms
  {
    if ms != [] {
      DropNone(ms[..|ms| - 1], ids);
    }
  }

  // ---- Logs ----

  function Removals(ids: seq<nat>): (r: seq<LogEntry>)
    ensures |r| == |ids| && forall i :: 0 <= i < |ids| ==> r[i] == Remove(ids[i])
  {
    seq(|ids|, i requires 0 <= i < |ids| => Remove(ids[i]))
  }

  function IdSet(ids: seq<nat>): set<nat> {
    set id | id in ids
  }

  lemma {:induction false} ReplaySnoc(log: seq<LogEntry>, e: LogEntry)
    ensures Replay(log + [e]) == ReplayOne(Replay(log), e)
  {
    assert (log + [e])[..|log|] == log;
  }

  /** Removing ids one by one in the log drops them all from the list. */
  lemma {:induction false} ReplayRemovals(log: seq<LogEntry>, ids: seq<nat>)
    ensures Replay(log + Removals(ids)) == Drop(Replay(log), IdSet(ids))
  {
    if ids == [] {
      assert log + Removals(ids) == log;
      DropNone(Replay(log), IdSet(ids));
    } else {
      var ids', id := ids[..|ids| - 1], ids[|ids| - 1];
      ReplayRemovals(log, ids');
      RemovalsSnoc(log, ids);
      ReplaySnoc(log + Removals(ids'), Remove(id));
      DropTwice(Replay(log), IdSet(ids'), {id});
    }
  }

  lemma {:induction false} RemovalsSnoc(log: seq<LogEntry>, ids: seq<nat>)
    requires ids != []
    ensures var ids', id := ids[..|ids| - 1], ids[|ids| - 1];
            log + Removals(ids) == log + Removals(ids') + [Remove(id)] && IdSet(ids) == IdSet(ids') + {id}
  {
    var ids', id := ids[..|ids| - 1], ids[|ids| - 1];
    assert ids == ids' + [id];
    assert Removals(ids) == Removals(ids') + [Remove(id)];
  }

  /** Replays the entries of a log file in order. */
  method ReplayLog(log: seq<LogEntry>) returns (segments: seq<Meta>)
    ensures segments == Replay(log)
  {
    segments := [];
    for i := 0 to |log|
      invariant segments == Replay(log[..i])
    {
      assert log[..i + 1][..i] == log[..i];
      match log[i]
      case Add(meta) => segments := segments + [meta];
      case Remove(id) => segments := Drop(segments, {id});
    }
    assert log[..|log|] == log;
  }

  /** The open manifest: its file and the list kept beside it. */
  class ManifestFile {
    var log: seq<LogEntry>
    var segments: seq<Meta>

    /** Reopening the file gives the list in memory. */
    ghost predicate Valid()
      reads this
    {
      segments == Replay(log)
    }

    /** Opens a manifest by replaying its file. */
    constructor (log: seq<LogEntry>)
      ensures Valid() && this.log == log
    {
      this.log := log;
      new;
      segments := ReplayLog(log);
    }

    method AddSegment(meta: Meta)
      requires Valid()
      modifies this
      ensures Valid() && segments == old(segments) + [meta] && log == old(log) + [Add(meta)]
    {
      ReplaySnoc(log, Add(meta));
      log := log + [Add(meta)];
      segments := segments + [meta];
    }

    /** One removal is logged per id; the list drops them all at once. */
    method RemoveSegments(ids: seq<nat>)
      requires Valid()
      modifies this
      ensures Valid() && segments == Drop(old(segments), IdSet(ids)) && log == old(log) + Removals(ids)
    {
      ReplayRemovals(log, ids);
      for i := 0 to |ids|
        invariant log == old(log) + Removals(ids[..i]) && segments == old(segments)
      {
        assert ids[..i + 1][..i] == ids[..i];
        RemovalsSnoc(old(log), ids[..i + 1]);
        log := log + [Remove(ids[i])];
      }
      assert ids[..|ids|] == ids;
      segments := Drop(segments, IdSet(ids));
    }
  }
}
