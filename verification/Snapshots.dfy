/** Snapshot selection (snapshots/snapshots.go): Latest as a shortcut for full replay. */
module Snapshots {
  import opened Options

  /** A listed snapshot: the event version it was taken at, and the saved state. */
  datatype Record<S> = Record(version: nat, data: S)

  /** The loop of Latest over what List returned; None stands for the empty Record. */
  method Latest<S>(all: seq<Record<S>>) returns (latest: Option<Record<S>>)
    ensures latest.None? <==> all == []
    ensures latest.Some? ==> exists k :: FirstHighest(all, k) && all[k] == latest.value
  {
    if |all| == 0 {
      return None;
    }
    var best := all[0];
    ghost var k := 0;
    for i := 1 to |all|
      invariant 0 <= k < i && all[k] == best
      invariant forall j :: 0 <= j < i ==> all[j].version <= best.version
      invariant forall j :: 0 <= j < k ==> all[j].version < best.version
    {
      if all[i].version > best.version {
        best := all[i];
        k := i;
      }
    }
    assert FirstHighest(all, k);
    return Some(best);
  }

  /** Position k holds the highest version, and no earlier position does. */
  predicate FirstHighest<S>(all: seq<Record<S>>, k: int) {
    && 0 <= k < |all|
    && (forall j :: 0 <= j < |all| ==> all[j].version <= all[k].version)
    && (forall j :: 0 <= j < k ==> all[j].version < all[k].version)
  }

  /** Replaying events, in order, on top of a state. */
  function Replay<S, E>(apply: (S, E) -> S, state: S, events: seq<E>): S {
    if events == [] then state
    else apply(Replay(apply, state, events[..|events| - 1]), events[|events| - 1])
  }

  lemma {:induction false} ReplaySplits<S, E>(apply: (S, E) -> S, state: S, a: seq<E>, b: seq<E>)
    ensures Replay(apply, state, a + b) == Replay(apply, Replay(apply, state, a), b)
  {
    if b == [] {
      assert a + b == a;
    } else {
      var n := |b| - 1;
      ReplaySplits(apply, state, a, b[..n]);
      assert (a + b)[..|a| + n] == a + b[..n];
    }
  }

  method ReplayOnto<S, E>(apply: (S, E) -> S, initial: S, events: seq<E>) returns (state: S)
    ensures state == Replay(apply, initial, events)
  {
    state := initial;
    for i := 0 to |events|
      invariant state == Replay(apply, initial, events[..i])
    {
      assert events[..i + 1][..i] == events[..i];
      state := apply(state, events[i]);
    }
    assert events[..|events|] == events;
  }

  /** A snapshot holds the replay of the events up to and including its version; events
      are numbered from 0. */
  ghost predicate Truthful<S, E>(apply: (S, E) -> S, initial: S, events: seq<E>, r: Record<S>) {
    r.version < |events| && r.data == Replay(apply, initial, events[..r.version + 1])
  }

  /** Replaying the later events on top of any truthful snapshot is the full replay. */
  lemma SnapshotShortcut<S, E>(apply: (S, E) -> S, initial: S, events: seq<E>, r: Record<S>)
    requires Truthful(apply, initial, events, r)
    ensures Replay(apply, r.data, events[r.version + 1..]) == Replay(apply, initial, events)
  {
    var before, after := events[..r.version + 1], events[r.version + 1..];
    ReplaySplits(apply, initial, before, after);
    assert before + after == events;
  }

  /** Loading from Latest and replaying only the events after its version gives the full
      replay, for every fold; and no other listed snapshot leaves fewer events to replay. */
  method Load<S, E>(apply: (S, E) -> S, initial: S, events: seq<E>, all: seq<Record<S>>)
    returns (state: S, replayed: nat)
    requires forall i :: 0 <= i < |all| ==> Truthful(apply, initial, events, all[i])
    ensures state == Replay(apply, initial, events)
    ensures all == [] ==> replayed == |events|
    ensures all != [] ==> exists i :: FirstHighest(all, i) && replayed == |events| - (all[i].version + 1)
    ensures replayed <= |events| && forall i :: 0 <= i < |all| ==> replayed <= |events| - (all[i].version + 1)
  {
    var latest := Latest(all);
    if latest.None? {
      state := ReplayOnto(apply, initial, events);
      replayed := |events|;
    } else {
      var r := latest.value;
      SnapshotShortcut(apply, initial, events, r);
      state := ReplayOnto(apply, r.data, events[r.version + 1..]);
      replayed := |events| - (r.version + 1);
    }
  }
}
