/** The chain snapshots that feed the miner and the staleness filter applied
    to them: `distinctUntilChanged` with a comparator that looks at
    `state.current` only (src/app/app.component.ts:94-97). */
module Chain {
  import opened Preimage

  /** The contract's instance state as read by `fetchLatestBlock`. */
  datatype ChainState = ChainState(fcm: string, current: nat, difficulty: nat, isNuked: bool, finder: string)

  /** The stored record of the block at index `current`. */
  datatype Block = Block(index: nat, message: string, prevHash: Bytes, nonce: nat,
                         miner: string, hash: Bytes, timestamp: nat)

  /** One poll result, `{ block, state }`. */
  datatype Snapshot = Snapshot(block: Block, state: ChainState)

  /** The comparator: two successive snapshots are the same mining target
      exactly when their `state.current` is equal. */
  predicate SameTarget(previous: Snapshot, current: Snapshot) {
    previous.state.current == current.state.current
  }

  /** What `distinctUntilChanged` lets through of `polls`, given the key it
      last emitted: RxJS compares each value with the last EMITTED one and
      only an emission replaces that key. */
  function EmitAfter(last: Snapshot, polls: seq<Snapshot>): (out: seq<Snapshot>)
    ensures |out| <= |polls|
    ensures forall i :: 0 <= i < |out| ==> out[i] in polls
    decreases |polls|
  {
    if polls == [] then []
    else if SameTarget(last, polls[0]) then EmitAfter(last, polls[1..])
    else [polls[0]] + EmitAfter(polls[0], polls[1..])
  }

  /** The stream `state$` after the filter: the first poll always passes. */
  function DistinctUntilChanged(polls: seq<Snapshot>): (out: seq<Snapshot>)
    ensures |out| <= |polls|
    ensures forall i :: 0 <= i < |out| ==> out[i] in polls
    ensures polls != [] ==> out != [] && out[0] == polls[0]
  {
    if polls == [] then [] else [polls[0]] + EmitAfter(polls[0], polls[1..])
  }

  /** The last key the filter holds after reading `polls`. */
  function LastKept(last: Snapshot, polls: seq<Snapshot>): Snapshot
    decreases |polls|
  {
    if polls == [] then last
    else if SameTarget(last, polls[0]) then LastKept(last, polls[1..])
    else LastKept(polls[0], polls[1..])
  }

  lemma {:induction false} LastKeptTracksLatestTarget(last: Snapshot, polls: seq<Snapshot>)
    requires polls != []
    ensures LastKept(last, polls).state.current == polls[|polls| - 1].state.current
    decreases |polls|
  {
    if |polls| > 1 {
      var next := if SameTarget(last, polls[0]) then last else polls[0];
      LastKeptTracksLatestTarget(next, polls[1..]);
    }
  }

  lemma {:induction false} EmitAfterAppend(last: Snapshot, polls: seq<Snapshot>, p: Snapshot)
    ensures EmitAfter(last, polls + [p]) ==
            EmitAfter(last, polls) + (if SameTarget(LastKept(last, polls), p) then [] else [p])
    decreases |polls|
  {
    if polls != [] {
      assert (polls + [p])[0] == polls[0];
      assert (polls + [p])[1..] == polls[1..] + [p];
      var next := if SameTarget(last, polls[0]) then last else polls[0];
      EmitAfterAppend(next, polls[1..], p);
    }
  }

  /** The filter read as a stream operator: a new poll is passed on exactly
      when its `current` differs from the previous poll's. A poll that only
      changes `difficulty`, `finder` or any other field is dropped. */
  lemma AppendPoll(polls: seq<Snapshot>, p: Snapshot)
    requires polls != []
    ensures DistinctUntilChanged(polls + [p]) ==
            DistinctUntilChanged(polls) + (if SameTarget(polls[|polls| - 1], p) then [] else [p])
  {
    assert (polls + [p])[0] == polls[0];
    assert (polls + [p])[1..] == polls[1..] + [p];
    EmitAfterAppend(polls[0], polls[1..], p);
    if |polls| > 1 {
      LastKeptTracksLatestTarget(polls[0], polls[1..]);
    }
  }

  /** A change of difficulty alone never reaches the miner. */
  lemma DifficultyChangeNotEmitted(polls: seq<Snapshot>, difficulty: nat)
    requires polls != []
    ensures var p := polls[|polls| - 1];
            var q := p.(state := p.state.(difficulty := difficulty));
            DistinctUntilChanged(polls + [q]) == DistinctUntilChanged(polls)
  {
    var p := polls[|polls| - 1];
    AppendPoll(polls, p.(state := p.state.(difficulty := difficulty)));
  }

  lemma {:induction false} EmitAfterChangesTarget(last: Snapshot, polls: seq<Snapshot>)
    ensures var out := EmitAfter(last, polls);
            && (out != [] ==> !SameTarget(last, out[0]))
            && forall i :: 0 <= i < |out| - 1 ==> !SameTarget(out[i], out[i + 1])
    decreases |polls|
  {
    if polls != [] {
      if SameTarget(last, polls[0]) {
        EmitAfterChangesTarget(last, polls[1..]);
      } else {
        EmitAfterChangesTarget(polls[0], polls[1..]);
      }
    }
  }

  /** Successive emissions always name different target blocks. */
  lemma EmissionsChangeTarget(polls: seq<Snapshot>)
    ensures var out := DistinctUntilChanged(polls);
            forall i :: 0 <= i < |out| - 1 ==> out[i].state.current != out[i + 1].state.current
  {
    if polls != [] {
      EmitAfterChangesTarget(polls[0], polls[1..]);
    }
  }
}
