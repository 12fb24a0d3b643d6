/** The component that runs the proof-of-work search
    (src/app/app.component.ts:87-154): the form controls it publishes to, the
    mining toggle, the nonce search loop and the hand-off to the transaction
    assembler. */
module Miner {
  import opened Preimage
  import opened Difficulty
  import opened Chain

  datatype Option<T> = None | Some(value: T)

  /** The two foreign primitives the search calls: the ScVal XDR encoders and
      `sha3.keccak256`, which returns the digest as lower-case hex. */
  datatype Crypto = Crypto(codec: ScValCodec, keccak256: Bytes -> string)

  /** What `generateXDR` is handed after the loop: the four arguments of the
      contract's `mine` entry point. */
  datatype MineArgs = MineArgs(hash: string, message: string, nonce: nat, miner: string)

  /** How `generateXDR` settles: the assembled transaction as XDR, or the
      simulation error it throws. */
  datatype Assembly = Assembled(xdr: string) | SimulationFailed(error: string)

  /** One trial of the loop: the nonce it hashed and the digest it got. */
  datatype Trial = Trial(nonce: nat, hash: string)

  /** The digest of the preimage for `nonce` within the attempt fixed by the
      captured snapshot `core`: the target is `state.current + 1` and the
      previous hash is the latest block's hash. */
  function TrialHash(crypto: Crypto, core: Snapshot, message: string, source: string, nonce: nat): string {
    crypto.keccak256(MiningPreimage(crypto.codec, core.state.current + 1, message, core.block.hash, nonce, source))
  }

  predicate Solves(crypto: Crypto, core: Snapshot, message: string, source: string, nonce: nat) {
    MeetsDifficulty(TrialHash(crypto, core, message, source, nonce), core.state.difficulty)
  }

  /** The value `miningToggle$.getValue()` returns at the k-th loop-head
      check; once the observed schedule is exhausted the operator has
      stopped mining. */
  function ToggleAt(toggles: seq<bool>, k: nat): (on: bool)
    ensures on ==> k < |toggles|
  {
    k < |toggles| && toggles[k]
  }

  /** What holds of the search loop's variables after any number of trials,
      for the attempt fixed by `core`, `message` and `source` and the toggle
      reads `toggles`: every trial was preceded by a true toggle read, the
      nonces below the current one all failed, a success holds the nonce
      whose digest passed, and otherwise `hash` is the digest of the last
      failed nonce (or still empty). */
  predicate Progress(crypto: Crypto, core: Snapshot, message: string, source: string, toggles: seq<bool>,
                     found: bool, nonce: nat, hash: string, trials: nat)
  {
    && trials == (if found then nonce + 1 else nonce)
    && (forall j :: 0 <= j < trials ==> ToggleAt(toggles, j))
    && (forall j :: 0 <= j < nonce ==> !Solves(crypto, core, message, source, j))
    && (found ==> hash == TrialHash(crypto, core, message, source, nonce))
    && (found ==> MeetsDifficulty(hash, core.state.difficulty))
    && (!found ==> hash == if trials == 0 then "" else TrialHash(crypto, core, message, source, nonce - 1))
  }

  /** What the search loop guarantees when it exits: Progress, and it only
      gives up on a false toggle read. */
  predicate SearchResult(crypto: Crypto, core: Snapshot, message: string, source: string, toggles: seq<bool>,
                         found: bool, nonce: nat, hash: string, trials: nat)
  {
    && Progress(crypto, core, message, source, toggles, found, nonce, hash, trials)
    && (!found ==> !ToggleAt(toggles, trials))
  }

  /** One trial keeps Progress: after a true toggle read, hashing the current
      nonce either finds it or moves on to the next nonce. */
  lemma TrialStep(crypto: Crypto, core: Snapshot, message: string, source: string, toggles: seq<bool>,
                  nonce: nat, hash: string)
    requires Progress(crypto, core, message, source, toggles, false, nonce, hash, nonce)
    requires ToggleAt(toggles, nonce)
    ensures var h := TrialHash(crypto, core, message, source, nonce);
            var ok := MeetsDifficulty(h, core.state.difficulty);
            Progress(crypto, core, message, source, toggles, ok, if ok then nonce else nonce + 1, h, nonce + 1)
    ensures TrialLog(crypto, core, message, source, nonce + 1)
         == TrialLog(crypto, core, message, source, nonce) + [Trial(nonce, TrialHash(crypto, core, message, source, nonce))]
  {
    var h := TrialHash(crypto, core, message, source, nonce);
    assert MeetsDifficulty(h, core.state.difficulty) == Solves(crypto, core, message, source, nonce);
  }

  /** The search finds a nonce exactly when the toggle is still on at the
      trial of some satisfying nonce, and what it finds is then the least
      satisfying nonce. */
  lemma {:induction false} FoundIffToggleOutlastsSolution(crypto: Crypto, core: Snapshot, message: string, source: string,
                                                         toggles: seq<bool>, found: bool, nonce: nat, hash: string, trials: nat)
    requires SearchResult(crypto, core, message, source, toggles, found, nonce, hash, trials)
    ensures found <==> exists n: nat :: Solves(crypto, core, message, source, n) &&
                                        forall j :: 0 <= j <= n ==> ToggleAt(toggles, j)
    ensures found ==> forall n: nat :: Solves(crypto, core, message, source, n) ==> nonce <= n
  {
    if found {
      assert Solves(crypto, core, message, source, nonce);
    } else {
      forall n: nat | Solves(crypto, core, message, source, n)
        ensures !ToggleAt(toggles, nonce) && nonce <= n
      {
      }
    }
  }

  /** Switching the toggle off is honoured at the next loop head: if the
      k-th read is false, at most k trials ran, so a trial already under way
      when the operator stops is the last one. */
  lemma StopsAtFirstOffRead(crypto: Crypto, core: Snapshot, message: string, source: string,
                            toggles: seq<bool>, found: bool, nonce: nat, hash: string, trials: nat, k: nat)
    requires Progress(crypto, core, message, source, toggles, found, nonce, hash, trials)
    requires !ToggleAt(toggles, k)
    ensures trials <= k
  {
  }

  /** The outcome is a function of the attempt and the toggle reads: any two
      results that satisfy SearchResult for the same inputs are the same. */
  lemma {:induction false} SearchResultDetermined(crypto: Crypto, core: Snapshot, message: string, source: string,
                                                  toggles: seq<bool>,
                                                  found1: bool, nonce1: nat, hash1: string, trials1: nat,
                                                  found2: bool, nonce2: nat, hash2: string, trials2: nat)
    requires SearchResult(crypto, core, message, source, toggles, found1, nonce1, hash1, trials1)
    requires SearchResult(crypto, core, message, source, toggles, found2, nonce2, hash2, trials2)
    ensures found1 == found2 && nonce1 == nonce2 && hash1 == hash2 && trials1 == trials2
  {
    if found1 {
      assert Solves(crypto, core, message, source, nonce1);
    }
    if found2 {
      assert Solves(crypto, core, message, source, nonce2);
    }
  }

  /** The trials of a search that has run `n` of them: nonce 0 first, then
      each following nonce once. */
  function TrialLog(crypto: Crypto, core: Snapshot, message: string, source: string, n: nat): seq<Trial> {
    if n == 0 then [] else TrialLog(crypto, core, message, source, n - 1) + [Trial(n - 1, TrialHash(crypto, core, message, source, n - 1))]
  }

  /** The j-th trial of a search hashed nonce j: the visited nonces are
      0, 1, 2, ... with no skips and no repeats. */
  lemma {:induction false} TrialLogVisitsInOrder(crypto: Crypto, core: Snapshot, message: string, source: string, n: nat)
    ensures |TrialLog(crypto, core, message, source, n)| == n
    ensures forall j :: 0 <= j < n ==>
              TrialLog(crypto, core, message, source, n)[j] == Trial(j, TrialHash(crypto, core, message, source, j))
  {
    if n > 0 {
      TrialLogVisitsInOrder(crypto, core, message, source, n - 1);
    }
  }

  class AppComponent {
    var source: string
    var message: string
    var nonceControl: nat
    var hashControl: string
    /** The value of `miningToggle$` outside the search loop (a stop the
        loop observed is written back when the search gives up); what the
        loop head reads while a search runs is the `toggles` argument. */
    var miningToggle: bool
    var xdr: Option<string>
    /** Every trial the search loop has run, in order. */
    ghost var Trials: seq<Trial>

    /** The initial form values and subjects (lines 92-93, 99-104). */
    constructor ()
      ensures source == "" && message == "" && nonceControl == 0 && hashControl == ""
      ensures !miningToggle && xdr == None && Trials == []
    {
      source, message := "", "";
      nonceControl, hashControl := 0, "";
      miningToggle, xdr := false, None;
      Trials := [];
    }

    /** `startMining`: show nonce 0 again and switch the toggle on. */
    method StartMining()
      modifies this
      ensures nonceControl == 0 && miningToggle
      ensures source == old(source) && message == old(message) && hashControl == old(hashControl)
      ensures xdr == old(xdr) && Trials == old(Trials)
    {
      nonceControl := 0;
      miningToggle := true;
    }

    /** The search loop (lines 109-134): try nonces 0, 1, 2, ... against the
        captured snapshot `core` while no digest has met the difficulty and
        the toggle reads true, publishing each trial's nonce and hash to the
        form. `toggles` lists the values the loop head reads from the toggle.
        The locals `found`, `nonce` and `hash` are returned, with the number
        of trials run. When the source is not an address, encoding it
        (line 121) throws inside the timer callback before `hash` is set and
        before the promise resolves: the first trial never completes and the
        handler stays suspended, which `stalled` reports. */
    method Search(core: Snapshot, crypto: Crypto, toggles: seq<bool>)
      returns (found: bool, nonce: nat, hash: string, trials: nat, stalled: bool)
      modifies this`nonceControl, this`hashControl, this`Trials
      // the handler hangs exactly when a trial starts with an unencodable source
      ensures stalled <==> ToggleAt(toggles, 0) && !crypto.codec.isAddress(source)
      ensures stalled ==> !found && nonce == 0 && hash == "" && trials == 0
      ensures !stalled ==> SearchResult(crypto, core, message, source, toggles, found, nonce, hash, trials)
      // the trials ran on nonces 0, 1, 2, ... in order
      ensures Trials == old(Trials) + TrialLog(crypto, core, message, source, trials)
      // the form shows the loop's final nonce and hash
      ensures trials > 0 ==> nonceControl == nonce && hashControl == hash
      ensures trials == 0 ==> nonceControl == old(nonceControl) && hashControl == old(hashControl)
    {
      found, nonce, hash, trials, stalled := false, 0, "", 0, false;
      var msg, src := message, source;
      ghost var log: seq<Trial> := [];
      while !found && !stalled && ToggleAt(toggles, trials)
        invariant trials <= |toggles|
        invariant Progress(crypto, core, msg, src, toggles, found, nonce, hash, trials)
        invariant stalled ==> trials == 0 && ToggleAt(toggles, 0) && !crypto.codec.isAddress(src)
        invariant trials > 0 ==> crypto.codec.isAddress(src)
        invariant log == TrialLog(crypto, core, msg, src, trials)
        invariant trials > 0 ==> nonceControl == nonce && hashControl == hash
        invariant trials == 0 ==> nonceControl == old(nonceControl) && hashControl == old(hashControl)
        modifies this`nonceControl, this`hashControl
        decreases |toggles| - trials, if stalled then 0 else 1
      {
        if !crypto.codec.isAddress(src) {
          stalled := true;
        } else {
          TrialStep(crypto, core, msg, src, toggles, nonce, hash);
          hash := TrialHash(crypto, core, msg, src, nonce);
          found := MeetsDifficulty(hash, core.state.difficulty);
          log := log + [Trial(nonce, hash)];
          if !found {
            nonce := nonce + 1;
          }
          trials := trials + 1;
          nonceControl := nonce;
          hashControl := hash;
        }
      }
      Trials := Trials + log;
    }

    /** The subscriber's body for an emission with the toggle on
        (lines 108-143): run the search, then hand whatever nonce and hash it
        ended with to `assemble`, which stands for `generateXDR`. Only when
        assembly succeeds are the XDR published and the toggle switched off;
        a simulation error rejects the handler and leaves both as they were,
        and so does a search that stalled on the address. */
    method Mine(core: Snapshot, crypto: Crypto, toggles: seq<bool>, assemble: MineArgs -> Assembly)
      returns (found: bool, nonce: nat, hash: string, trials: nat, stalled: bool)
      modifies this`nonceControl, this`hashControl, this`Trials, this`xdr, this`miningToggle
      ensures stalled <==> ToggleAt(toggles, 0) && !crypto.codec.isAddress(source)
      ensures stalled ==> !found && trials == 0
      ensures !stalled ==> SearchResult(crypto, core, message, source, toggles, found, nonce, hash, trials)
      ensures Trials == old(Trials) + TrialLog(crypto, core, message, source, trials)
      ensures trials > 0 ==> nonceControl == nonce && hashControl == hash
      ensures trials == 0 ==> nonceControl == old(nonceControl) && hashControl == old(hashControl)
      // a stalled handler never reaches generateXDR
      ensures stalled ==> xdr == old(xdr) && miningToggle == old(miningToggle)
      // otherwise the payload is built from the final nonce and hash, found or not
      ensures !stalled && assemble(MineArgs(hash, message, nonce, source)).Assembled? ==>
                xdr == Some(assemble(MineArgs(hash, message, nonce, source)).xdr) && !miningToggle
      ensures !stalled && assemble(MineArgs(hash, message, nonce, source)).SimulationFailed? ==>
                xdr == old(xdr) && (found ==> miningToggle == old(miningToggle))
      // a search that gave up read the toggle as false, so the subject holds false
      ensures !stalled && !found ==> !miningToggle
    {
      found, nonce, hash, trials, stalled := Search(core, crypto, toggles);
      if !stalled && !found {
        // the false loop-head read was the stop button's write to the subject
        miningToggle := false;
      }
      if !stalled {
        var outcome := assemble(MineArgs(hash, message, nonce, source));
        if outcome.Assembled? {
          xdr := Some(outcome.xdr);
          miningToggle := false;
        }
      }
    }
  }
}
