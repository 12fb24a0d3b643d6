# FCM simple miner: a Dafny model of the proof-of-work search

The miner is an Angular page that looks for a nonce. For the next block, the
contract's `mine` entry point accepts a nonce only when the Keccak-256 digest of
a fixed preimage starts with `difficulty` hex zeros. The page keeps polling the
contract for the latest block and its state. A filter lets a snapshot through
only when it names a new block index. While the mining toggle is on, the page
tries nonces 0, 1, 2, ... and publishes each trial's nonce and hash to its form.
When the loop ends, it asks the service to assemble the `mine` transaction. If
that succeeds, it publishes the transaction XDR and switches the toggle off.

The model has five modules:

- `Difficulty` (`difficulty.dfy`) is the found test. It takes a prefix of the
  hex digest, at most `difficulty` characters, and checks that every character
  is `'0'`. `SliceEvery` is the test as written, slice then `every`.
  `MeetsDifficulty` is a character-by-character form of the same test, which
  the loop uses. The two are proved equal.
- `Preimage` (`preimage.dfy`) holds the five ScVal values the preimage
  concatenates, with their order and layout.
- `Chain` (`chain.dfy`) holds the polled snapshots and the
  `distinctUntilChanged` filter. The filter compares `state.current` with the
  last emitted snapshot.
- `Form` (`form.dfy`) holds the validators on the `source` and `message`
  controls.
- `Miner` (`miner.dfy`) holds the component as a class. Its fields are the
  form values, the mining toggle and the published XDR. Its methods are
  `StartMining`, the search loop `Search` and the subscriber body `Mine`. The
  search is proved against `Progress`/`SearchResult`. Lemmas then prove what
  those predicates imply: least solution, exit only on success or a false
  toggle read, determinism, and the order in which nonces are visited.

Keccak-256 and the ScVal XDR encoder belong to foreign libraries. They are
given to the model as function-valued fields of `Crypto` and `ScValCodec`.
Only one of their failure modes is modelled: building an `address` ScVal
throws unless the string is a Stellar account or contract key, and the
codec's `isAddress` field decides which strings those are. The form's
validators do not check this, so a search can start with a source that
does not encode. The throw happens inside the timer callback at line 121,
before `hash` is assigned and before the promise resolves. The first trial
therefore never finishes and the handler stays suspended: nothing is
published, `generateXDR` is never called and the toggle stays on. `Search`
reports this as `stalled`. The other encoders and the hash are taken to be
total. Transaction assembly (`generateXDR`) is the parameter `assemble`.

Three behaviours of the code worth noting:

- A difficulty larger than the digest length does not make the test
  unsatisfiable. `slice` clamps, so such a digest passes when it is made only
  of zeros (`Difficulty.BeyondLengthMeansAllZero`).
- A stopped search still goes on to transaction assembly. It hands over the
  nonce after the last failed one together with the hash of that failed
  nonce (`Miner.Progress`, `Miner.AppComponent.Mine`).
- The staleness filter compares each snapshot with the last one it EMITTED,
  not with the last one polled. A change of difficulty alone is never passed on.

## Model

| member | source | states |
|---|---|---|
| Difficulty.Slice | src/app/app.component.ts:125 | `hash.slice(0, d)` has length min(d, \|hash\|) and is a prefix of the digest; an end past the length gives the whole digest |
| Difficulty.SliceEvery | src/app/app.component.ts:124-127 | the found test as written: `hash.slice(0, d)`, split into characters, every one `'0'` |
| Difficulty.AllZeroDigits | src/app/app.component.ts:126-127 | `.split('').every(digit => digit === '0')`: true for the empty string, otherwise the first character is '0' and so is every later one |
| Difficulty.MeetsDifficulty | src/app/app.component.ts:124-127 | the same test taken one character at a time, succeeding once d characters or the digest are used up |
| Difficulty.SliceEveryAgrees | src/app/app.component.ts:124-127 | the character-by-character test the loop uses equals slice-then-`every` for every digest and difficulty |
| Difficulty.MeetsDifficultyIff | src/app/app.component.ts:124-127 | a digest meets difficulty d iff each of its first min(d, \|hash\|) characters is '0' (both directions) |
| Difficulty.ZeroDifficultyAlwaysMet | src/app/app.component.ts:124-127 | difficulty 0 accepts every digest: `every` on an empty slice is true |
| Difficulty.BeyondLengthMeansAllZero | src/app/app.component.ts:125 | for d >= \|hash\| the test passes exactly for an all-zero digest, so it is never impossible |
| Difficulty.Monotone | src/app/app.component.ts:124-127 | a digest that meets difficulty d meets every lower difficulty |
| Difficulty.LeadingZeros | src/app/app.component.ts:124-127 | the count of leading '0' characters never exceeds the digest length |
| Difficulty.LeadingZerosAt | src/app/app.component.ts:124-127 | the first LeadingZeros(hash) characters are '0' and the next one, if any, is not |
| Difficulty.MeetsDifficultyByLeadingZeros | src/app/app.component.ts:124-127 | the test passes iff d is at most the number of leading zeros, or the digest is all zeros |
| Preimage.MiningFields | src/app/app.component.ts:116-122 | the five ScVal values in the order of lines 117-121: u64 target index, string message, bytes previous hash, u64 nonce, address |
| Preimage.EncodeAll | src/app/app.component.ts:116-122 | `Buffer.concat` of each value's `toXDR()`, left to right |
| Preimage.MiningPreimage | src/app/app.component.ts:116-122 | `Buffer.concat` of each field's XDR, in that order |
| Preimage.EncodeAllAppend | src/app/app.component.ts:116-122 | `Buffer.concat` of the XDR of a list of values distributes over list concatenation |
| Preimage.EncodeOne | src/app/app.component.ts:116-122 | concatenating the XDR of a single value gives that value's XDR |
| Preimage.Layout | src/app/app.component.ts:116-122 | the preimage is XDR(u64 current+1) ++ XDR(string message) ++ XDR(bytes prevHash) ++ XDR(u64 nonce) ++ XDR(address source), in that order |
| Preimage.OnlyNonceFieldVaries | src/app/app.component.ts:116-122 | for two nonces of equal encoded width, the preimages agree on every byte before and after the nonce field, and that field holds each nonce's XDR |
| Preimage.DistinctNoncesDistinctPreimages | src/app/app.component.ts:116-122 | with a fixed-width injective u64 encoding, distinct nonces give distinct preimages |
| Chain.SameTarget | src/app/app.component.ts:96 | the comparator: two snapshots are the same target iff their `state.current` is equal; no other field is read |
| Chain.EmitAfter | src/app/app.component.ts:96 | what `distinctUntilChanged` passes on after a held key: each poll is compared with the last emitted one; the output is drawn from the polls and no longer than them |
| Chain.DistinctUntilChanged | src/app/app.component.ts:94-97 | the stream `state$`: the first poll always passes, every later one is filtered by EmitAfter; the output is drawn from the polls and no longer than them |
| Chain.LastKept | src/app/app.component.ts:96 | the key `distinctUntilChanged` holds after reading a list of polls: replaced by a poll only when the comparator says the target changed |
| Chain.LastKeptTracksLatestTarget | src/app/app.component.ts:96 | the key the filter holds always has the block index of the latest poll |
| Chain.EmitAfterAppend | src/app/app.component.ts:96 | a new poll is passed on iff its `current` differs from that of the last emitted snapshot |
| Chain.AppendPoll | src/app/app.component.ts:94-97 | `state$` grows by a new poll iff its `state.current` differs from the previous poll's; other fields are ignored |
| Chain.DifficultyChangeNotEmitted | src/app/app.component.ts:96 | a poll that changes only the difficulty produces no emission |
| Chain.EmitAfterChangesTarget | src/app/app.component.ts:96 | every emission after a key names a different block index from that key and from its predecessor |
| Chain.EmissionsChangeTarget | src/app/app.component.ts:94-97 | successive snapshots reaching the miner always have different `state.current` |
| Form.RequiredErrors | src/app/app.component.ts:100-101 | `Validators.required` reports `required` exactly for the empty string and nothing else |
| Form.MaxLengthErrors | src/app/app.component.ts:101 | `Validators.maxLength(max)` reports `maxlength` exactly for values longer than `max`, and nothing else |
| Form.Merge | src/app/app.component.ts:34 | a control's error objects are merged key by key, a later validator's value winning; the result is empty iff both are |
| Form.SourceErrors | src/app/app.component.ts:34-36 | the declared `required` (line 100) merged with the template's `maxlength` of 60: valid iff the address has 1 to 60 characters; `required` iff empty; `maxlength` iff longer than 60, carrying 60 and the actual length |
| Form.DeclaredMessageErrors | src/app/app.component.ts:101 | the two validators the message control declares, alone: valid iff 1 to 64 characters; `required` iff empty; `maxlength` iff longer than 64, carrying 64 |
| Form.MessageErrors | src/app/app.component.ts:40-42 | the declared validators (line 101) merged with the template's `maxlength` of 60: valid iff 1 to 60 characters; `required` iff empty; a `maxlength` error occurs iff longer than 60 and always carries 60, never the declared 64 |
| Miner.ToggleAt | src/app/app.component.ts:113 | the k-th read of `miningToggle$.getValue()` at the loop head; a read past the observed schedule is false |
| Miner.TrialHash | src/app/app.component.ts:116-123 | the digest `sha3.keccak256` returns for the preimage of one nonce, with target `state.current + 1` and the latest block's hash |
| Miner.TrialStep | src/app/app.component.ts:113-133 | one trial after a true toggle read keeps the loop invariant: the nonce is kept if its digest passes, otherwise it moves to nonce+1 with that digest as `hash` |
| Miner.StopsAtFirstOffRead | src/app/app.component.ts:113 | if the k-th toggle read is false, at most k trials ran: a trial under way when the toggle goes off is the last one |
| Miner.FoundIffToggleOutlastsSolution | src/app/app.component.ts:109-134 | the loop finds a nonce iff some satisfying nonce n has every toggle read up to its trial true, and the nonce found is then the least satisfying one |
| Miner.SearchResultDetermined | src/app/app.component.ts:109-134 | any two loop outcomes for the same snapshot, form values and toggle reads are identical |
| Miner.TrialLogVisitsInOrder | src/app/app.component.ts:110-128 | the j-th trial hashes nonce j: nonces are tried from 0 upward, with no skips and no repeats |
| Miner.AppComponent.constructor | src/app/app.component.ts:92-104 | initial state: empty source, message and hash, nonce 0, toggle off, no XDR |
| Miner.AppComponent.StartMining | src/app/app.component.ts:150-153 | the nonce control is reset to 0 and the toggle switched on; nothing else changes |
| Miner.AppComponent.Search | src/app/app.component.ts:109-134 | on exit: every trial followed a true toggle read, all nonces below the result fail, a found nonce's digest passes, otherwise the last read was false and `hash` is the digest of nonce-1 (or empty if no trial ran); the trial log is nonces 0..trials-1 in order; at exit the form shows the loop's final nonce and hash if any trial ran; and the search stalls, with no trial completed, exactly when the first read is true and the source is not an address |
| Miner.AppComponent.Mine | src/app/app.component.ts:106-143 | runs the search and, unless it stalled, passes the final hash, message, nonce and source to assembly, found or not; on success publishes the XDR and switches the toggle off; a search that gave up on a false read leaves the toggle off whatever assembly does; a simulation error after a found nonce, or a stalled search, leaves the XDR and the toggle unchanged |

## Left out

- `src/app/app.service.ts` (`fetchLatestBlock`, `generateXDR`) is RPC and SDK glue and is not part of this model. `generateXDR` is the `assemble` parameter of `Mine`, and a poll is a `Snapshot` value.
- Keccak-256 and the ScVal XDR encoders are foreign code. They are opaque function values, so no property of the hash itself is modelled.
- The RxJS plumbing is not modelled: `timer`, `switchMap` and `combineLatest`, and concurrent runs of the subscriber body. Because those are left out, the race in which a handler still mines a stale block after a newer snapshot arrives is not captured.
- The `setTimeout`/`await` scheduling inside the loop is not modelled. The toggle becomes a finite list of the values read at successive loop heads, and a read past its end is false. This is also what bounds the loop.
- Miner.AppComponent.Search: only reports the form's nonce and hash at exit in its contract. The loop invariant keeps them equal to the loop's variables after every trial, but the per-trial history of the controls is not recorded.
- Miner.AppComponent.Search: takes the form's message and source once, at the start. The source rereads them on every trial, so edits made during a search are not modelled.
- Difficulty is a `nat`. Negative or fractional difficulties, which `slice` would treat differently, are not modelled. Neither is JavaScript number and bigint precision for nonces and block indices.
- Miner.AppComponent.Mine: passes the hash as a hex string. The source first decodes it with `Buffer.from(hash, 'hex')`, and that decoding is folded into `assemble`.
- String lengths in `Form.SourceErrors` and `Form.MessageErrors` count Dafny characters, not UTF-16 code units.
- Form.SourceErrors: the HTML `maxlength` attribute on the inputs (lines 34 and 41) also stops the user typing past 60 characters. That browser behaviour is not modelled; the functions give the errors for any value.
- Miner.AppComponent.Search: a stalled handler is suspended forever in the source. The model returns with `stalled` set, and `Mine` then does nothing more. What happens to that suspended handler when later emissions arrive is not modelled.
- These are not modelled: the `else` branch that only logs to the console, the `nonce` and `hash` controls' own `required` validators, which nothing reads, and the template with its stop button. Stopping is modelled through the toggle reads, and `Mine` writes an observed stop back to `miningToggle`; a stop made during the trial that finds a nonce is not recorded.
