/** The difficulty test applied to every candidate digest: a lower-case hex
    digest meets difficulty d when the first d characters it has are all '0'
    (src/app/app.component.ts:124-127). */
module Difficulty {

  function Min(a: nat, b: nat): nat {
    if a <= b then a else b
  }

  /** `s.slice(0, end)` for a non-negative `end`: an end past the string's
      length is clamped to that length, so the whole string comes back. */
  function Slice(s: string, end: nat): (r: string)
    ensures |r| == Min(end, |s|)
    ensures r == s[..|r|]
  {
    if end <= |s| then s[..end] else s
  }

  /** `s.split('').every(digit => digit === '0')`. */
  function AllZeroDigits(s: string): bool {
    if s == [] then true else s[0] == '0' && AllZeroDigits(s[1..])
  }

  /** The found test of the search loop, `hash.slice(0, difficulty)`
      `.split('').every(digit => digit === '0')`, exactly as written. */
  function SliceEvery(hash: string, difficulty: nat): bool {
    AllZeroDigits(Slice(hash, difficulty))
  }

  /** The same test read one character at a time: stop with success when
      the difficulty is used up or the digest ends, otherwise require a '0'
      and go on. The search loop uses this form; SliceEveryAgrees shows it
      is the test above. */
  function MeetsDifficulty(hash: string, difficulty: nat): bool {
    if difficulty == 0 || hash == [] then true
    else hash[0] == '0' && MeetsDifficulty(hash[1..], difficulty - 1)
  }

  /** Number of '0' characters the digest starts with: an independent
      description of what the difficulty test measures. */
  function LeadingZeros(hash: string): (k: nat)
    ensures k <= |hash|
  {
    if hash == [] || hash[0] != '0' then 0 else 1 + LeadingZeros(hash[1..])
  }

  lemma {:induction false} AllZeroDigitsIff(s: string)
    ensures AllZeroDigits(s) <==> forall i :: 0 <= i < |s| ==> s[i] == '0'
  {
    if s != [] {
      AllZeroDigitsIff(s[1..]);
      assert forall i :: 1 <= i < |s| ==> s[i] == s[1..][i - 1];
    }
  }

  lemma {:induction false} SliceEveryAgrees(hash: string, difficulty: nat)
    ensures MeetsDifficulty(hash, difficulty) == SliceEvery(hash, difficulty)
  {
    if difficulty != 0 && hash != [] {
      SliceEveryAgrees(hash[1..], difficulty - 1);
      assert Slice(hash, difficulty)[1..] == Slice(hash[1..], difficulty - 1);
    }
  }

  /** Difficulty 0 accepts every digest. */
  lemma ZeroDifficultyAlwaysMet(hash: string)
    ensures MeetsDifficulty(hash, 0) && SliceEvery(hash, 0)
  {
  }

  /** The test passes exactly when each of the first min(d, |hash|)
      characters is '0'. */
  lemma {:induction false} MeetsDifficultyIff(hash: string, difficulty: nat)
    ensures MeetsDifficulty(hash, difficulty) <==>
            forall i :: 0 <= i < Min(difficulty, |hash|) ==> hash[i] == '0'
  {
    SliceEveryAgrees(hash, difficulty);
    var prefix := Slice(hash, difficulty);
    AllZeroDigitsIff(prefix);
    assert forall i :: 0 <= i < |prefix| ==> prefix[i] == hash[i];
  }

  /** A difficulty at or beyond the digest length does not make the test
      impossible: it asks for a digest made only of zeros. */
  lemma {:induction false} BeyondLengthMeansAllZero(hash: string, difficulty: nat)
    requires difficulty >= |hash|
    ensures MeetsDifficulty(hash, difficulty) <==> forall i :: 0 <= i < |hash| ==> hash[i] == '0'
  {
    MeetsDifficultyIff(hash, difficulty);
  }

  /** Meeting a difficulty implies meeting every lower one. */
  lemma {:induction false} Monotone(hash: string, difficulty: nat, lower: nat)
    requires lower <= difficulty
    requires MeetsDifficulty(hash, difficulty)
    ensures MeetsDifficulty(hash, lower)
  {
    MeetsDifficultyIff(hash, difficulty);
    MeetsDifficultyIff(hash, lower);
  }

  lemma {:induction false} LeadingZerosAt(hash: string)
    ensures forall i :: 0 <= i < LeadingZeros(hash) ==> hash[i] == '0'
    ensures LeadingZeros(hash) < |hash| ==> hash[LeadingZeros(hash)] != '0'
  {
    if hash != [] && hash[0] == '0' {
      LeadingZerosAt(hash[1..]);
      assert forall i :: 1 <= i < |hash| ==> hash[i] == hash[1..][i - 1];
    }
  }

  /** A digest with exactly k leading zeros meets every d <= k and fails
      every d > k, unless it is all zeros, in which case it meets every d. */
  lemma {:induction false} MeetsDifficultyByLeadingZeros(hash: string, difficulty: nat)
    ensures MeetsDifficulty(hash, difficulty) <==>
            difficulty <= LeadingZeros(hash) || LeadingZeros(hash) == |hash|
  {
    MeetsDifficultyIff(hash, difficulty);
    LeadingZerosAt(hash);
  }
}
