/** The bytes hashed for one nonce trial: five Stellar ScVal values, each
    serialised to XDR, concatenated in a fixed order
    (src/app/app.component.ts:116-122). The XDR serialiser belongs to the
    Stellar SDK and stays opaque here. */
module Preimage {

  newtype uint8 = x: int | 0 <= x < 0x100

  type Bytes = seq<uint8>

  /** The ScVal kinds the preimage uses, as built by `nativeToScVal(v, { type })`. */
  datatype ScVal = ScU64(n: nat) | ScString(s: string) | ScBytes(b: Bytes) | ScAddress(a: string)

  /** `nativeToScVal(v, { type }).toXDR()`. Building an address throws
      unless the string is a Stellar account or contract key, which
      `isAddress` decides; `toXdr` is only consulted for values that
      encode. */
  datatype ScValCodec = ScValCodec(toXdr: ScVal -> Bytes, isAddress: string -> bool)

  /** `Buffer.concat` of the XDR of each value, in order. */
  function EncodeAll(codec: ScValCodec, vals: seq<ScVal>): Bytes {
    if vals == [] then [] else codec.toXdr(vals[0]) + EncodeAll(codec, vals[1..])
  }

  /** The five values in the order the preimage concatenates them: next
      block index, message, previous block hash, nonce, miner address. */
  function MiningFields(targetIndex: nat, message: string, prevHash: Bytes, nonce: nat, miner: string): seq<ScVal> {
    [ScU64(targetIndex), ScString(message), ScBytes(prevHash), ScU64(nonce), ScAddress(miner)]
  }

  function MiningPreimage(codec: ScValCodec, targetIndex: nat, message: string, prevHash: Bytes,
                          nonce: nat, miner: string): Bytes
  {
    EncodeAll(codec, MiningFields(targetIndex, message, prevHash, nonce, miner))
  }

  /** The encoding of the fields before the nonce, which one attempt keeps
      fixed. */
  function Head(codec: ScValCodec, targetIndex: nat, message: string, prevHash: Bytes): Bytes {
    EncodeAll(codec, [ScU64(targetIndex), ScString(message), ScBytes(prevHash)])
  }

  lemma {:induction false} EncodeAllAppend(codec: ScValCodec, a: seq<ScVal>, b: seq<ScVal>)
    ensures EncodeAll(codec, a + b) == EncodeAll(codec, a) + EncodeAll(codec, b)
    decreases |a|
  {
    if a == [] {
      assert a + b == b;
    } else {
      assert (a + b)[0] == a[0];
      assert (a + b)[1..] == a[1..] + b;
      EncodeAllAppend(codec, a[1..], b);
    }
  }

  lemma EncodeOne(codec: ScValCodec, v: ScVal)
    ensures EncodeAll(codec, [v]) == codec.toXdr(v)
  {
    assert [v][1..] == [];
  }

  /** The preimage reads, left to right: the XDR of the target index, the
      message and the previous hash, then that of the nonce, then that of
      the miner address. */
  lemma Layout(codec: ScValCodec, targetIndex: nat, message: string, prevHash: Bytes,
               nonce: nat, miner: string)
    ensures MiningPreimage(codec, targetIndex, message, prevHash, nonce, miner)
         == Head(codec, targetIndex, message, prevHash) + codec.toXdr(ScU64(nonce)) + codec.toXdr(ScAddress(miner))
    ensures Head(codec, targetIndex, message, prevHash)
         == codec.toXdr(ScU64(targetIndex)) + codec.toXdr(ScString(message)) + codec.toXdr(ScBytes(prevHash))
  {
    var head := [ScU64(targetIndex), ScString(message), ScBytes(prevHash)];
    var tail := [ScU64(nonce), ScAddress(miner)];
    assert MiningFields(targetIndex, message, prevHash, nonce, miner) == head + tail;
    EncodeAllAppend(codec, head, tail);
    assert tail == [ScU64(nonce)] + [ScAddress(miner)];
    EncodeAllAppend(codec, [ScU64(nonce)], [ScAddress(miner)]);
    EncodeOne(codec, ScU64(nonce));
    EncodeOne(codec, ScAddress(miner));
    assert head == [ScU64(targetIndex)] + [ScString(message)] + [ScBytes(prevHash)];
    EncodeAllAppend(codec, [ScU64(targetIndex)] + [ScString(message)], [ScBytes(prevHash)]);
    EncodeAllAppend(codec, [ScU64(targetIndex)], [ScString(message)]);
    EncodeOne(codec, ScU64(targetIndex));
    EncodeOne(codec, ScString(message));
    EncodeOne(codec, ScBytes(prevHash));
  }

  /** Within one attempt only the nonce field changes between trials: when
      two nonces encode to the same width, the two preimages agree on every
      byte before and after the nonce field. */
  lemma OnlyNonceFieldVaries(codec: ScValCodec, targetIndex: nat, message: string, prevHash: Bytes,
                             miner: string, n1: nat, n2: nat)
    requires |codec.toXdr(ScU64(n1))| == |codec.toXdr(ScU64(n2))|
    ensures var p1 := MiningPreimage(codec, targetIndex, message, prevHash, n1, miner);
            var p2 := MiningPreimage(codec, targetIndex, message, prevHash, n2, miner);
            var k := |Head(codec, targetIndex, message, prevHash)|;
            var w := |codec.toXdr(ScU64(n1))|;
            && |p1| == |p2| == k + w + |codec.toXdr(ScAddress(miner))|
            && p1[..k] == p2[..k]
            && p1[k..k + w] == codec.toXdr(ScU64(n1))
            && p2[k..k + w] == codec.toXdr(ScU64(n2))
            && p1[k + w..] == p2[k + w..]
  {
    Layout(codec, targetIndex, message, prevHash, n1, miner);
    Layout(codec, targetIndex, message, prevHash, n2, miner);
    var h := Head(codec, targetIndex, message, prevHash);
    var a := codec.toXdr(ScAddress(miner));
    var e1, e2 := codec.toXdr(ScU64(n1)), codec.toXdr(ScU64(n2));
    assert (h + e1 + a)[..|h|] == h;
    assert (h + e2 + a)[..|h|] == h;
    assert (h + e1 + a)[|h|..|h| + |e1|] == e1;
    assert (h + e2 + a)[|h|..|h| + |e2|] == e2;
    assert (h + e1 + a)[|h| + |e1|..] == a;
    assert (h + e2 + a)[|h| + |e2|..] == a;
  }

  /** With a fixed-width, injective u64 encoding, distinct nonces never hash
      the same bytes, so no trial repeats an earlier one's input. */
  lemma DistinctNoncesDistinctPreimages(codec: ScValCodec, targetIndex: nat, message: string,
                                        prevHash: Bytes, miner: string, n1: nat, n2: nat)
    requires |codec.toXdr(ScU64(n1))| == |codec.toXdr(ScU64(n2))|
    requires codec.toXdr(ScU64(n1)) != codec.toXdr(ScU64(n2))
    ensures MiningPreimage(codec, targetIndex, message, prevHash, n1, miner)
         != MiningPreimage(codec, targetIndex, message, prevHash, n2, miner)
  {
    OnlyNonceFieldVaries(codec, targetIndex, message, prevHash, miner, n1, n2);
  }
}
