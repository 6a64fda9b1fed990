/**
 * simple_examples/simple_blockchain.py: blocks carrying a text payload and the digest of
 * their own fields, and the script that chains ten of them after a first block.
 */
module SimpleBlockchain {
  import opened Decimal

  /** SHA-256 over the string forms of a block's index, timestamp, data and previous hash,
      in that order; left uninterpreted. */
  type HashHex = (int, real, string, string) -> string

  datatype SingleBlock = SingleBlock(blockIndex: int, timestamp: real, data: string, prevHash: string, hash: string)

  /** The stored hash is the digest of the block's four other fields. */
  predicate Sealed(hashHex: HashHex, b: SingleBlock)
  {
    b.hash == hashHex(b.blockIndex, b.timestamp, b.data, b.prevHash)
  }

  /** The SingleBlock constructor: stores its arguments and seals the block. */
  function NewSingleBlock(hashHex: HashHex, blockIndex: int, timestamp: real, data: string, prevHash: string): (b: SingleBlock)
    ensures Sealed(hashHex, b)
    ensures b.blockIndex == blockIndex && b.timestamp == timestamp && b.data == data && b.prevHash == prevHash
  {
    SingleBlock(blockIndex, timestamp, data, prevHash, hashHex(blockIndex, timestamp, data, prevHash))
  }

  /** A block printed: its data, then its hash on a line of its own after "Hash: ". */
  function BlockString(b: SingleBlock): (s: string)
    ensures |s| == |b.data| + |HashLabel| + |b.hash|
    ensures s[..|b.data|] == b.data
    ensures s[|b.data|..|b.data| + |HashLabel|] == HashLabel
    ensures s[|b.data| + |HashLabel|..] == b.hash
  {
    b.data + HashLabel + b.hash
  }

  /** A printed block can be read back: with digests of a fixed length, equal printouts
      come from blocks with equal data and equal hashes. */
  lemma BlockStringInjective(a: SingleBlock, b: SingleBlock)
    requires BlockString(a) == BlockString(b) && |a.hash| == |b.hash|
    ensures a.data == b.data && a.hash == b.hash
  {
    assert |a.data| == |b.data|;
    assert a.data == BlockString(a)[..|a.data|] == b.data;
  }

  const HashLabel := "\nHash: "
  const DataPrefix := "This is a block #"

  /** The successor of `prev`. Its previous hash is copied from `prev`'s own previous hash,
      not taken from `prev`'s hash, as the script does. */
  function NextBlock(hashHex: HashHex, prev: SingleBlock, now: real): (b: SingleBlock)
    ensures Sealed(hashHex, b)
    ensures b.blockIndex == prev.blockIndex + 1 && b.timestamp == now
    ensures b.data == DataPrefix + IntToString(prev.blockIndex + 1)
    ensures b.prevHash == prev.prevHash
  {
    var index := prev.blockIndex + 1;
    NewSingleBlock(hashHex, index, now, DataPrefix + IntToString(index), prev.prevHash)
  }

  /** The payload of a successor is the fixed prefix followed by exactly the numeral of its index. */
  lemma NextBlockDataNamesIndex(hashHex: HashHex, prev: SingleBlock, now: real)
    ensures var b := NextBlock(hashHex, prev, now);
      |b.data| > |DataPrefix| && b.data[..|DataPrefix|] == DataPrefix &&
      IsNumeral(b.data[|DataPrefix|..]) && ParseInt(b.data[|DataPrefix|..]) == b.blockIndex
  {
    var b := NextBlock(hashHex, prev, now);
    assert b.data[|DataPrefix|..] == IntToString(prev.blockIndex + 1);
    IntToStringRoundTrip(prev.blockIndex + 1);
  }

  const MaxBlocks := 10
  const FirstData := "First block"
  const FirstPrevHash := "0"

  /** The script's main loop: a first block, then MaxBlocks successors, each stamped with
      the next of `times`. */
  method BuildBlockchain(hashHex: HashHex, times: seq<real>) returns (blockchain: seq<SingleBlock>)
    requires |times| == MaxBlocks + 1
    ensures |blockchain| == MaxBlocks + 1
    ensures blockchain[0] == NewSingleBlock(hashHex, 0, times[0], FirstData, FirstPrevHash)
    ensures forall i :: 1 <= i < |blockchain| ==> blockchain[i] == NextBlock(hashHex, blockchain[i - 1], times[i])
    ensures forall i :: 0 <= i < |blockchain| ==>
      blockchain[i].blockIndex == i && blockchain[i].timestamp == times[i] &&
      blockchain[i].prevHash == FirstPrevHash && Sealed(hashHex, blockchain[i])
    ensures forall i :: 1 <= i < |blockchain| ==> blockchain[i].data == DataPrefix + IntToString(i)
  {
    blockchain := [NewSingleBlock(hashHex, 0, times[0], FirstData, FirstPrevHash)];
    for n := 0 to MaxBlocks
      invariant |blockchain| == n + 1
      invariant blockchain[0] == NewSingleBlock(hashHex, 0, times[0], FirstData, FirstPrevHash)
      invariant forall i :: 1 <= i < |blockchain| ==> blockchain[i] == NextBlock(hashHex, blockchain[i - 1], times[i])
      invariant forall i :: 0 <= i < |blockchain| ==>
        blockchain[i].blockIndex == i && blockchain[i].timestamp == times[i] &&
        blockchain[i].prevHash == FirstPrevHash && Sealed(hashHex, blockchain[i])
      invariant forall i :: 1 <= i < |blockchain| ==> blockchain[i].data == DataPrefix + IntToString(i)
    {
      var prevBlock := blockchain[|blockchain| - 1];
      var newBlock := NextBlock(hashHex, prevBlock, times[|blockchain|]);
      blockchain := blockchain + [newBlock];
    }
  }
}
