/**
 * The ledger engine of almost_real_blockchain.py: one mutable Blockchain holding the
 * chain, the pending transactions and the set of peers. SHA-256, the JSON encoding and
 * urlparse are the uninterpreted `Primitives`; the clock is a parameter.
 */
module AlmostRealBlockchain {
  import opened Wrappers
  import opened ChainSpec

  class Blockchain {
    var blockChain: seq<Block>
    var transactions: seq<Transaction>
    var nodes: set<string>
    const prims: Primitives

    /** The chain is never empty, so the latest block always exists. */
    ghost predicate Valid()
      reads this
    {
      |blockChain| > 0
    }

    /** A ledger holding only the genesis block, with no pending transactions and no peers. */
    constructor (prims: Primitives, now: real)
      ensures Valid() && this.prims == prims
      ensures blockChain == [Block(GenesisIndex, now, [], GenesisProof, GenesisPrevHash)]
      ensures transactions == [] && nodes == {}
      ensures IsValidChain(prims, blockChain) && IndicesFollowPositions(blockChain)
    {
      this.prims := prims;
      blockChain := [];
      transactions := [];
      new;
      var genesis := AddBlock(GenesisProof, Some(GenesisPrevHash), now);
      nodes := {};
    }

    /** The last block of the chain; it exists because the chain is never empty. */
    function LatestBlock(): (b: Block)
      reads this
      requires Valid()
      ensures IndicesFollowPositions(blockChain) ==> b.index == |blockChain|
    {
      blockChain[|blockChain| - 1]
    }

    /**
     * Seals the pending transactions into a new block at the end of the chain and empties
     * the pending list. Without `prevHash` the block names the hash of the old last block;
     * a given `prevHash` is stored unchecked, and so is `proof`.
     */
    method AddBlock(proof: int, prevHash: Option<string>, now: real) returns (block: Block)
      requires prevHash.None? ==> |blockChain| > 0
      modifies this`blockChain, this`transactions
      ensures block.index == |old(blockChain)| + 1 && block.timestamp == now
      ensures block.transactions == old(transactions) && block.proof == proof
      ensures block.prevHash ==
        if prevHash.Some? then prevHash.value else prims.hashBlock(old(blockChain)[|old(blockChain)| - 1])
      ensures blockChain == old(blockChain) + [block]
      ensures transactions == []
      ensures Valid()
      ensures IndicesFollowPositions(old(blockChain)) ==> IndicesFollowPositions(blockChain)
      ensures prevHash.None? && IsValidChain(prims, old(blockChain)) &&
              prims.proofValidation(old(blockChain)[|old(blockChain)| - 1].proof, proof)
              ==> IsValidChain(prims, blockChain)
    {
      var h: string;
      if prevHash.None? {
        h := prims.hashBlock(blockChain[|blockChain| - 1]);
      } else {
        h := prevHash.value;
      }
      block := Block(|blockChain| + 1, now, transactions, proof, h);
      transactions := [];
      if IndicesFollowPositions(blockChain) {
        IndicesAppend(blockChain, block);
      }
      if |blockChain| > 0 {
        ValidChainAppend(prims, blockChain, block);
      }
      blockChain := blockChain + [block];
    }

    /** Queues a transaction and returns the index of the block expected to hold it. */
    method AddNewTransaction(sender: string, recipient: string, total: int) returns (index: int)
      requires Valid()
      modifies this`transactions
      ensures transactions == old(transactions) + [Transaction(sender, recipient, total)]
      ensures blockChain == old(blockChain)
      ensures index == LatestBlock().index + 1
      ensures IndicesFollowPositions(blockChain) ==> index == |blockChain| + 1
    {
      transactions := transactions + [Transaction(sender, recipient, total)];
      index := LatestBlock().index + 1;
    }

    /** The least non-negative proof that solves the puzzle posed by `prevProof`, found by
        counting up from 0; the scan stops only because such a proof exists. */
    method ProofOfWork(prevProof: int) returns (proof: int)
      requires exists k: nat :: prims.proofValidation(prevProof, k)
      ensures proof >= 0 && prims.proofValidation(prevProof, proof)
      ensures forall k :: 0 <= k < proof ==> !prims.proofValidation(prevProof, k)
    {
      ghost var w: nat :| prims.proofValidation(prevProof, w);
      proof := 0;
      while !prims.proofValidation(prevProof, proof)
        invariant 0 <= proof <= w
        invariant forall k :: 0 <= k < proof ==> !prims.proofValidation(prevProof, k)
        decreases w - proof
      {
        proof := proof + 1;
      }
    }

    /** Adds the network location of `nodeAddress` to the peers; a known peer is a no-op. */
    method NodeRegister(nodeAddress: string)
      modifies this`nodes
      ensures nodes == old(nodes) + {prims.netloc(nodeAddress)}
      ensures |nodes| <= |old(nodes)| + 1
      ensures prims.netloc(nodeAddress) in old(nodes) ==> nodes == old(nodes)
    {
      nodes := nodes + {prims.netloc(nodeAddress)};
    }

    /** Walks `chain` from its second block, checking each one's stored hash and proof
        against its predecessor; an empty chain is refused, as indexing it raises. */
    method IsChainValid(chain: seq<Block>) returns (valid: bool)
      requires |chain| > 0
      ensures valid <==> IsValidChain(prims, chain)
    {
      var prevBlock := chain[0];
      var curIndex := 1;
      while curIndex < |chain|
        invariant 1 <= curIndex <= |chain|
        invariant prevBlock == chain[curIndex - 1]
        invariant forall i :: 1 <= i < curIndex ==> Linked(prims, chain[i - 1], chain[i])
      {
        var curBlock := chain[curIndex];
        if curBlock.prevHash != prims.hashBlock(prevBlock) {
          assert !Linked(prims, chain[curIndex - 1], chain[curIndex]);
          return false;
        }
        if !prims.proofValidation(prevBlock.proof, curBlock.proof) {
          assert !Linked(prims, chain[curIndex - 1], chain[curIndex]);
          return false;
        }
        prevBlock := curBlock;
        curIndex := curIndex + 1;
      }
      return true;
    }

    /**
     * Asks every peer for its chain, `responses` being the replies in the order the peers
     * are visited, and adopts the longest valid one that is longer than the local chain.
     * Returns whether the chain was replaced, or the exception that ended the loop, in
     * which case the chain is untouched.
     */
    method ConsensusAlgorithm(responses: seq<Response>) returns (result: Result<bool, ConsensusError>)
      requires Valid()
      requires |responses| == |nodes|
      modifies this`blockChain
      ensures Valid()
      ensures match ScanAll(prims, |old(blockChain)|, responses)
        case Err(e) => result == Err(e) && blockChain == old(blockChain)
        case Ok(s) =>
          result == Ok(s.longest.Some?) &&
          blockChain == if s.longest.Some? then s.longest.value else old(blockChain)
      ensures result.Ok? ==>
        (result.value <==> exists k :: 0 <= k < |responses| && Eligible(prims, |old(blockChain)|, responses[k]))
      ensures result == Ok(true) ==> IsValidChain(prims, blockChain)
    {
      var localLength := |blockChain|;
      var maxChainLength := localLength;
      var longestChain: Option<seq<Block>> := None;
      for i := 0 to |responses|
        invariant ScanAll(prims, localLength, responses[..i]) == Ok(Scan(maxChainLength, longestChain))
        invariant longestChain.Some? ==> longestChain.value != []
        invariant blockChain == old(blockChain)
      {
        ScanAllSnoc(prims, localLength, responses, i);
        match responses[i]
        case Unreachable =>
          ScanAllErrPersists(prims, localLength, responses, i + 1);
          return Err(ConnectionError);
        case Reply(status, length, chain) =>
          if status == StatusOk && length > maxChainLength {
            if chain == [] {
              ScanAllErrPersists(prims, localLength, responses, i + 1);
              return Err(EmptyChainIndexError);
            }
            var valid := IsChainValid(chain);
            if valid {
              maxChainLength := length;
              longestChain := Some(chain);
            }
          }
      }
      assert responses[..|responses|] == responses;
      ScanAllChoosesFirstLongest(prims, localLength, responses, Scan(maxChainLength, longestChain));
      if longestChain.Some? {
        blockChain := longestChain.value;
        return Ok(true);
      }
      return Ok(false);
    }
  }
}
