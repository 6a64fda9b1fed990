/**
 * The mining request of app/routes.py run against the model: find the proof for the latest
 * block, queue the reward for this node, and seal a block naming the hash of the block
 * that was latest before mining.
 */
module Mining {
  import opened Wrappers
  import opened ChainSpec
  import opened AlmostRealBlockchain

  /** The reward transaction: sender "0" marks newly minted value. */
  const RewardSender := "0"
  const RewardTotal := 1

  method Mine(bc: Blockchain, nodeId: string, now: real) returns (newBlock: Block)
    requires bc.Valid()
    requires exists k: nat :: bc.prims.proofValidation(bc.LatestBlock().proof, k)
    modifies bc
    ensures bc.Valid() && bc.nodes == old(bc.nodes)
    ensures bc.blockChain == old(bc.blockChain) + [newBlock]
    ensures newBlock.transactions == old(bc.transactions) + [Transaction(RewardSender, nodeId, RewardTotal)]
    ensures newBlock.prevHash == bc.prims.hashBlock(old(bc.LatestBlock()))
    ensures Linked(bc.prims, old(bc.LatestBlock()), newBlock)
    ensures newBlock.index == |old(bc.blockChain)| + 1
    ensures forall k :: 0 <= k < newBlock.proof ==> !bc.prims.proofValidation(old(bc.LatestBlock()).proof, k)
    ensures bc.transactions == []
    ensures IsValidChain(bc.prims, old(bc.blockChain)) ==> IsValidChain(bc.prims, bc.blockChain)
    ensures IndicesFollowPositions(old(bc.blockChain)) ==> IndicesFollowPositions(bc.blockChain)
  {
    var latest := bc.LatestBlock();
    var newProof := bc.ProofOfWork(latest.proof);
    var _ := bc.AddNewTransaction(RewardSender, nodeId, RewardTotal);
    var prevHash := bc.prims.hashBlock(latest);
    newBlock := bc.AddBlock(newProof, Some(prevHash), now);
    ValidChainAppend(bc.prims, old(bc.blockChain), newBlock);
  }
}
