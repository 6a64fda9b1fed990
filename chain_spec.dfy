/**
 * The values the ledger of almost_real_blockchain.py works on (transactions,
 * blocks, peer replies), the validity of a chain, and the specification of the
 * longest-chain consensus scan, with the lemmas that characterise it.
 */
module ChainSpec {
  import opened Wrappers

  /** A transfer queued in the pending list; neither the parties nor the amount are checked. */
  datatype Transaction = Transaction(sender: string, recipient: string, total: int)

  /** A block as the ledger stores it: `proof` is its proof of work, `prevHash` the stored
      hash of its predecessor. */
  datatype Block = Block(
    index: int,
    timestamp: real,
    transactions: seq<Transaction>,
    proof: int,
    prevHash: string)

  /** The library routines the ledger calls and which are left uninterpreted: the hex
      SHA-256 of a block's sorted-key JSON, the "0123"-prefix test on the SHA-256 of two
      proofs written one after the other, and the network location of a URL. */
  datatype Primitives = Primitives(
    hashBlock: Block -> string,
    proofValidation: (int, int) -> bool,
    netloc: string -> string)

  const GenesisIndex := 1
  const GenesisProof := 100
  const GenesisPrevHash := "1"

  /** `cur` names `prev` by hash and its proof solves the puzzle posed by `prev`'s proof. */
  predicate Linked(p: Primitives, prev: Block, cur: Block)
  {
    cur.prevHash == p.hashBlock(prev) && p.proofValidation(prev.proof, cur.proof)
  }

  /** Every block after the first is linked to its predecessor; block 0 is not checked. */
  predicate IsValidChain(p: Primitives, c: seq<Block>)
  {
    forall i :: 1 <= i < |c| ==> Linked(p, c[i - 1], c[i])
  }

  /** Every block's index is its position plus one. */
  predicate IndicesFollowPositions(c: seq<Block>)
  {
    forall i :: 0 <= i < |c| ==> c[i].index == i + 1
  }

  lemma SingleBlockChainValid(p: Primitives, b: Block)
    ensures IsValidChain(p, [b])
  {
  }

  /** Appending keeps a chain valid exactly when the new block is linked to the old last one. */
  lemma ValidChainAppend(p: Primitives, c: seq<Block>, b: Block)
    requires |c| > 0
    ensures IsValidChain(p, c + [b]) <==> IsValidChain(p, c) && Linked(p, c[|c| - 1], b)
  {
    var d := c + [b];
    assert forall i :: 0 <= i < |c| ==> d[i] == c[i];
    assert d[|c|] == b;
  }

  /** Appending a block whose index is the old length plus one keeps indices at positions. */
  lemma IndicesAppend(c: seq<Block>, b: Block)
    requires IndicesFollowPositions(c)
    requires b.index == |c| + 1
    ensures IndicesFollowPositions(c + [b])
  {
    var d := c + [b];
    assert forall i :: 0 <= i < |c| ==> d[i] == c[i];
  }

  /** Changing one block's stored predecessor hash in a valid chain makes it invalid. */
  lemma TamperedPrevHashInvalid(p: Primitives, c: seq<Block>, i: int, h: string)
    requires IsValidChain(p, c)
    requires 1 <= i < |c| && h != c[i].prevHash
    ensures !IsValidChain(p, c[i := c[i].(prevHash := h)])
  {
    var d := c[i := c[i].(prevHash := h)];
    assert !Linked(p, d[i - 1], d[i]);
  }

  /** A block whose proof fails the puzzle against its predecessor's proof makes the chain invalid. */
  lemma BadProofInvalid(p: Primitives, c: seq<Block>, i: int)
    requires 1 <= i < |c| && !p.proofValidation(c[i - 1].proof, c[i].proof)
    ensures !IsValidChain(p, c)
  {
    assert !Linked(p, c[i - 1], c[i]);
  }

  // ---------------------------------------------------------------------------
  // Consensus

  const StatusOk := 200

  /** What asking one peer for its full chain gives: the request raised, or a reply with
      its HTTP status and the length and chain it reported. */
  datatype Response = Unreachable | Reply(status: int, reportedLength: int, chain: seq<Block>)

  /** The exceptions the consensus loop lets escape: a failed request, and
      is_chain_valid indexing an empty chain. */
  datatype ConsensusError = ConnectionError | EmptyChainIndexError

  /** The running state of the consensus loop: the longest length seen, the chain chosen. */
  datatype Scan = Scan(maxLength: int, longest: Option<seq<Block>>)

  /** One iteration of the consensus loop. */
  function Step(p: Primitives, s: Scan, r: Response): Result<Scan, ConsensusError>
  {
    match r
    case Unreachable => Err(ConnectionError)
    case Reply(status, length, chain) =>
      if status != StatusOk || length <= s.maxLength then Ok(s)
      else if chain == [] then Err(EmptyChainIndexError)
      else if IsValidChain(p, chain) then Ok(Scan(length, Some(chain)))
      else Ok(s)
  }

  /** The consensus loop run over `rs`, starting from the local chain's length. */
  function ScanAll(p: Primitives, localLength: int, rs: seq<Response>): Result<Scan, ConsensusError>
    decreases |rs|
  {
    if rs == [] then Ok(Scan(localLength, None))
    else
      match ScanAll(p, localLength, rs[..|rs| - 1])
      case Err(e) => Err(e)
      case Ok(s) => Step(p, s, rs[|rs| - 1])
  }

  /** A reply that may replace a local chain of length `localLength`: status 200, a reported
      length beyond it, and a non-empty valid chain. */
  predicate Eligible(p: Primitives, localLength: int, r: Response)
  {
    r.Reply? && r.status == StatusOk && r.reportedLength > localLength &&
    r.chain != [] && IsValidChain(p, r.chain)
  }

  /** Once the loop has raised on a prefix, the whole scan raises the same exception. */
  lemma {:induction false} ScanAllErrPersists(p: Primitives, localLength: int, rs: seq<Response>, k: int)
    requires 0 <= k <= |rs|
    requires ScanAll(p, localLength, rs[..k]).Err?
    ensures ScanAll(p, localLength, rs) == ScanAll(p, localLength, rs[..k])
    decreases |rs|
  {
    if k == |rs| {
      assert rs[..k] == rs;
    } else {
      var pre := rs[..|rs| - 1];
      assert pre[..k] == rs[..k];
      ScanAllErrPersists(p, localLength, pre, k);
    }
  }

  /** Extending the scanned prefix by one reply is one more Step. */
  lemma ScanAllSnoc(p: Primitives, localLength: int, rs: seq<Response>, i: int)
    requires 0 <= i < |rs|
    ensures ScanAll(p, localLength, rs[..i + 1]) ==
      match ScanAll(p, localLength, rs[..i])
      case Err(e) => Err(e)
      case Ok(s) => Step(p, s, rs[i])
  {
    assert rs[..i + 1][..i] == rs[..i];
  }

  /**
   * What a scan that did not raise computes: the chain is replaced exactly when some reply
   * is eligible; the chosen chain is that of an eligible reply whose reported length is the
   * largest among eligible replies and is the first to reach it; otherwise the length stays
   * the local one.
   */
  lemma {:induction false} ScanAllChoosesFirstLongest(p: Primitives, localLength: int, rs: seq<Response>, s: Scan)
    requires ScanAll(p, localLength, rs) == Ok(s)
    ensures s.longest.None? <==> s.maxLength == localLength
    ensures s.maxLength >= localLength
    ensures s.longest.None? <==> forall k :: 0 <= k < |rs| ==> !Eligible(p, localLength, rs[k])
    ensures forall k :: 0 <= k < |rs| && Eligible(p, localLength, rs[k]) ==> rs[k].reportedLength <= s.maxLength
    ensures s.longest.Some? ==>
      exists k :: 0 <= k < |rs| && Eligible(p, localLength, rs[k]) &&
        rs[k].chain == s.longest.value && rs[k].reportedLength == s.maxLength &&
        forall j :: 0 <= j < k && Eligible(p, localLength, rs[j]) ==> rs[j].reportedLength < s.maxLength
    decreases |rs|
  {
    if rs == [] {
    } else {
      var n := |rs| - 1;
      var pre := rs[..n];
      var r := rs[n];
      assert forall k :: 0 <= k < n ==> rs[k] == pre[k];
      match ScanAll(p, localLength, pre)
      case Err(e) =>
        assert false;
      case Ok(t) =>
        ScanAllChoosesFirstLongest(p, localLength, pre, t);
        assert Step(p, t, r) == Ok(s);
        if s != t {
          // r was taken as the new longest chain
          assert Eligible(p, localLength, r) && s == Scan(r.reportedLength, Some(r.chain));
          assert n < |rs| && Eligible(p, localLength, rs[n]) && rs[n].chain == s.longest.value;
        } else {
          assert Eligible(p, localLength, r) ==> r.reportedLength <= s.maxLength;
          if s.longest.Some? {
            var k :| 0 <= k < n && Eligible(p, localLength, pre[k]) &&
              pre[k].chain == t.longest.value && pre[k].reportedLength == t.maxLength &&
              forall j :: 0 <= j < k && Eligible(p, localLength, pre[j]) ==> pre[j].reportedLength < t.maxLength;
            assert rs[k] == pre[k];
          }
        }
    }
  }

  /** A scan that reaches an unreachable peer raises; nothing is skipped. */
  lemma UnreachableRaises(p: Primitives, localLength: int, rs: seq<Response>, k: int)
    requires 0 <= k < |rs| && rs[k].Unreachable?
    ensures ScanAll(p, localLength, rs).Err?
  {
    ScanAllSnoc(p, localLength, rs, k);
    ScanAllErrPersists(p, localLength, rs, k + 1);
  }

  /** A scan raises only on an unreachable peer or on an empty chain reported with a length
      beyond the local one. */
  lemma {:induction false} ScanAllRaisesOnlyOn(p: Primitives, localLength: int, rs: seq<Response>)
    requires forall k :: 0 <= k < |rs| ==> rs[k].Reply?
    requires forall k :: 0 <= k < |rs| && rs[k].status == StatusOk && rs[k].reportedLength > localLength ==> rs[k].chain != []
    ensures ScanAll(p, localLength, rs).Ok?
    decreases |rs|
  {
    if rs != [] {
      var pre := rs[..|rs| - 1];
      assert forall k :: 0 <= k < |pre| ==> pre[k] == rs[k];
      ScanAllRaisesOnlyOn(p, localLength, pre);
      ScanAllChoosesFirstLongest(p, localLength, pre, ScanAll(p, localLength, pre).value);
    }
  }

  /** A peer reporting the same length as the local chain never replaces it. */
  lemma EqualLengthNotReplaced(p: Primitives, localLength: int, c: seq<Block>)
    ensures ScanAll(p, localLength, [Reply(StatusOk, localLength, c)]) == Ok(Scan(localLength, None))
  {
    assert [Reply(StatusOk, localLength, c)][..0] == [];
  }

  /** A local chain of three blocks and one peer with a valid five-block chain: replaced. */
  lemma LongerValidPeerReplaces(p: Primitives, c: seq<Block>)
    requires |c| == 5 && IsValidChain(p, c)
    ensures ScanAll(p, 3, [Reply(StatusOk, 5, c)]) == Ok(Scan(5, Some(c)))
  {
    assert [Reply(StatusOk, 5, c)][..0] == [];
  }

  /** The same peer with an invalid chain: not replaced. */
  lemma LongerInvalidPeerIgnored(p: Primitives, c: seq<Block>)
    requires |c| == 5 && !IsValidChain(p, c)
    ensures ScanAll(p, 3, [Reply(StatusOk, 5, c)]) == Ok(Scan(3, None))
  {
    assert [Reply(StatusOk, 5, c)][..0] == [];
  }

  /** Neither block indices nor the reported length are checked against the chain: a peer
      may report length 2 with a one-block chain of index 7, which replaces a local genesis chain. */
  lemma ConsensusMayBreakIndices(p: Primitives)
    ensures var c := [Block(7, 0.0, [], GenesisProof, GenesisPrevHash)];
      ScanAll(p, 1, [Reply(StatusOk, 2, c)]) == Ok(Scan(2, Some(c))) &&
      !IndicesFollowPositions(c) && |c| < 2
  {
    var c := [Block(7, 0.0, [], GenesisProof, GenesisPrevHash)];
    assert [Reply(StatusOk, 2, c)][..0] == [];
    assert IsValidChain(p, c);
    assert c[0].index != 0 + 1;
  }
}
