# A verified model of the simple-blockchain ledger

This project models the ledger engine of a small educational blockchain node. The model is
written in Dafny and proved.

The main part is the `Blockchain` class of `almost_real_blockchain.py`. It holds three pieces of
mutable state: the chain of blocks, the list of pending transactions and the set of peer
addresses. Its operations are modelled as methods of a Dafny class with the same three fields:

- the constructor builds the genesis block;
- `add_block` seals the pending transactions into a new block and clears the pending list;
- `add_new_transaction` queues a transaction;
- `proof_of_work` searches for a proof by brute force;
- `node_register` records a peer;
- `is_chain_valid` checks the hash and proof links of a chain;
- `consensus_algorithm` adopts the longest valid chain reported by peers.

Block hashing (SHA-256 over sorted-key JSON), the proof puzzle (the "0123" prefix of a SHA-256
digest) and URL parsing are library calls. They stay uninterpreted: the `Primitives` value given
to the constructor supplies them as arbitrary deterministic functions. Every property below
therefore holds for any hash function and any puzzle. Clock readings are method parameters.
The peers' HTTP replies are an input sequence, one reply per peer, in the order the loop visits
the peer set.

`ChainSpec` holds the pure specification. `IsValidChain` is the quantified form of chain
validity. `ScanAll` is the consensus loop written as a fold, and `ScanAllChoosesFirstLongest`
characterises it: replacement happens exactly when some reply is eligible, and the chain taken
is the first one reaching the largest eligible reported length. The methods are proved against
these definitions.

The module `Mining` replays the mining request of `app/routes.py` over the model. It proves that
mining keeps a valid chain valid and keeps indices at their positions.

The second, smaller part is `simple_examples/simple_blockchain.py`. It is modelled in
`SimpleBlockchain` as values:

- a `SingleBlock` datatype that stores its own digest;
- the `next_block` function;
- `__str__`;
- the script's ten-block loop, as a method with loop invariants.

Python's `str` on integers is modelled in `Decimal`, with a round-trip proof.

Behaviour of the source worth knowing:

- A failed peer request raises out of `consensus_algorithm`; it is not skipped. `ConsensusAlgorithm` returns `Err(ConnectionError)` and leaves the chain unchanged.
- A peer that reports a length beyond the current best with an empty chain makes `is_chain_valid` raise an index error. This is `Err(EmptyChainIndexError)`.
- `add_new_transaction` returns the last block's stored index plus one, not the chain length plus one. The two agree while indices follow positions, and a chain adopted by consensus need not keep that invariant (`ChainSpec.ConsensusMayBreakIndices`).
- The reported length of a peer's chain is trusted; it is never compared with the chain itself.

## Model

| member | source | states |
|---|---|---|
| `AlmostRealBlockchain.Blockchain.constructor` | almost_real_blockchain.py:28-36 | the chain is exactly one block with index 1, proof 100, prev hash "1" and no transactions; no pending transactions, no peers; that chain is valid and its indices follow positions |
| `AlmostRealBlockchain.Blockchain.LatestBlock` | almost_real_blockchain.py:38-41 | the result is the last block of the never-empty chain; when indices follow positions its index is the chain length |
| `AlmostRealBlockchain.Blockchain.AddBlock` | almost_real_blockchain.py:43-67 | exactly one block is appended and earlier blocks are unchanged; its index is the old length + 1, its transactions are the old pending list, its proof is the argument, its prev hash is the caller's value or else the hash of the old last block; the pending list is empty afterwards; the index invariant is preserved, and validity is preserved when the hash is computed and the proof solves the puzzle |
| `AlmostRealBlockchain.Blockchain.AddNewTransaction` | almost_real_blockchain.py:69-84 | the transaction is appended at the end of the pending list and the chain is unchanged; the result is the latest block's index + 1, which is the chain length + 1 whenever indices follow positions |
| `AlmostRealBlockchain.Blockchain.ProofOfWork` | almost_real_blockchain.py:86-98 | the result is non-negative and solves the puzzle for the previous proof, and no smaller non-negative number does |
| `AlmostRealBlockchain.Blockchain.NodeRegister` | almost_real_blockchain.py:100-109 | the peer set gains the address's network location and nothing else, so it grows by at most one; registering a known location changes nothing |
| `AlmostRealBlockchain.Blockchain.IsChainValid` | almost_real_blockchain.py:111-133 | for a non-empty chain, the result is true exactly when every block after the first stores the hash of its predecessor and its proof solves the puzzle of its predecessor's proof |
| `AlmostRealBlockchain.Blockchain.ConsensusAlgorithm` | almost_real_blockchain.py:135-162 | the outcome and the new chain are those of the consensus scan: on an exception the chain is unchanged, otherwise it is replaced by the chosen chain exactly when one was chosen; the result is true exactly when some reply is eligible, and a replacing chain is valid; the chain stays non-empty |
| `ChainSpec.SingleBlockChainValid` | almost_real_blockchain.py:118-133 | a one-block chain is valid |
| `ChainSpec.ValidChainAppend` | almost_real_blockchain.py:118-133 | a chain extended by one block is valid exactly when the chain is valid and the new block is linked to its last block |
| `ChainSpec.IndicesAppend` | almost_real_blockchain.py:55 | appending a block whose index is the old length + 1 keeps every index equal to its position + 1 |
| `ChainSpec.TamperedPrevHashInvalid` | almost_real_blockchain.py:124-125 | changing one non-genesis block's stored prev hash in a valid chain makes the chain invalid |
| `ChainSpec.BadProofInvalid` | almost_real_blockchain.py:127-128 | a block whose proof fails the puzzle against its predecessor's makes the chain invalid |
| `ChainSpec.ScanAllErrPersists` | almost_real_blockchain.py:146-151 | once the loop has raised on some prefix of the replies, the whole scan ends with that exception |
| `ChainSpec.ScanAllChoosesFirstLongest` | almost_real_blockchain.py:142-162 | after a scan without exception: a chain is chosen exactly when some reply is eligible (status 200, reported length above the local length, non-empty valid chain); with none chosen the length stays the local length; the chosen chain is that of an eligible reply whose reported length is the largest among eligible replies and is strictly larger than that of every earlier eligible reply |
| `ChainSpec.UnreachableRaises` | almost_real_blockchain.py:147 | a scan over replies that include a failed request always raises |
| `ChainSpec.ScanAllRaisesOnlyOn` | almost_real_blockchain.py:147-154 | a scan in which every request succeeded and every status-200 reply with a length beyond the local one has a non-empty chain does not raise |
| `ChainSpec.EqualLengthNotReplaced` | almost_real_blockchain.py:154 | a valid peer chain of the same reported length as the local chain is not adopted |
| `ChainSpec.LongerValidPeerReplaces` | almost_real_blockchain.py:154-160 | with a local length of 3, one peer's valid five-block chain reported as length 5 is adopted |
| `ChainSpec.LongerInvalidPeerIgnored` | almost_real_blockchain.py:154-162 | the same peer with an invalid chain is ignored and the local length stays 3 |
| `ChainSpec.ConsensusMayBreakIndices` | almost_real_blockchain.py:154-159 | a reply reporting length 2 with a one-block chain of index 7 replaces a one-block local chain, although that chain breaks the index invariant and is not longer |
| `Mining.Mine` | app/routes.py:9-24 | mining appends one block holding the old pending transactions plus the reward ("0", node id, 1), whose index is the old length + 1, whose prev hash is the hash of the old latest block, and whose proof is the least one solving its puzzle; the pending list is emptied; a valid chain stays valid and indices keep following positions |
| `Decimal.NatToString` | simple_examples/simple_blockchain.py:28 | the numeral of a natural number is non-empty, all digits, and has no leading zero unless the number is 0 |
| `Decimal.IntToString` | simple_examples/simple_blockchain.py:28 | the numeral is non-empty and starts with '-' exactly for negative numbers |
| `Decimal.ParseNatToString` | simple_examples/simple_blockchain.py:28 | reading the digits of a natural number's numeral gives the number back |
| `Decimal.IntToStringRoundTrip` | simple_examples/simple_blockchain.py:28 | every integer's numeral is well formed and reads back as that integer |
| `Decimal.IntToStringInjective` | simple_examples/simple_blockchain.py:28 | distinct integers have distinct numerals |
| `SimpleBlockchain.NewSingleBlock` | simple_examples/simple_blockchain.py:6-19 | the four arguments are stored unchanged and the block is sealed: its hash is the digest of exactly those four fields |
| `SimpleBlockchain.BlockString` | simple_examples/simple_blockchain.py:21-22 | the printed form is the data, then a newline and "Hash: ", then the hash, and nothing more |
| `SimpleBlockchain.BlockStringInjective` | simple_examples/simple_blockchain.py:21-22 | the printed form reads back unambiguously: two blocks with hashes of equal length print the same text only if their data and their hashes are equal |
| `SimpleBlockchain.NextBlock` | simple_examples/simple_blockchain.py:25-30 | the successor is sealed, its index is the predecessor's + 1, its data is "This is a block #" and that index, its timestamp is the given clock reading, and its prev hash is the predecessor's prev hash rather than its hash |
| `SimpleBlockchain.NextBlockDataNamesIndex` | simple_examples/simple_blockchain.py:26-28 | a successor's data is the fixed prefix followed by a numeral that reads back as its index |
| `SimpleBlockchain.BuildBlockchain` | simple_examples/simple_blockchain.py:33-41 | the list holds 11 blocks; the first is block 0 "First block" with prev hash "0", and each later one is the next block of its predecessor; block i has index i and the i-th timestamp, every block is sealed and has prev hash "0", and block i's data names i |

## Left out

- SHA-256, `json.dumps(sort_keys=True)` and `urlparse(...).netloc` are not modelled; they are the uninterpreted functions of `ChainSpec.Primitives` and `SimpleBlockchain.HashHex`.
- `time()` and `datetime.now()` are not modelled; each reading is a parameter (`now`, `times`).
- `requests.get` and the JSON payload of a reply are not modelled; a reply is a `ChainSpec.Response` value given as input. Replies with missing keys or non-numeric lengths are not represented; they raise `KeyError` or `TypeError` in the source. A fractional or boolean length is compared as a number in the source; it is not represented either, because `reportedLength` is an `int`.
- The iteration order of the peer set is unspecified in Python; the model takes the replies in whatever order the loop visits the peers, and the choice among equal-length chains depends on that order.
- Transaction totals are modelled as `int` and timestamps as `real`: the float timestamps of `almost_real_blockchain.py` and the `datetime` values of `simple_examples/simple_blockchain.py` alike. Python floats and arbitrary JSON values are not modelled.
- AlmostRealBlockchain.Blockchain.ProofOfWork: requires that some non-negative proof solves the puzzle, because for other inputs the source loops forever and termination cannot be shown for real SHA-256.
- AlmostRealBlockchain.Blockchain.ConsensusAlgorithm: requires one reply per peer; which peer gave which reply is not tracked.
- AlmostRealBlockchain.Blockchain.IsChainValid: requires a non-empty chain, because the source raises on an empty one; the consensus loop models that exception as `EmptyChainIndexError`.
- The `print` calls of `simple_examples/simple_blockchain.py` (console output) are not modelled.
- `app/__init__.py` (Flask app setup, `uuid4` node id) is not modelled; the node id is a parameter of `Mining.Mine`.
- The other request handlers of `app/routes.py` are not modelled. They parse HTTP/JSON and format responses.
- `simple_examples/pow_example.py` is not modelled. It is a standalone script with a suffix search of the same shape as `proof_of_work`.
- Concurrency is not modelled. The web server shares one ledger without locking; every operation here runs alone.
