# blockchain_IoV ledger engine in Dafny

This project models the ledger engine of blockchain_IoV, a single-writer proof-of-work blockchain
whose transactions commit hop-count measurements. One node keeps a hash-linked chain of blocks,
a pool of pending signed transactions, a set of peer addresses and a `resolve_conflicts` flag.
It admits transactions, mines blocks, accepts blocks broadcast by peers and adopts the longest
valid peer chain. The project also proves the validation rules and data types the engine
depends on.

| module (file) | source | form |
|---|---|---|
| `Transactions` (Transaction.dfy) | blockchain_IoV/transaction.py | datatype `Transaction`; the projection `ToOrderedDict` that leaves out the signature |
| `Blocks` (Block.dfy) | blockchain_IoV/block.py | datatype `Block`, the genesis block, and the constructor with its import-time default timestamp |
| `Crypto` (Crypto.dfy) | utility/hash_util.py, wallet.py | `Oracle`: `hash_block`, `hash_string_256`, the `str()` renderings and the signature check, held as total functions |
| `Verification` (Verification.dfy) | blockchain_IoV/utility/verification.py | `ValidProof`, `VerifyChain`, `VerifyTransaction` and lemmas about them |
| `Removal` (Removal.dfy) | blockchain_IoV/blockchain.py (`add_block`) | `list.remove`, and the reference function `Without` that states how the pool is pruned |
| `PeerGateway` (PeerGateway.dfy) | blockchain_IoV/blockchain.py | the three loops over peers; each peer's HTTP answer is an input |
| `Ledger` (Blockchain.dfy) | blockchain_IoV/blockchain.py | class `Blockchain`: mutable fields `chain`, `openTransactions`, `peerNodes`, `resolveConflicts` |
| `Scenarios` (Scenarios.dfy) | blockchain_IoV/blockchain.py | two client runs proved from the engine's contracts alone |

The hashes, Python's `str()` rendering and the RSA check are not defined here. They are fields of
a `Crypto.Oracle` value that the engine receives when it is constructed. So every property below
holds whatever those functions compute. The one exception is `TamperingBreaksChain`, which assumes
only that the altered block and the original hash differently (no collision for that one pair).

Peer iteration order is an input too. `order` lists the peer set once, in the order Python's set
iteration happened to use, and `replies` maps each peer to its answer. The answer is a status
code or a connection error for a POST, and a chain or a connection error for `GET /chain`.

The `Transaction` constructor stores `dataOwner`, `signature` and `hop_count` as given. So does the
`Block` constructor with its fields, and it checks nothing. Both are the datatype constructors.
The engine's methods keep `Valid()` (the chain is never empty). `MineBlock`, `AddBlock` and
`Resolve` also keep `verify_chain` of the local chain: if the chain verified before the call, it
verifies after it. A chain installed by `load_data` (the constructor and `LoadData`) is not
verified, in the model as in the source.

Four behaviours of the code are easy to expect otherwise, and the model follows the code:
- A block built without an explicit `time` gets the instant block.py was imported, not the time
  of the call. The default `time=time()` is evaluated once, so every block mined in one process
  has the same timestamp.
- `add_transaction` returns False at the first peer that answers 400 or 500, and the remaining
  peers are not contacted.
- The last block of a chain is never hashed by `verify_chain`, and its proof reads only the
  owners and payloads of its transactions. So its signatures, its index and its timestamp are
  never checked, and a chain with a re-signed tip still verifies and can be adopted by `resolve`
  (`TipResignKeepsChain`). Only blocks with a successor are protected by the hash link
  (`TamperingBreaksChain`).
- `Wallet.verify_transaction` raises on malformed key or signature hex instead of returning False.
  The model treats the signature check as a boolean (see Left out).

## Model

| member | source | states |
|---|---|---|
| `Crypto.SignatureOk` | blockchain_IoV/wallet.py:78-87 | `Wallet.verify_transaction`: the oracle's verdict on (dataOwner, hop_count, signature) |
| `Verification.ValidProof` | blockchain_IoV/utility/verification.py:9-20 | the puzzle: the first three characters of the hash of (projections, last hash, proof) are "000" |
| `Verification.VerifyChain` | blockchain_IoV/utility/verification.py:23-35 | every block after index 0 links to its predecessor's hash and has a valid proof |
| `Verification.VerifyTransaction` | blockchain_IoV/utility/verification.py:38-47 | with `check_upload`, payload present and signature valid; without it, signature valid |
| `Removal.Without` | blockchain_IoV/blockchain.py:253-259 | reference for pruning: the pool with every transaction of the block dropped, the rest kept in order |
| `Transactions.ToOrderedDict` | blockchain_IoV/transaction.py:21-27 | the projection has exactly two entries: `dataOwner` with the owner, then `hop_count` with the payload |
| `Transactions.Projections` | blockchain_IoV/utility/verification.py:18 | the list comprehension: one projection per transaction, position by position |
| `Transactions.ProjectionDeterminesPayload` | blockchain_IoV/transaction.py:21-27 | two transactions have equal projections iff they agree on owner and payload, so the signature is the only field left out |
| `Transactions.ProjectionsIgnoreSignatures` | blockchain_IoV/transaction.py:24-27 | lists that differ only in signatures have equal projection lists |
| `Blocks.New` | blockchain_IoV/block.py:10-15 | fields are stored unchecked; `time` goes to `timestamp`, and when it is omitted every block gets the same import-time instant |
| `Verification.FirstThree` | blockchain_IoV/utility/verification.py:20 | the slice `[0:3]` is a prefix of the hash, of length 3 or the whole hash when shorter |
| `Verification.ValidProofIsPrefix` | blockchain_IoV/utility/verification.py:18-20 | `valid_proof` holds iff the hash of (projections, last hash, proof) begins with "000" |
| `Verification.ValidProofIgnoresSignatures` | blockchain_IoV/utility/verification.py:18 | `valid_proof` sees transactions only through `to_ordered_dict`: re-signed transactions give the same verdict |
| `Verification.VerifyChainShort` | blockchain_IoV/utility/verification.py:26-28 | block 0 is never inspected, so the empty chain and every one-block chain verify |
| `Verification.VerifyChainRejects` | blockchain_IoV/utility/verification.py:29-34 | one block after genesis with a broken link or an unsolved puzzle makes `verify_chain` False |
| `Verification.VerifyChainAppend` | blockchain_IoV/utility/verification.py:26-35 | appending a block that links to the tip's hash and has a valid proof keeps a chain valid |
| `Verification.VerifyChainPrefix` | blockchain_IoV/utility/verification.py:26-35 | every prefix of a valid chain is valid |
| `Verification.TamperingBreaksChain` | blockchain_IoV/utility/verification.py:29-31 | replacing a block that has a successor by one with a different `hash_block` makes `verify_chain` False |
| `Verification.TipResignKeepsChain` | blockchain_IoV/utility/verification.py:26-35 | a valid chain stays valid when its last block is replaced by one with the same link, proof, owners and payloads but any signatures, index or timestamp |
| `Verification.VerifyTransactionCases` | blockchain_IoV/utility/verification.py:44-47 | under `check_upload` a missing `hop_count` is refused; otherwise the verdict is the signature check's |
| `Removal.RemoveFirst` | blockchain_IoV/blockchain.py:256-259 | `remove` takes exactly one copy of a present element (multiset minus one) and leaves the list alone when the element is absent |
| `Removal.RemoveFirstAt` | blockchain_IoV/blockchain.py:256-259 | `remove` deletes the first occurrence of the element and keeps the elements before and after it in order |
| `Removal.WithoutCounts` | blockchain_IoV/blockchain.py:253-259 | the pruned pool keeps no transaction of the block, and every other transaction exactly as often as before |
| `Removal.WithoutMembers` | blockchain_IoV/blockchain.py:253-259 | a transaction stays in the pruned pool iff it was pooled and is not in the block |
| `PeerGateway.PostTransaction` | blockchain_IoV/blockchain.py:172-187 | success iff no peer answers 400/500, and then every peer was contacted; peers are contacted in order up to and including the first that declines; connection errors are skipped |
| `PeerGateway.PostBlock` | blockchain_IoV/blockchain.py:212-225 | every peer is contacted; a conflict is reported iff some peer answered 409 |
| `PeerGateway.FetchLongest` | blockchain_IoV/blockchain.py:267-294 | replaces iff some peer serves a valid chain longer than the local one; the winner is valid, longer, as long as every valid peer chain, and the first of that length; no replacement keeps the local chain |
| `Ledger.Blockchain.constructor` | blockchain_IoV/blockchain.py:27-41 | without stored data: chain `[Block(0, '', [], 100, 0)]`, empty pool, no peers, `resolve_conflicts` False; non-empty stored parts replace the defaults |
| `Ledger.Blockchain.LoadData` | blockchain_IoV/blockchain.py:105-142 | each non-empty stored part replaces its state; a failed read changes nothing |
| `Ledger.Blockchain.GetChain` | blockchain_IoV/blockchain.py:45-47 | returns a copy equal to the chain |
| `Ledger.Blockchain.GetOpenTransactions` | blockchain_IoV/blockchain.py:55-56 | returns a copy equal to the pool |
| `Ledger.Blockchain.AddPeerNode` | blockchain_IoV/blockchain.py:60-62 | the peer set gains the node |
| `Ledger.Blockchain.RemovePeerNode` | blockchain_IoV/blockchain.py:64-66 | the peer set loses the node, and an unknown node is no error |
| `Ledger.Blockchain.GetPeerNodes` | blockchain_IoV/blockchain.py:68-69 | lists every peer exactly once |
| `Ledger.Blockchain.ProofOfWork` | blockchain_IoV/blockchain.py:145-153 | returns the least proof >= 0 for which the pool sealed on the tip's hash solves the puzzle; reads but changes nothing |
| `Ledger.Blockchain.AddTransaction` | blockchain_IoV/blockchain.py:156-188 | a transaction failing `verify_transaction` is refused with the pool unchanged; otherwise it is appended and stays even when a peer declines; a broadcast succeeds iff no peer declines, having then posted to every peer, and otherwise stops at the first that declines |
| `Ledger.Blockchain.MineBlock` | blockchain_IoV/blockchain.py:191-226 | no identity or a bad pooled signature gives None and no change; otherwise exactly one block is appended (index = old length, linked to the old tip, carrying the old pool, least valid proof, import-time timestamp), the pool empties, `resolve_conflicts` turns on iff a peer answered 409, and chain validity is kept |
| `Ledger.Blockchain.AddBlock` | blockchain_IoV/blockchain.py:229-261 | accepted iff the proof is valid and the block links to the local tip; a rejection changes nothing; an acceptance appends the block and prunes the pool to `Without(pool, block transactions)` |
| `Ledger.Blockchain.DropIncluded` | blockchain_IoV/blockchain.py:250-259 | the nested removal loop leaves exactly `Without(pool, block transactions)` |
| `Ledger.Blockchain.DropCopies` | blockchain_IoV/blockchain.py:254-259 | the inner loop removes one pooled copy for each stored copy of the block's transaction |
| `Ledger.Blockchain.Resolve` | blockchain_IoV/blockchain.py:264-300 | replaces iff some peer serves a valid, strictly longer chain; then the pool is cleared and the new chain is a peer's valid chain no shorter than any valid peer chain; otherwise chain and pool are unchanged; `resolve_conflicts` ends False; the result says whether it replaced |
| `Scenarios.MineOneTransaction` | blockchain_IoV/blockchain.py:156-226 | from genesis, admitting and mining one signed transaction yields a valid two-block chain linked to genesis and an empty pool |
| `Scenarios.AdoptLongerPeerChain` | blockchain_IoV/blockchain.py:191-300 | a node that mined its own second block and holds a pending transaction adopts its only peer's valid three-block chain and drops the pending transaction |

## Left out

- Persistence (`save_data`, blockchain.py:72-102) is a no-op here. `load_data` is the optional `saved` input of the constructor. A malformed stored record raises `KeyError` in the source, and that case is not modelled.
- `hash_block`, `hash_string_256`, `.encode()` and Python's `str()` of the projection list and of the proof are the uninterpreted functions of `Crypto.Oracle`. SHA-256 and the exact text rendering are not modelled.
- wallet.py: key generation, signing and key storage are not part of this model. `Wallet.verify_transaction` is `Oracle.signatureHolds`. In the source it raises on malformed hex or key material, and the model reads that case as a boolean verdict.
- HTTP: a peer's answer is an input value. A `/chain` answer that is not a list of well-formed blocks raises in the source, and only a chain or a connection error is modelled.
- Ledger.Blockchain.ProofOfWork: requires a ghost `solution` that solves the puzzle, and `MineBlock` requires it when a key is configured. The source's search never ends without one, and runs that never end are not modelled.
- Transactions are compared by value. The source's `list.remove` compares `Transaction` objects by identity, but it only removes objects whose three fields match, so the resulting pool is the same sequence of values.
- `Verification.verify_transactions` (verification.py:50-52) is never called, and it passes three arguments to a two-parameter method.
- The `chain` setter (blockchain.py:49-51) is never called and is not modelled.
- node.py: the routes and the file-polling loop are not part of this model. `/mine` is refused while `resolve_conflicts` holds (node.py:241-243), but that check is the caller's, and the engine does not enforce it.
- `node_id` only names the storage files and is not modelled. Timestamps are `real` and are never interpreted.
- Concurrency: every operation runs to completion before the next one starts, as in the single-threaded source.
