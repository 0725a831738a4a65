/** blockchain_IoV/blockchain.py: the ledger engine of one node. */
module Ledger {
  import opened Wrappers
  import opened Transactions
  import opened Blocks
  import opened Crypto
  import opened Verification
  import opened Removal
  import opened PeerGateway

  /** What `load_data` reads back from the node's three TinyDB files. */
  datatype SavedState = SavedState(chain: seq<Block>, openTransactions: seq<Transaction>, peerNodes: seq<string>)

  /** `Blockchain`: the chain, the pending pool, the peer set and the `resolve_conflicts` flag. */
  class Blockchain {
    /** The hashes, renderings and signature check the engine relies on. */
    const oracle: Oracle
    /** `public_key`: the identity mining requires; `None` when no wallet is set up. */
    const publicKey: Option<string>
    /** When block.py was imported: the timestamp of every block built without an explicit time. */
    const importTime: real

    var chain: seq<Block>
    var openTransactions: seq<Transaction>
    var peerNodes: set<string>
    var resolveConflicts: bool

    /** The chain is never empty: it starts at genesis, and a load or a resolve replaces it only
        by a non-empty (resp. longer) one. */
    ghost predicate Valid()
      reads this
    {
      |chain| > 0
    }

    /** `self.__chain[-1]` */
    function Tip(): Block
      reads this
      requires Valid()
    {
      chain[|chain| - 1]
    }

    /** `__init__`: the genesis-only state, then `load_data`. `saved` is what the store holds, or
        `None` when reading it failed. */
    constructor (oracle: Oracle, publicKey: Option<string>, importTime: real, saved: Option<SavedState>)
      ensures Valid()
      ensures this.oracle == oracle && this.publicKey == publicKey && this.importTime == importTime
      ensures !resolveConflicts
      ensures saved.None? ==> chain == [Genesis] && openTransactions == [] && peerNodes == {}
      ensures saved.Some? ==> chain == (if |saved.value.chain| > 0 then saved.value.chain else [Genesis])
      ensures saved.Some? ==>
        openTransactions == (if |saved.value.openTransactions| > 0 then saved.value.openTransactions else [])
      ensures saved.Some? ==>
        peerNodes == (if |saved.value.peerNodes| > 0 then (set p | p in saved.value.peerNodes) else {})
    {
      this.oracle := oracle;
      this.publicKey := publicKey;
      this.importTime := importTime;
      chain := [Genesis];
      openTransactions := [];
      peerNodes := {};
      resolveConflicts := false;
      new;
      LoadData(saved);
    }

    /** `load_data`: each stored part that is non-empty replaces the corresponding state. */
    method LoadData(saved: Option<SavedState>)
      requires Valid()
      modifies this`chain, this`openTransactions, this`peerNodes
      ensures Valid()
      ensures saved.None? ==> unchanged(this)
      ensures saved.Some? ==>
        chain == (if |saved.value.chain| > 0 then saved.value.chain else old(chain))
      ensures saved.Some? ==>
        openTransactions == (if |saved.value.openTransactions| > 0 then saved.value.openTransactions else old(openTransactions))
      ensures saved.Some? ==>
        peerNodes == (if |saved.value.peerNodes| > 0 then (set p | p in saved.value.peerNodes) else old(peerNodes))
    {
      if saved.Some? {
        var s := saved.value;
        if |s.chain| != 0 {
          chain := s.chain;
        }
        if |s.openTransactions| != 0 {
          openTransactions := s.openTransactions;
        }
        if |s.peerNodes| != 0 {
          peerNodes := set p | p in s.peerNodes;
        }
      }
    }

    /** The `chain` property: a copy of the chain. */
    method GetChain() returns (snapshot: seq<Block>)
      ensures snapshot == chain
    {
      snapshot := chain;
    }

    /** `get_open_transactions`: a copy of the pending pool. */
    method GetOpenTransactions() returns (snapshot: seq<Transaction>)
      ensures snapshot == openTransactions
    {
      snapshot := openTransactions;
    }

    /** `add_peer_node` */
    method AddPeerNode(node: string)
      modifies this`peerNodes
      ensures peerNodes == old(peerNodes) + {node}
    {
      peerNodes := peerNodes + {node};
    }

    /** `remove_peer_node`: `discard`, so an unknown peer is not an error. */
    method RemovePeerNode(node: string)
      modifies this`peerNodes
      ensures peerNodes == old(peerNodes) - {node}
    {
      peerNodes := peerNodes - {node};
    }

    /** `get_peer_nodes`: `list(self.__peer_nodes)`, every peer once, in no particular order. */
    method GetPeerNodes() returns (nodes: seq<string>)
      ensures Enumerates(nodes, peerNodes)
    {
      nodes := [];
      var rest := peerNodes;
      while rest != {}
        invariant rest <= peerNodes
        invariant forall p :: p in nodes <==> p in peerNodes && p !in rest
        invariant forall i, j | 0 <= i < j < |nodes| :: nodes[i] != nodes[j]
        decreases rest
      {
        var p :| p in rest;
        nodes := nodes + [p];
        rest := rest - {p};
      }
    }

    /** `proof_of_work`: count up from 0 until the pool, sealed on the tip's hash, solves the
        puzzle. The search ends only if a solution exists; `solution` is one. */
    method ProofOfWork(ghost solution: nat) returns (proof: nat)
      requires Valid()
      requires ValidProof(oracle, openTransactions, oracle.hashBlock(Tip()), solution)
      ensures ValidProof(oracle, openTransactions, oracle.hashBlock(Tip()), proof)
      ensures forall q | 0 <= q < proof :: !ValidProof(oracle, openTransactions, oracle.hashBlock(Tip()), q)
    {
      var lastHash := oracle.hashBlock(chain[|chain| - 1]);
      proof := 0;
      while !ValidProof(oracle, openTransactions, lastHash, proof)
        invariant proof <= solution
        invariant forall q | 0 <= q < proof :: !ValidProof(oracle, openTransactions, lastHash, q)
        decreases solution - proof
      {
        proof := proof + 1;
      }
    }

    /** `add_transaction`: admit the transaction if it passes `verify_transaction`, then, unless
        it arrived as a broadcast, post it to every peer. A declining peer makes the call report
        failure, but the transaction stays in the pool. */
    method AddTransaction(dataOwner: string, signature: string, hopCount: Option<string>, isReceiving: bool,
                          order: seq<string>, replies: map<string, PostReply>)
      returns (ok: bool, contacted: seq<string>)
      requires !isReceiving ==> Enumerates(order, peerNodes) && Answered(order, replies)
      modifies this`openTransactions
      ensures !VerifyTransaction(oracle, Transaction(dataOwner, signature, hopCount), true) ==>
        !ok && contacted == [] && openTransactions == old(openTransactions)
      ensures VerifyTransaction(oracle, Transaction(dataOwner, signature, hopCount), true) ==>
        openTransactions == old(openTransactions) + [Transaction(dataOwner, signature, hopCount)]
      ensures VerifyTransaction(oracle, Transaction(dataOwner, signature, hopCount), true) && isReceiving ==>
        ok && contacted == []
      ensures VerifyTransaction(oracle, Transaction(dataOwner, signature, hopCount), true) && !isReceiving ==>
        (ok <==> forall p | p in peerNodes :: !Declined(replies[p]))
        && contacted <= order
        && (ok ==> contacted == order)
        && (!ok ==> |contacted| > 0 && Declined(replies[contacted[|contacted| - 1]]))
        && (forall i | 0 <= i < |contacted| - 1 :: !Declined(replies[contacted[i]]))
    {
      var transaction := Transaction(dataOwner, signature, hopCount);
      if !VerifyTransaction(oracle, transaction, true) {
        return false, [];
      }
      openTransactions := openTransactions + [transaction];
      if isReceiving {
        return true, [];
      }
      ok, contacted := PostTransaction(order, replies);
    }

    /** `mine_block`: with an identity configured, solve the puzzle over the pool, re-check every
        pooled signature, then append the new block, empty the pool and post the block to every
        peer; a peer answering 409 sets `resolve_conflicts`. */
    method MineBlock(order: seq<string>, replies: map<string, PostReply>, ghost solution: nat)
      returns (mined: Option<Block>, contacted: seq<string>)
      requires Valid()
      requires publicKey.Some? ==> ValidProof(oracle, openTransactions, oracle.hashBlock(Tip()), solution)
      requires Enumerates(order, peerNodes) && Answered(order, replies)
      modifies this`chain, this`openTransactions, this`resolveConflicts
      ensures Valid()
      ensures mined.Some? <==>
        publicKey.Some? && forall i | 0 <= i < |old(openTransactions)| :: SignatureOk(oracle, old(openTransactions)[i])
      ensures mined.None? ==>
        chain == old(chain) && openTransactions == old(openTransactions)
        && resolveConflicts == old(resolveConflicts) && contacted == []
      ensures mined.Some? ==>
        var b := mined.value;
        b.index == |old(chain)| && b.previousHash == oracle.hashBlock(old(Tip()))
        && b.transactions == old(openTransactions) && b.timestamp == importTime
        && b.proof >= 0 && ValidProof(oracle, b.transactions, b.previousHash, b.proof)
        && (forall q | 0 <= q < b.proof :: !ValidProof(oracle, b.transactions, b.previousHash, q))
        && chain == old(chain) + [b] && openTransactions == []
        && (resolveConflicts <==> old(resolveConflicts) || exists p | p in peerNodes :: replies[p] == Status(Conflict))
        && contacted == order
      ensures VerifyChain(oracle, old(chain)) ==> VerifyChain(oracle, chain)
    {
      if publicKey.None? {
        return None, [];
      }
      var hashedBlock := oracle.hashBlock(chain[|chain| - 1]);
      var proof := ProofOfWork(solution);
      var copiedTransactions := openTransactions;
      for i := 0 to |copiedTransactions|
        invariant forall k | 0 <= k < i :: SignatureOk(oracle, copiedTransactions[k])
      {
        if !SignatureOk(oracle, copiedTransactions[i]) {
          return None, [];
        }
      }
      var block := New(|chain|, hashedBlock, copiedTransactions, proof, None, importTime);
      if VerifyChain(oracle, chain) {
        VerifyChainAppend(oracle, chain, block);
      }
      chain := chain + [block];
      openTransactions := [];
      var conflict;
      conflict, contacted := PostBlock(order, replies);
      if conflict {
        resolveConflicts := true;
      }
      mined := Some(block);
    }

    /** `add_block`: accept a broadcast block iff its proof solves the puzzle and it points at the
        local tip; then drop from the pool every transaction the block carries. */
    method AddBlock(block: Block) returns (accepted: bool)
      requires Valid()
      modifies this`chain, this`openTransactions
      ensures Valid()
      ensures accepted <==>
        ValidProof(oracle, block.transactions, block.previousHash, block.proof)
        && block.previousHash == oracle.hashBlock(old(Tip()))
      ensures !accepted ==> chain == old(chain) && openTransactions == old(openTransactions)
      ensures accepted ==>
        chain == old(chain) + [block] && openTransactions == Without(old(openTransactions), block.transactions)
      ensures VerifyChain(oracle, old(chain)) ==> VerifyChain(oracle, chain)
    {
      var transactions := block.transactions;
      var proofIsValid := ValidProof(oracle, transactions, block.previousHash, block.proof);
      var hashesMatch := oracle.hashBlock(chain[|chain| - 1]) == block.previousHash;
      if !proofIsValid || !hashesMatch {
        return false;
      }
      var convertedBlock := New(block.index, block.previousHash, transactions, block.proof, Some(block.timestamp), importTime);
      if VerifyChain(oracle, chain) {
        VerifyChainAppend(oracle, chain, convertedBlock);
      }
      chain := chain + [convertedBlock];
      DropIncluded(transactions);
      accepted := true;
    }

    /** The nested loop of `add_block`: for each transaction of the block, remove from the pool
        every stored transaction with the same dataOwner, signature and hop_count (a copy already
        removed is skipped, as the `ValueError` handler does). */
    method DropIncluded(transactions: seq<Transaction>)
      modifies this`openTransactions
      ensures openTransactions == Without(old(openTransactions), transactions)
    {
      var stored := openTransactions;
      WithoutNothing(stored);
      for i := 0 to |transactions|
        invariant openTransactions == Without(stored, transactions[..i])
      {
        var itx := transactions[i];
        ghost var kept := openTransactions;
        DropCopies(itx, stored);
        WithoutCounts(stored, transactions[..i], itx);
        RemoveFirstNAll(kept, itx, multiset(stored)[itx]);
        WithoutExtend(stored, transactions[..i], itx);
        assert transactions[..i + 1] == transactions[..i] + [itx];
      }
      assert transactions[..|transactions|] == transactions;
    }

    /** The inner loop of `add_block` for one transaction `itx` of the block: each stored copy of
        `itx` is removed once from the pool (the first equal element goes). */
    method DropCopies(itx: Transaction, stored: seq<Transaction>)
      modifies this`openTransactions
      ensures openTransactions == RemoveFirstN(old(openTransactions), itx, multiset(stored)[itx])
    {
      ghost var kept := openTransactions;
      RemoveFirstNZero(kept, itx);
      for j := 0 to |stored|
        invariant openTransactions == RemoveFirstN(kept, itx, multiset(stored[..j])[itx])
      {
        var opentx := stored[j];
        assert stored[..j + 1] == stored[..j] + [opentx];
        if opentx == itx {
          RemoveFirstNStep(kept, itx, multiset(stored[..j])[itx]);
          openTransactions := RemoveFirst(openTransactions, opentx);
        }
      }
      assert stored[..|stored|] == stored;
    }

    /** `resolve`: adopt the longest valid peer chain that is longer than the local one, clearing
        the pool if one was adopted; `resolve_conflicts` is cleared in every case. */
    method Resolve(order: seq<string>, replies: map<string, ChainReply>) returns (replaced: bool)
      requires Valid()
      requires Enumerates(order, peerNodes) && Answered(order, replies)
      modifies this`chain, this`openTransactions, this`resolveConflicts
      ensures Valid()
      ensures !resolveConflicts
      ensures replaced <==>
        exists p | p in peerNodes :: ValidRemote(oracle, replies[p]) && |replies[p].chain| > |old(chain)|
      ensures !replaced ==> chain == old(chain) && openTransactions == old(openTransactions)
      ensures replaced ==>
        |chain| > |old(chain)| && VerifyChain(oracle, chain) && openTransactions == []
        && exists p | p in peerNodes :: replies[p] == Fetched(chain)
      ensures forall p | p in peerNodes :: ValidRemote(oracle, replies[p]) ==> |replies[p].chain| <= |chain|
      ensures VerifyChain(oracle, old(chain)) ==> VerifyChain(oracle, chain)
    {
      var winnerChain;
      winnerChain, replaced := FetchLongest(oracle, chain, order, replies);
      resolveConflicts := false;
      chain := winnerChain;
      if replaced {
        openTransactions := [];
      }
    }
  }
}
