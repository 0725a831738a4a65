/** Two runs of the engine, proved from its contracts alone. */
module Scenarios {
  import opened Wrappers
  import opened Transactions
  import opened Blocks
  import opened Crypto
  import opened Verification
  import opened PeerGateway
  import opened Ledger

  /** A fresh node with no peers admits one signed measurement and mines it: the chain grows to
      two blocks, the second linked to genesis and carrying that transaction, and the pool empties. */
  method MineOneTransaction(o: Oracle, owner: string, signature: string, hopCount: string, importTime: real,
                            ghost solution: nat)
    returns (chain: seq<Block>, pool: seq<Transaction>)
    requires o.signatureHolds(owner, Some(hopCount), signature)
    requires ValidProof(o, [Transaction(owner, signature, Some(hopCount))], o.hashBlock(Genesis), solution)
    ensures |chain| == 2 && chain[0] == Genesis && pool == []
    ensures chain[1].previousHash == o.hashBlock(Genesis)
    ensures chain[1].transactions == [Transaction(owner, signature, Some(hopCount))]
    ensures VerifyChain(o, chain)
  {
    var node := new Blockchain(o, Some(owner), importTime, None);
    var ok, _ := node.AddTransaction(owner, signature, Some(hopCount), false, [], map[]);
    assert node.openTransactions == [Transaction(owner, signature, Some(hopCount))];
    var mined, _ := node.MineBlock([], map[], solution);
    VerifyChainShort(o, [Genesis]);
    chain := node.GetChain();
    pool := node.GetOpenTransactions();
  }

  /** Nodes A and B fork from genesis. A admits a transaction, mines it (chain of two blocks) and
      admits a further one; B serves a valid chain of three blocks. When A resolves against B, A
      adopts B's chain and drops its pending transaction. */
  method AdoptLongerPeerChain(o: Oracle, peer: string, remote: seq<Block>, tx: Transaction, importTime: real,
                              ghost solution: nat)
    returns (minedLength: nat, replaced: bool, chain: seq<Block>, pool: seq<Transaction>)
    requires |remote| == 3 && VerifyChain(o, remote)
    requires VerifyTransaction(o, tx, true)
    requires ValidProof(o, [tx], o.hashBlock(Genesis), solution)
    ensures minedLength == 2
    ensures replaced && chain == remote && pool == []
  {
    var a := new Blockchain(o, Some(tx.dataOwner), importTime, None);
    a.AddPeerNode(peer);
    assert Enumerates([peer], a.peerNodes);
    var _, _ := a.AddTransaction(tx.dataOwner, tx.signature, tx.hopCount, false, [peer], map[peer := Status(201)]);
    assert a.openTransactions == [tx];
    var mined, _ := a.MineBlock([peer], map[peer := Status(201)], solution);
    minedLength := |a.chain|;
    var _, _ := a.AddTransaction(tx.dataOwner, tx.signature, tx.hopCount, true, [], map[]);
    assert a.openTransactions == [tx];
    replaced := a.Resolve([peer], map[peer := Fetched(remote)]);
    assert ValidRemote(o, Fetched(remote));
    chain := a.GetChain();
    pool := a.GetOpenTransactions();
  }
}
