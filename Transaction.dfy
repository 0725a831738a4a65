/** blockchain_IoV/transaction.py: the signed record a node commits to the chain. */
module Transactions {
  import opened Wrappers

  /** `Transaction(dataOwner, signature, hop_count)`: the hex public key of the owner, the hex
      signature, and the committed measurement (`None` when the payload is missing).
      The constructor records the three fields as given. */
  datatype Transaction = Transaction(dataOwner: string, signature: string, hopCount: Option<string>)

  /** One (key, value) pair of the OrderedDict built by `to_ordered_dict`. */
  datatype Entry = Entry(key: string, value: Option<string>)

  type OrderedDict = seq<Entry>

  const OwnerKey := "dataOwner"
  const HopCountKey := "hop_count"

  /** The canonical projection fed to proof-of-work hashing: the owner, then the payload; the
      signature is not part of it. */
  function ToOrderedDict(tx: Transaction): (d: OrderedDict)
    ensures |d| == 2
    ensures d[0] == Entry(OwnerKey, Some(tx.dataOwner))
    ensures d[1] == Entry(HopCountKey, tx.hopCount)
  {
    [Entry(OwnerKey, Some(tx.dataOwner)), Entry(HopCountKey, tx.hopCount)]
  }

  /** `[tx.to_ordered_dict() for tx in transactions]`. */
  function Projections(txs: seq<Transaction>): (ds: seq<OrderedDict>)
    ensures |ds| == |txs|
    ensures forall i | 0 <= i < |txs| :: ds[i] == ToOrderedDict(txs[i])
  {
    if txs == [] then [] else [ToOrderedDict(txs[0])] + Projections(txs[1..])
  }

  /** Two transactions have the same projection exactly when they agree on owner and payload:
      the projection drops the signature and nothing else. */
  lemma ProjectionDeterminesPayload(a: Transaction, b: Transaction)
    ensures ToOrderedDict(a) == ToOrderedDict(b) <==> (a.dataOwner == b.dataOwner && a.hopCount == b.hopCount)
  {
  }

  /** Lists of transactions that differ only in their signatures project to the same list. */
  lemma ProjectionsIgnoreSignatures(a: seq<Transaction>, b: seq<Transaction>)
    requires |a| == |b|
    requires forall i | 0 <= i < |a| :: a[i].dataOwner == b[i].dataOwner && a[i].hopCount == b[i].hopCount
    ensures Projections(a) == Projections(b)
  {
  }
}
