/** blockchain_IoV/block.py: the block record. */
module Blocks {
  import opened Wrappers
  import opened Transactions

  /** `Block(index, previous_hash, transactions, proof, time)`; the timestamp is an opaque float. */
  datatype Block = Block(index: int, previousHash: string, transactions: seq<Transaction>, proof: int, timestamp: real)

  /** The block every chain starts from: `Block(0, '', [], 100, 0)`. */
  const Genesis := Block(0, "", [], 100, 0.0)

  /** The constructor call `Block(index, previous_hash, transactions, proof[, time])`. The default
      for `time` is evaluated once, when block.py is imported; `importTime` is that instant, so
      every block built without an explicit time carries the same timestamp. No field is checked. */
  function New(index: int, previousHash: string, transactions: seq<Transaction>, proof: int,
               time: Option<real>, importTime: real): (b: Block)
    ensures b.index == index && b.previousHash == previousHash
    ensures b.transactions == transactions && b.proof == proof
    ensures time.Some? ==> b.timestamp == time.value
    ensures time.None? ==> b.timestamp == importTime
  {
    Block(index, previousHash, transactions, proof, if time.Some? then time.value else importTime)
  }
}
