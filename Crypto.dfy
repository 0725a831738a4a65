/** The primitives the ledger uses but does not define: the hashes of utility/hash_util.py, Python's
    `str()` rendering inside the proof-of-work guess, and the RSA signature check of
    `Wallet.verify_transaction`. They are carried as total functions, so every property proved here
    holds whatever these functions are. */
module Crypto {
  import opened Wrappers
  import opened Transactions
  import opened Blocks

  datatype Oracle = Oracle(
    /** `hash_block(block)` */
    hashBlock: Block -> string,
    /** `hash_string_256(s.encode())` */
    hashString256: string -> string,
    /** `str(...)` of the list of projections */
    showProjections: seq<OrderedDict> -> string,
    /** `str(proof)` */
    showInt: int -> string,
    /** `Wallet.verify_transaction`: does `signature` sign (dataOwner, hop_count) under the key `dataOwner`? */
    signatureHolds: (string, Option<string>, string) -> bool)

  /** `Wallet.verify_transaction(tx)`. */
  predicate SignatureOk(o: Oracle, tx: Transaction)
  {
    o.signatureHolds(tx.dataOwner, tx.hopCount, tx.signature)
  }
}
