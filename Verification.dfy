/** blockchain_IoV/utility/verification.py: the puzzle, the chain check and the transaction check. */
module Verification {
  import opened Wrappers
  import opened Transactions
  import opened Blocks
  import opened Crypto

  /** The prefix a solved puzzle's hash must start with. */
  const Target := "000"

  /** The string hashed by `valid_proof`: the projections, then the last hash, then the proof. */
  function Guess(o: Oracle, txs: seq<Transaction>, lastHash: string, proof: int): string
  {
    o.showProjections(Projections(txs)) + lastHash + o.showInt(proof)
  }

  /** Python's slice `s[0:3]`, which is shorter than 3 when `s` is. */
  function FirstThree(s: string): (r: string)
    ensures r <= s && |r| == if |s| < 3 then |s| else 3
  {
    if |s| < 3 then s else s[..3]
  }

  /** `valid_proof(transactions, last_hash, proof)`: `guess_hash[0:3] == '000'`. */
  predicate ValidProof(o: Oracle, txs: seq<Transaction>, lastHash: string, proof: int)
  {
    FirstThree(o.hashString256(Guess(o, txs, lastHash, proof))) == Target
  }

  /** The slice comparison is exactly "the hash begins with 000". */
  lemma ValidProofIsPrefix(o: Oracle, txs: seq<Transaction>, lastHash: string, proof: int)
    ensures ValidProof(o, txs, lastHash, proof) <==> Target <= o.hashString256(Guess(o, txs, lastHash, proof))
  {
  }

  /** `valid_proof` reads transactions only through `to_ordered_dict`: re-signing the
      transactions of a block does not change whether its proof solves the puzzle. */
  lemma ValidProofIgnoresSignatures(o: Oracle, a: seq<Transaction>, b: seq<Transaction>, lastHash: string, proof: int)
    requires |a| == |b|
    requires forall i | 0 <= i < |a| :: a[i].dataOwner == b[i].dataOwner && a[i].hopCount == b[i].hopCount
    ensures ValidProof(o, a, lastHash, proof) == ValidProof(o, b, lastHash, proof)
  {
    ProjectionsIgnoreSignatures(a, b);
  }

  /** The block at index `i > 0` is linked to its predecessor and its proof is valid. */
  predicate LinkedAt(o: Oracle, chain: seq<Block>, i: int)
    requires 0 < i < |chain|
  {
    chain[i].previousHash == o.hashBlock(chain[i - 1])
    && ValidProof(o, chain[i].transactions, chain[i].previousHash, chain[i].proof)
  }

  /** `verify_chain(blockchain)`: every block after the first is linked and sealed; block 0 is
      never inspected. */
  predicate VerifyChain(o: Oracle, chain: seq<Block>)
  {
    forall i | 0 < i < |chain| :: LinkedAt(o, chain, i)
  }

  /** The empty chain and any one-block chain verify, whatever the first block holds. */
  lemma VerifyChainShort(o: Oracle, chain: seq<Block>)
    requires |chain| <= 1
    ensures VerifyChain(o, chain)
  {
  }

  /** One broken link or one unsolved puzzle after block 0 is enough to reject the chain. */
  lemma VerifyChainRejects(o: Oracle, chain: seq<Block>, i: int)
    requires 0 < i < |chain|
    requires chain[i].previousHash != o.hashBlock(chain[i - 1])
          || !ValidProof(o, chain[i].transactions, chain[i].previousHash, chain[i].proof)
    ensures !VerifyChain(o, chain)
  {
    assert !LinkedAt(o, chain, i);
  }

  /** Appending a block that points at the tip's hash and solves the puzzle keeps a chain valid. */
  lemma VerifyChainAppend(o: Oracle, chain: seq<Block>, b: Block)
    requires VerifyChain(o, chain) && |chain| > 0
    requires b.previousHash == o.hashBlock(chain[|chain| - 1])
    requires ValidProof(o, b.transactions, b.previousHash, b.proof)
    ensures VerifyChain(o, chain + [b])
  {
    var c := chain + [b];
    forall i | 0 < i < |c|
      ensures LinkedAt(o, c, i)
    {
      if i < |chain| {
        assert LinkedAt(o, chain, i);
      }
    }
  }

  /** Every prefix of a valid chain is valid. */
  lemma VerifyChainPrefix(o: Oracle, chain: seq<Block>, k: nat)
    requires VerifyChain(o, chain) && k <= |chain|
    ensures VerifyChain(o, chain[..k])
  {
    forall i | 0 < i < k
      ensures LinkedAt(o, chain[..k], i)
    {
      assert LinkedAt(o, chain, i);
    }
  }

  /** Replacing a block that has a successor by a block whose `hash_block` differs makes
      `verify_chain` fail: the successor's link no longer matches. */
  lemma TamperingBreaksChain(o: Oracle, chain: seq<Block>, i: nat, forged: Block)
    requires VerifyChain(o, chain)
    requires i + 1 < |chain| && o.hashBlock(forged) != o.hashBlock(chain[i])
    ensures !VerifyChain(o, chain[i := forged])
  {
    assert LinkedAt(o, chain, i + 1);
    var c := chain[i := forged];
    assert c[i + 1].previousHash != o.hashBlock(c[i]);
    assert !LinkedAt(o, c, i + 1);
  }

  /** The last block is never hashed, and its proof sees only the projections: a tip with the
      same link, the same proof and the same owners and payloads (any signatures, index and
      timestamp) keeps a valid chain valid. */
  lemma TipResignKeepsChain(o: Oracle, chain: seq<Block>, forged: Block)
    requires VerifyChain(o, chain) && |chain| >= 2
    requires forged.previousHash == chain[|chain| - 1].previousHash
    requires forged.proof == chain[|chain| - 1].proof
    requires |forged.transactions| == |chain[|chain| - 1].transactions|
    requires forall i | 0 <= i < |forged.transactions| ::
      forged.transactions[i].dataOwner == chain[|chain| - 1].transactions[i].dataOwner
      && forged.transactions[i].hopCount == chain[|chain| - 1].transactions[i].hopCount
    ensures VerifyChain(o, chain[|chain| - 1 := forged])
  {
    var n := |chain| - 1;
    var c := chain[n := forged];
    assert LinkedAt(o, chain, n);
    ValidProofIgnoresSignatures(o, forged.transactions, chain[n].transactions, forged.previousHash, forged.proof);
    forall i | 0 < i < |c|
      ensures LinkedAt(o, c, i)
    {
      assert LinkedAt(o, chain, i);
    }
  }

  /** `verify_transaction(transaction, check_upload)`: with `check_upload` the payload must be
      present; the signature must hold in every case. */
  predicate VerifyTransaction(o: Oracle, tx: Transaction, checkUpload: bool)
  {
    if checkUpload then tx.hopCount.Some? && SignatureOk(o, tx) else SignatureOk(o, tx)
  }

  /** A missing payload is refused under the upload check; otherwise the verdict is the signature's. */
  lemma VerifyTransactionCases(o: Oracle, tx: Transaction, checkUpload: bool)
    ensures checkUpload && tx.hopCount.None? ==> !VerifyTransaction(o, tx, checkUpload)
    ensures !(checkUpload && tx.hopCount.None?) ==> (VerifyTransaction(o, tx, checkUpload) <==> SignatureOk(o, tx))
  {
  }
}
