/** The peer loops of blockchain_IoV/blockchain.py. Each peer's HTTP answer is an input: `order` is
    the order in which the peer set is iterated (Python leaves it unspecified) and `replies` maps
    each peer to what it answered. */
module PeerGateway {
  import opened Blocks
  import opened Crypto
  import opened Verification

  /** The outcome of `requests.post`: a status code, or `requests.exceptions.ConnectionError`. */
  datatype PostReply = Status(code: int) | ConnectionError

  /** The outcome of `requests.get(.../chain)`: the peer's chain, or a connection error. */
  datatype ChainReply = Fetched(chain: seq<Block>) | Unreachable

  const BadRequest := 400
  const Conflict := 409
  const ServerError := 500

  /** `order` lists every peer of `peers` exactly once. */
  ghost predicate Enumerates(order: seq<string>, peers: set<string>)
  {
    (forall i, j | 0 <= i < j < |order| :: order[i] != order[j])
    && (forall p :: p in order <==> p in peers)
  }

  /** Every peer in `order` has an answer. */
  predicate Answered<R>(order: seq<string>, replies: map<string, R>)
  {
    forall i | 0 <= i < |order| :: order[i] in replies
  }

  /** A 400 or 500 answer: the peer declined the broadcast. */
  predicate Declined(r: PostReply)
  {
    r.Status? && (r.code == BadRequest || r.code == ServerError)
  }

  /** The broadcast loop of `add_transaction`: post to each peer in turn, skip unreachable peers,
      and stop with failure at the first peer that declines. `contacted` lists the peers posted to. */
  method PostTransaction(order: seq<string>, replies: map<string, PostReply>) returns (ok: bool, contacted: seq<string>)
    requires Answered(order, replies)
    ensures contacted <= order
    ensures ok <==> forall i | 0 <= i < |order| :: !Declined(replies[order[i]])
    ensures ok ==> contacted == order
    ensures !ok ==> |contacted| > 0 && Declined(replies[contacted[|contacted| - 1]])
    ensures forall i | 0 <= i < |contacted| - 1 :: !Declined(replies[contacted[i]])
  {
    contacted := [];
    var i := 0;
    while i < |order|
      invariant i <= |order| && contacted == order[..i]
      invariant forall k | 0 <= k < i :: !Declined(replies[order[k]])
    {
      contacted := contacted + [order[i]];
      if Declined(replies[order[i]]) {
        return false, contacted;
      }
      i := i + 1;
    }
    return true, contacted;
  }

  /** The broadcast loop of `mine_block`: post to every peer; a 400 or 500 is only reported, a
      409 flags a conflict, unreachable peers are skipped. No answer stops the loop. */
  method PostBlock(order: seq<string>, replies: map<string, PostReply>) returns (conflict: bool, contacted: seq<string>)
    requires Answered(order, replies)
    ensures contacted == order
    ensures conflict <==> exists i | 0 <= i < |order| :: replies[order[i]] == Status(Conflict)
  {
    conflict, contacted := false, [];
    for i := 0 to |order|
      invariant contacted == order[..i]
      invariant conflict <==> exists k | 0 <= k < i :: replies[order[k]] == Status(Conflict)
    {
      contacted := contacted + [order[i]];
      var reply := replies[order[i]];
      if reply.Status? && reply.code == Conflict {
        conflict := true;
      }
    }
  }

  /** The peer answered with a chain that passes `verify_chain`. */
  predicate ValidRemote(o: Oracle, r: ChainReply)
  {
    r.Fetched? && VerifyChain(o, r.chain)
  }

  /** The loop of `resolve`: keep the longest valid remote chain that is strictly longer than the
      best seen so far, starting from the local chain. `replace` tells whether any was adopted. */
  method FetchLongest(o: Oracle, local: seq<Block>, order: seq<string>, replies: map<string, ChainReply>)
    returns (winner: seq<Block>, replace: bool)
    requires Answered(order, replies)
    ensures replace <==> exists i | 0 <= i < |order| ::
      ValidRemote(o, replies[order[i]]) && |replies[order[i]].chain| > |local|
    ensures !replace ==> winner == local
    ensures replace ==> |winner| > |local| && VerifyChain(o, winner)
    // the winner is the first valid chain of the greatest length
    ensures replace ==> exists i | 0 <= i < |order| ::
      replies[order[i]] == Fetched(winner)
      && forall j | 0 <= j < i :: ValidRemote(o, replies[order[j]]) ==> |replies[order[j]].chain| < |winner|
    ensures forall i | 0 <= i < |order| :: ValidRemote(o, replies[order[i]]) ==> |replies[order[i]].chain| <= |winner|
  {
    winner, replace := local, false;
    for i := 0 to |order|
      invariant |winner| >= |local|
      invariant replace <==> exists k | 0 <= k < i ::
        ValidRemote(o, replies[order[k]]) && |replies[order[k]].chain| > |local|
      invariant !replace ==> winner == local
      invariant replace ==> VerifyChain(o, winner)
      invariant replace ==> exists k | 0 <= k < i ::
        replies[order[k]] == Fetched(winner)
        && forall j | 0 <= j < k :: ValidRemote(o, replies[order[j]]) ==> |replies[order[j]].chain| < |winner|
      invariant forall k | 0 <= k < i :: ValidRemote(o, replies[order[k]]) ==> |replies[order[k]].chain| <= |winner|
    {
      var reply := replies[order[i]];
      if reply.Fetched? {
        var nodeChain := reply.chain;
        if |nodeChain| > |winner| && VerifyChain(o, nodeChain) {
          winner, replace := nodeChain, true;
          assert ValidRemote(o, replies[order[i]]);
        }
      }
    }
  }
}
