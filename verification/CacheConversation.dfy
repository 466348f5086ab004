/** Listing the query cache over a whole conversation. */
module CacheConversation {
  import opened StoredProcedure
  import opened UnbufferedRun
  import opened PagedReply
  import opened Conversation
  import opened CacheEntries

  /** A procedure that never writes to the diagnostics area leaves nothing in it. */
  lemma {:induction false} QuietRun<S(!new)>(p: Procedure<S>, start: Conf<S>, k: nat)
    requires forall action, input, env: Env<S> :: p.call(action, input, env).env.context == env.context
    requires start.env.context == [] && RunFor(Machine(p), start, k).Ran?
    ensures RunFor(Machine(p), start, k).conf.env.context == []
  {
    if k > 0 {
      QuietRun(p, start, k - 1);
    }
  }

  lemma ListerIsClean(cache: Cache, rowLength: nat, start: Conf<Handle>)
    requires start.env.context == []
    ensures Clean(Lister(cache, rowLength), start)
  {
    hide RunFor;
    var p := Lister(cache, rowLength);
    forall k | RunFor(Machine(p), start, k).Ran?
      ensures RunFor(Machine(p), start, k).conf.env.context == []
    {
      QuietRun(p, start, k);
    }
  }

  /** The listing is sent completely and in order, once per input, whatever the sizes of the buffers are,
      if each can hold any single item that is still to come and there are enough of them. */
  method List(cache: Cache, rowLength: nat, rows: seq<Input>, spaces: seq<Buffer>) returns (replies: seq<seq<Item>>)
    requires spaces != [] && |spaces| >= |Listings(cache, rows)| && HoldsEach(spaces, Listings(cache, rows))
    ensures Concat(replies) == Listings(cache, rows)
    ensures |replies| == 1 || |replies| <= |Listings(cache, rows)|
  {
    hide AnswersAll, WholeOutput, Listings, Clean, HoldsEach, Concat;
    var p := Lister(cache, rowLength);
    ghost var start := Start(p, Null, rows, []);
    ghost var counts := seq(|rows|, _ => |Listing(cache)|);
    ListedForEveryInput(cache, rowLength, rows, start.env, counts);
    ListerIsClean(cache, rowLength, start);
    replies := ConverseToEnd(p, Null, rows, spaces, counts);
  }
}
