/** What it means to keep the call protocol, spelled out: OPEN, FETCH as often as there is more, CLOSE. */
module CallShape {
  import opened StoredProcedure
  import opened UnbufferedRun

  /** How the fetches for an input ended: not at all, with the last one, or with an exception. */
  datatype FetchEnd = Cut | Last | Broken

  /** What was done for one input that is dealt with. */
  datatype Block = Refused(input: Input) | Raising(input: Input) | Served(input: Input, rows: nat, end: FetchEnd)

  /** What was done for the input in progress, if there is one. */
  datatype Tail = Nothing | Started(input: Input, rows: nat, end: FetchEnd)

  function Fetches(n: nat): (r: seq<Call>)
    ensures |r| == n && forall k :: 0 <= k < n ==> r[k] == FetchMore
  {
    seq(n, _ => FetchMore)
  }

  function EndCalls(end: FetchEnd): (r: seq<Call>) {
    match end
    case Cut => []
    case Last => [FetchLast]
    case Broken => [FetchThrew]
  }

  function TailCalls(t: Tail): (r: seq<Call>) {
    match t
    case Nothing => []
    case Started(input, rows, end) => [OpenOk(input)] + Fetches(rows) + EndCalls(end)
  }

  function BlockCalls(b: Block): (r: seq<Call>) {
    match b
    case Refused(input) => [OpenFailed(input)]
    case Raising(input) => [OpenThrew(input)]
    case Served(input, rows, end) => [OpenOk(input)] + Fetches(rows) + EndCalls(end) + [CloseDone]
  }

  function AllCalls(blocks: seq<Block>): (r: seq<Call>) {
    if blocks == [] then [] else AllCalls(blocks[..|blocks| - 1]) + BlockCalls(blocks[|blocks| - 1])
  }

  /** The protocol state the shape stands for. */
  function StateOf(t: Tail): (s: Protocol) {
    match t
    case Nothing => Idle
    case Started(_, _, end) => if end == Cut then Opened else Drained
  }

  lemma AfterNext(calls: seq<Call>, call: Call)
    ensures After(calls + [call]) == Advance(After(calls), call)
  {
    assert (calls + [call])[..|calls|] == calls;
  }

  /** Every call sequence that keeps the protocol has this shape. */
  lemma {:induction false} KeptHasShape(calls: seq<Call>) returns (blocks: seq<Block>, t: Tail)
    requires After(calls) != Violated
    ensures calls == AllCalls(blocks) + TailCalls(t) && After(calls) == StateOf(t)
  {
    if calls == [] {
      blocks, t := [], Nothing;
    } else {
      var rest, call := calls[..|calls| - 1], calls[|calls| - 1];
      assert calls == rest + [call];
      var u;
      blocks, u := KeptHasShape(rest);
      blocks, t := OneMoreCall(blocks, u, call);
      assert rest + [call] == AllCalls(blocks) + TailCalls(t);
    }
  }

  lemma OneMoreCall(before: seq<Block>, u: Tail, call: Call) returns (blocks: seq<Block>, t: Tail)
    requires Advance(StateOf(u), call) != Violated
    ensures AllCalls(before) + TailCalls(u) + [call] == AllCalls(blocks) + TailCalls(t)
    ensures StateOf(t) == Advance(StateOf(u), call)
  {
    hide AllCalls, TailCalls, BlockCalls;
    var a := AllCalls(before);
    assert a + TailCalls(u) + [call] == a + (TailCalls(u) + [call]);
    if Advance(StateOf(u), call) == Idle {
      var block := BlockEnds(u, call);
      OneMoreBlock(before, block);
      blocks, t := before + [block], Nothing;
      NothingCalled(AllCalls(blocks));
    } else {
      blocks := before;
      t := TailGrows(u, call);
    }
  }

  lemma OneMoreBlock(before: seq<Block>, block: Block)
    ensures AllCalls(before + [block]) == AllCalls(before) + BlockCalls(block)
  {
    assert (before + [block])[..|before|] == before;
  }

  lemma NothingCalled(calls: seq<Call>)
    ensures calls + TailCalls(Nothing) == calls
  {
  }

  lemma BlockEnds(u: Tail, call: Call) returns (block: Block)
    requires Advance(StateOf(u), call) == Idle
    ensures BlockCalls(block) == TailCalls(u) + [call]
  {
    block := if call.OpenFailed? then Refused(call.input)
             else if call.OpenThrew? then Raising(call.input)
             else Served(u.input, u.rows, u.end);
  }

  lemma TailGrows(u: Tail, call: Call) returns (t: Tail)
    requires Advance(StateOf(u), call) == Opened || Advance(StateOf(u), call) == Drained
    ensures TailCalls(t) == TailCalls(u) + [call] && StateOf(t) == Advance(StateOf(u), call)
  {
    if call.OpenOk? {
      t := Started(call.input, 0, Cut);
    } else if call == FetchMore {
      t := Started(u.input, u.rows + 1, Cut);
      assert Fetches(u.rows + 1) == Fetches(u.rows) + [FetchMore];
    } else {
      t := Started(u.input, u.rows, if call == FetchLast then Last else Broken);
    }
  }

  lemma {:induction false} FetchesKeep(calls: seq<Call>, n: nat)
    requires After(calls) == Opened
    ensures After(calls + Fetches(n)) == Opened
  {
    if n == 0 {
      assert calls + Fetches(0) == calls;
    } else {
      FetchesKeep(calls, n - 1);
      assert calls + Fetches(n) == calls + Fetches(n - 1) + [FetchMore];
      AfterNext(calls + Fetches(n - 1), FetchMore);
    }
  }

  lemma StartedKeeps(calls: seq<Call>, t: Tail)
    requires After(calls) == Idle
    ensures After(calls + TailCalls(t)) == StateOf(t)
  {
    if t == Nothing {
      assert calls + TailCalls(t) == calls;
    } else {
      AfterNext(calls, OpenOk(t.input));
      var started := calls + [OpenOk(t.input)];
      FetchesKeep(started, t.rows);
      var fetched := started + Fetches(t.rows);
      assert calls + TailCalls(t) == fetched + EndCalls(t.end);
      if t.end == Cut {
        assert fetched + EndCalls(t.end) == fetched;
      } else {
        AfterNext(fetched, EndCalls(t.end)[0]);
      }
    }
  }

  lemma BlockKeeps(calls: seq<Call>, b: Block)
    requires After(calls) == Idle
    ensures After(calls + BlockCalls(b)) == Idle
  {
    hide After;
    if b.Served? {
      var t := Started(b.input, b.rows, b.end);
      StartedKeeps(calls, t);
      assert calls + BlockCalls(b) == calls + TailCalls(t) + [CloseDone];
      AfterNext(calls + TailCalls(t), CloseDone);
    } else {
      AfterNext(calls, BlockCalls(b)[0]);
    }
  }

  lemma {:induction false} BlocksKeep(blocks: seq<Block>)
    ensures After(AllCalls(blocks)) == Idle
  {
    hide BlockCalls, Advance;
    if blocks != [] {
      BlocksKeep(blocks[..|blocks| - 1]);
      BlockKeeps(AllCalls(blocks[..|blocks| - 1]), blocks[|blocks| - 1]);
    }
  }

  /** The protocol is kept, with the given state, exactly by the calls of this shape. */
  lemma KeptIffShape(calls: seq<Call>, s: Protocol)
    requires s != Violated
    ensures After(calls) == s <==> exists blocks, t :: calls == AllCalls(blocks) + TailCalls(t) && StateOf(t) == s
  {
    if After(calls) == s {
      var blocks, t := KeptHasShape(calls);
    }
    forall blocks, t | calls == AllCalls(blocks) + TailCalls(t)
      ensures After(calls) == StateOf(t)
    {
      BlocksKeep(blocks);
      StartedKeeps(AllCalls(blocks), t);
    }
  }
}
