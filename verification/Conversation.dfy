/** Whole conversations over one connection: how far a request gets with the buffers it is given, and how
    requests disturb each other through the diagnostics area they share. */
module Conversation {
  import opened StoredProcedure
  import opened UnbufferedRun
  import opened PagedReply
  import opened PagedStatement
  import opened Paging
  import opened CompilerContext
  import opened Connection

  // What is left in the diagnostics area shows.

  /** A procedure that does nothing. */
  function Idler(): (p: Procedure<int>) {
    Procedure((action, input, env) => Reply(false, SpSuccess, [0, 0, 0, 0, 0], env), 0)
  }

  /** A procedure that cannot be opened, and leaves a code in the diagnostics area. */
  function Refuser(code: Code): (p: Procedure<int>) {
    Procedure((action, input, env: Env<int>) => Reply(false, SpFail, [0, 0, 0, 0, 0], env.(context := [code])), 0)
  }

  /** The output of the first `k` calls for a request that finds `d` in the diagnostics area. */
  ghost function Output(p: Procedure<int>, handle: int, inputs: seq<Input>, d: Diags, k: nat): (r: seq<Item>) {
    var r := RunFor(Machine(p), Start(p, handle, inputs, d), k);
    if r.Ran? then r.items else []
  }

  lemma IdlerRuns(handle: int, input: Input, d: Diags)
    ensures var p := Idler(); var r := RunFor(Machine(p), Start(p, handle, [input], d), 3);
            r.Ran? && r.items == EndItems(input.control, d) && Step(p, r.conf) == Finished
  {
    hide EndItems;
    var p := Idler();
    var c := Start(p, handle, [input], d);
    var one := Step(p, c);
    assert RunFor(Machine(p), c, 1) == Ran([], [OpenOk(input)], one.next);
    var two := Step(p, one.next);
    assert [] + d == d;
    assert two.next.diags == d;
    assert RunFor(Machine(p), c, 2) == Ran([], [OpenOk(input), FetchLast], two.next);
    var three := Step(p, two.next);
    assert three.items == EndItems(input.control, d);
  }

  /** A new request gets the output it would get alone, whatever its procedure is and however far it runs,
      exactly when it finds the diagnostics area empty. */
  lemma AloneIffAreaEmpty(d: Diags)
    ensures (forall p, handle, inputs, k :: Output(p, handle, inputs, d, k) == Output(p, handle, inputs, [], k)) <==>
      d == []
  {
    if d != [] {
      var input := Input(0, []);
      IdlerRuns(0, input, d);
      IdlerRuns(0, input, []);
      assert Output(Idler(), 0, [input], d, 3) == EndItems(0, d);
      assert Output(Idler(), 0, [input], [], 3) == EndItems(0, []);
      assert EndItems(0, d)[0].diags == d;
    }
  }

  lemma RefuserRuns(handle: int, input: Input, code: Code)
    ensures var p := Refuser(code); var r := RunFor(Machine(p), Start(p, handle, [input], []), 1);
            && r.Ran? && |r.items| == 2 && Step(p, r.conf) == Finished
            && r.conf.phase == Between && r.conf.env.context == [code]
  {
    var p := Refuser(code);
    var c := Start(p, handle, [input], []);
    var one := Step(p, c);
    assert RunFor(Machine(p), c, 0) == Ran([], [], c);
    assert RunFor(Machine(p), c, 1) == Extend(Ran([], [], c), one);
    assert ErrorDiags([0, 0, 0, 0, 0]) == [ERROR_NO_SP_ERROR];
    assert ERROR_NO_SP_ERROR in [ERROR_NO_SP_ERROR];
  }

  /** A reply buffer with room for a number of items, whatever they are. */
  function Slots(n: nat): (b: Buffer) {
    Buffer(n, (contents, item) => true)
  }

  /** Without room for anything, the refused request stays in progress and its code in the diagnostics area. */
  lemma RefusedRequestWaits(a: StatementISP<int>, input: Input, code: Code, reply: seq<Item>, areMore: bool,
    raised: bool)
    requires a.Valid() && a.Rooted() && a.intact && !a.aborted && a.sp.procedure == Refuser(code)
    requires a.origin == Start(Refuser(code), 0, [input], []) && a.Answered([], Slots(0), reply, areMore, raised)
    ensures a.MoreData() && a.left == [code] && a.sent == []
  {
    hide Orderly, After, Start;
    var p, start := Refuser(code), a.origin;
    PackedIsBounded(Slots(0), reply);
    RefuserRuns(0, input, code);
    SentIsPrefix(a, 1);
    assert RunFor(Machine(p), start, 0) == Ran([], [], start);
    FinalRunIsLongest(Machine(p), start, a.steps, 1);
    assert a.steps == 1;
  }

  /** With room enough, the idle request is answered with what it found in the diagnostics area. */
  lemma IdleRequestIsAnswered(b: StatementISP<int>, input: Input, d: Diags, reply: seq<Item>, areMore: bool,
    raised: bool)
    requires b.Valid() && b.Rooted() && b.intact && !b.aborted && b.sp.procedure == Idler()
    requires b.origin == Start(Idler(), 0, [input], d) && b.Answered([], Slots(3), reply, areMore, raised)
    ensures !b.MoreData() && b.sent == EndItems(input.control, d)
  {
    hide StatementISP.Valid, StatementISP.Rooted, Idler, Start, EndItems, RunFor, Step;
    IdlerRuns(0, input, d);
    SentIsPrefix(b, 3);
    TwoFinalRuns(Idler(), b.origin, b.steps, b.history, 3, RunFor(Machine(Idler()), b.origin, 3));
    assert |b.sent| <= |EndItems(input.control, d)| <= 2;
  }

  /** A refused request without room for its end leaves its code. */
  method LeaveCode(c: ExCmpMessage<int>, code: Code) returns (ghost a: StatementISP<int>, ghost s: Statement<int>)
    requires c.Valid() && c.book.holder.Keys == {} && c.context.area.diags == []
    modifies c, c.context, c.context.Objects()`prv, c.context.area
    ensures c.Valid() && a in c.book.served && c.book.holder.Keys == {a} && c.context.area.diags == [code]
    ensures a.id == 1 && a.sp.procedure == Refuser(code) && a.sent == []
    ensures c.book.parts == old(c.book.parts) + Repr(a)
    ensures fresh(Repr(a)) && fresh(s) && c.context.Objects() <= old(c.context.Objects()) + {s}
  {
    hide ExCmpMessage.Valid, StatementISP.Valid, StatementISP.Rooted, StatementISP.Answered, Start, RunFor, Refuser,
      Slots, Context.Objects;
    var reply, areMore, raised;
    reply, areMore, raised, a, s := c.OnRequest(1, Refuser(code), 0, [Input(1, [])], Slots(0));
    RequestHasItsRun(c, a);
    RefusedRequestWaits(a, Input(1, []), code, reply, areMore, raised);
  }

  /** A request with room for everything is sent what it finds in the diagnostics area. */
  method FindLeftover(c: ExCmpMessage<int>, ghost a: StatementISP<int>)
    returns (ghost b: StatementISP<int>, ghost s: Statement<int>)
    requires c.Valid() && a in c.book.holder && a in c.book.served
    modifies c, c.context, c.context.Objects()`prv, c.context.area
    ensures c.Valid() && a in c.book.holder && b in c.book.served && c.book.holder.Keys == old(c.book.holder.Keys)
    ensures b.sp.procedure == Idler() && b.sent == EndItems(2, old(c.context.area.diags))
    ensures unchanged(Repr(a)) && a in c.book.served && c.book.parts == old(c.book.parts) + Repr(b)
    ensures fresh(Repr(b)) && fresh(s) && c.context.Objects() <= old(c.context.Objects()) + {s}
  {
    hide ExCmpMessage.Valid, StatementISP.Valid, StatementISP.Rooted, StatementISP.Answered, Start, RunFor, EndItems,
      Idler, Slots, Context.Objects;
    RequestHasItsRun(c, a);
    RequestsAreApart(c, a);
    var reply, areMore, raised;
    reply, areMore, raised, b, s := c.OnRequest(2, Idler(), 0, [Input(2, [])], Slots(3));
    RequestHasItsRun(c, b);
    IdleRequestIsAnswered(b, Input(2, []), old(c.context.area.diags), reply, areMore, raised);
  }

  /** A request in progress is given up at its next message if an ordinary message left something. */
  method LoseRequest(c: ExCmpMessage<int>, ghost a: StatementISP<int>, left: Diags)
    requires c.Valid() && a in c.book.holder && left != []
    requires forall q :: q in c.book.holder && q.id == 1 ==> q == a
    requires a.id == 1
    modifies c, c.context, c.context.Objects()`prv, c.context.area, c.book.parts
    ensures c.Valid() && c.book.served == old(c.book.served) && a.aborted && a.sent == old(a.sent)
    ensures forall q :: q in c.book.served && q != a ==> unchanged(q, q.sp, q.input, q.output)
  {
    hide ExCmpMessage.Valid, StatementISP.Valid, StatementISP.Rooted;
    c.OnCompile(left);
    var reply, areMore, raised;
    ghost var r;
    reply, areMore, raised, r := c.OnGetNext(1, Slots(3));
  }

  /** Two requests and an ordinary message that leave something in the diagnostics area. The second request is
      sent the code of the first one, which it would not be sent alone; and the first request, which is still
      in progress, is given up at its next message. */
  method LeakingInterleaving(code: Code)
    returns (c: ExCmpMessage<int>, ghost a: StatementISP<int>, ghost b: StatementISP<int>)
    ensures c.Valid() && a in c.book.served && b in c.book.served
    ensures b.sp.procedure == Idler() && b.sent == EndItems(2, [code])
    ensures Output(Idler(), 0, [Input(2, [])], [], 3) == EndItems(2, []) != b.sent
    ensures a.sp.procedure == Refuser(code) && a.aborted && a.sent == []
    ensures Output(Refuser(code), 0, [Input(1, [])], [], 1) != a.sent
  {
    hide ExCmpMessage.Valid, Idler, Refuser, Output;
    c := new ExCmpMessage();
    ghost var s;
    a, s := LeaveCode(c, code);
    b, s := FindLeftover(c, a);
    LoseRequest(c, a, [code]);
    AloneOutputs(code);
  }

  lemma AloneOutputs(code: Code)
    ensures Output(Idler(), 0, [Input(2, [])], [], 3) == EndItems(2, []) != EndItems(2, [code])
    ensures Output(Refuser(code), 0, [Input(1, [])], [], 1) != []
  {
    hide RunFor;
    IdlerRuns(0, Input(2, []), []);
    RefuserRuns(0, Input(1, []), code);
    assert EndItems(2, [code])[0].diags == [code];
  }

  // How far a request gets.

  function Concat(replies: seq<seq<Item>>): (items: seq<Item>) {
    if replies == [] then [] else Concat(replies[..|replies| - 1]) + replies[|replies| - 1]
  }

  /** Buffer number `i` can hold any single item that the run emits, except for the first `i` ones. */
  ghost predicate Roomy<S>(spaces: seq<Buffer>, p: Procedure<S>, start: Conf<S>) {
    forall i, k, j ::
      (0 <= i < |spaces| && RunFor(Machine(p), start, k).Ran? && i <= j < |RunFor(Machine(p), start, k).items|) ==>
      Fits(spaces[i], [], RunFor(Machine(p), start, k).items[j])
  }

  /** The run leaves nothing in the diagnostics area when it has dealt with an input. */
  ghost predicate Clean<S>(p: Procedure<S>, start: Conf<S>) {
    forall k :: RunFor(Machine(p), start, k).Ran? && RunFor(Machine(p), start, k).conf.phase == Between ==>
      RunFor(Machine(p), start, k).conf.env.context == []
  }

  /** What is pending comes next in the run, and only the end of an input leaves something behind. */
  lemma PendingIsEmitted<S>(r: StatementISP<S>)
    requires r.Valid() && r.Rooted() && r.intact && r.MoreData()
    ensures var run := RunFor(Machine(r.sp.procedure), r.origin, r.steps);
            && run.Ran? && run.items == r.sent + r.output.Pending() && r.output.Pending() != []
            && run.conf.env.context == r.left && (r.left != [] ==> run.conf.phase == Between)
  {
    hide Orderly, After, RunFor, EndItems;
  }

  /** So if enough was sent before, the next buffer can hold it. */
  lemma NextFits<S>(r: StatementISP<S>, spaces: seq<Buffer>, i: nat)
    requires r.Valid() && r.Rooted() && r.intact && r.MoreData()
    requires i < |spaces| && i <= |r.sent| && Roomy(spaces, r.sp.procedure, r.origin)
    ensures r.output.Pending() != [] && Fits(spaces[i], [], r.output.Pending()[0])
  {
    hide StatementISP.Valid, StatementISP.Rooted, RunFor, Fits;
    PendingIsEmitted(r);
    var run := RunFor(Machine(r.sp.procedure), r.origin, r.steps);
    assert run.items[|r.sent|] == r.output.Pending()[0];
  }

  /** A connection with one request, which runs from `start`. */
  ghost predicate Standing<S>(c: ExCmpMessage<S>, r: StatementISP<S>, start: Conf<S>, areMore: bool, raised: bool)
    reads c, c.context, c.context.Objects(), c.context.area, c.book.parts, Repr(r)
  {
    && c.Valid() && r in c.book.served && r.id == 0 && r.origin == start
    && r.Valid() && r.Rooted() && r.intact && raised == r.exceptionRaised && (!raised ==> areMore == r.MoreData())
    && (!raised && areMore ==> c.book.holder.Keys == {r} && c.context.area.diags == r.left)
  }

  lemma StandingFacts<S>(c: ExCmpMessage<S>, r: StatementISP<S>, start: Conf<S>, areMore: bool, raised: bool)
    requires Standing(c, r, start, areMore, raised)
    ensures r.Valid() && r.Rooted() && r.intact && r.origin == start
    ensures r.exceptionRaised == raised && (r.MoreData() <==> areMore && !raised)
  {
    hide ExCmpMessage.Valid, StatementISP.Valid, StatementISP.Rooted;
  }

  /** The request itself. */
  method Begin<S>(c: ExCmpMessage<S>, procedure: Procedure<S>, handle: S, rows: seq<Input>, space: Buffer)
    returns (reply: seq<Item>, areMore: bool, raised: bool, ghost r: StatementISP<S>, ghost s: Statement<S>)
    requires c.Valid() && c.book.holder.Keys == {} && c.context.area.diags == []
    modifies c, c.context, c.context.Objects()`prv, c.context.area
    ensures Standing(c, r, Start(procedure, handle, rows, []), areMore, raised) && r.sp.procedure == procedure
    ensures fresh(Repr(r)) && c.book.parts == old(c.book.parts) + Repr(r)
    ensures fresh(s) && c.context.Objects() <= old(c.context.Objects()) + {s}
    ensures r.sent == reply && !r.aborted && r.Answered([], space, reply, areMore, raised)
  {
    hide ExCmpMessage.Valid, StatementISP.Valid, StatementISP.Rooted, RunFor, Start;
    reply, areMore, raised, r, s := c.OnRequest(0, procedure, handle, rows, space);
    RequestHasItsRun(c, r);
  }

  /** One more message. */
  method Ask<S>(c: ExCmpMessage<S>, ghost r: StatementISP<S>, ghost start: Conf<S>, space: Buffer)
    returns (reply: seq<Item>, areMore: bool, raised: bool)
    requires Standing(c, r, start, true, false) && !r.aborted
    modifies c, c.context, c.context.Objects()`prv, c.context.area, c.book.parts
    ensures Standing(c, r, start, areMore, raised) && c.book.parts == old(c.book.parts)
    ensures c.context.Objects() <= old(c.context.Objects())
    ensures r.sent == old(r.sent) + reply
    ensures !raised ==> Sends(old(r.output.Pending()), space, reply)
    ensures r.aborted == (old(r.left) != []) && (r.aborted ==> raised && !Clean(r.sp.procedure, start))
  {
    hide ExCmpMessage.Valid, StatementISP.Valid, StatementISP.Rooted, RunFor, Sends;
    PendingIsEmitted(r);
    ghost var q;
    reply, areMore, raised, q := c.OnGetNext(0, space);
    RequestHasItsRun(c, r);
  }

  /** The message just answered has sent something, if its buffer and those before were large enough. */
  lemma FirstSends<S>(c: ExCmpMessage<S>, r: StatementISP<S>, start: Conf<S>, reply: seq<Item>, areMore: bool,
    raised: bool,
                      spaces: seq<Buffer>)
    requires Standing(c, r, start, areMore, raised) && spaces != [] && r.Answered([], spaces[0], reply, areMore, raised)
    requires Roomy(spaces, r.sp.procedure, start) && areMore && !raised
    ensures reply != []
  {
    hide ExCmpMessage.Valid, StatementISP.Valid, StatementISP.Rooted, Roomy, Fits;
    NextFits(r, spaces, 0);
  }

  lemma StandingFits<S>(c: ExCmpMessage<S>, r: StatementISP<S>, start: Conf<S>, spaces: seq<Buffer>, i: nat)
    requires Standing(c, r, start, true, false) && i < |spaces| && i <= |r.sent| && Roomy(spaces, r.sp.procedure, start)
    ensures r.output.Pending() != [] && Fits(spaces[i], [], r.output.Pending()[0])
  {
    hide ExCmpMessage.Valid, StatementISP.Valid, StatementISP.Rooted, Roomy, Fits;
    NextFits(r, spaces, i);
  }

  /** The executor's side of a request: it sends the request, and then one GetNext after the other
      until there is no more, as long as it has buffers. The replies are all that was sent, a prefix of the
      unbuffered output; if the buffer of every message can hold any single item still to come, every message
      sends something; and the request is given up only if its run leaves something in the diagnostics area. */
  method Converse<S>(procedure: Procedure<S>, handle: S, rows: seq<Input>, spaces: seq<Buffer>)
    returns (ghost r: StatementISP<S>, replies: seq<seq<Item>>)
    requires spaces != []
    ensures r.Valid() && r.Rooted() && r.intact && r.sp.procedure == procedure &&
      r.origin == Start(procedure, handle, rows, [])
    ensures r.sent == Concat(replies) && 1 <= |replies| <= |spaces|
    ensures r.MoreData() ==> |replies| == |spaces|
    ensures Roomy(spaces, procedure, r.origin) && !r.exceptionRaised ==>
      |replies| <= |r.sent| || (|replies| == 1 && !r.MoreData())
    ensures r.aborted ==> !Clean(procedure, r.origin)
  {
    hide Standing, ExCmpMessage.Valid, StatementISP.Valid, StatementISP.Rooted, StatementISP.MoreData, Start, Roomy,
      Clean, Repr;
    var c := new ExCmpMessage();
    ghost var start := Start(procedure, handle, rows, []);
    var reply, areMore, raised;
    ghost var s;
    reply, areMore, raised, r, s := Begin(c, procedure, handle, rows, spaces[0]);
    replies := [reply];
    assert replies[..0] == [];
    ghost var roomy := Roomy(spaces, procedure, start);
    if roomy && areMore && !raised {
      FirstSends(c, r, start, reply, areMore, raised, spaces);
    }
    while areMore && !raised && |replies| < |spaces|
      invariant Standing(c, r, start, areMore, raised)
      invariant fresh(c) && fresh(c.context) && fresh(c.context.area) && fresh(c.context.Objects()) &&
        fresh(c.book.parts)
      invariant r.sent == Concat(replies) && 1 <= |replies| <= |spaces|
      invariant roomy && !raised ==> |replies| <= |r.sent| || (|replies| == 1 && !areMore)
      invariant r.aborted ==> raised && !Clean(procedure, start)
    {
      if roomy {
        StandingFits(c, r, start, spaces, |replies|);
      }
      ghost var before := replies;
      reply, areMore, raised := Ask(c, r, start, spaces[|replies|]);
      replies := replies + [reply];
      assert replies[..|replies| - 1] == before;
    }
    StandingFacts(c, r, start, areMore, raised);
  }

  /** Buffer number `i` can hold any single one of the items, except for the first `i` ones. */
  ghost predicate HoldsEach(spaces: seq<Buffer>, items: seq<Item>) {
    forall i, j :: 0 <= i < |spaces| && i <= j < |items| ==> Fits(spaces[i], [], items[j])
  }

  lemma RoomyForWhole<S>(spaces: seq<Buffer>, p: Procedure<S>, start: Conf<S>, counts: seq<nat>)
    requires start.phase == Between && start.diags == [] && |counts| == |start.inputs|
    requires AnswersAll(p, start.env, start.inputs, counts)
    requires HoldsEach(spaces, WholeOutput(p, start.env, start.inputs, counts))
    ensures Roomy(spaces, p, start)
  {
    hide AnswersAll, WholeOutput, RunFor, Step, Fits;
    var n, final := WholeOutputRuns(p, start, counts);
    forall i, k, j |
      0 <= i < |spaces| && RunFor(Machine(p), start, k).Ran? && i <= j < |RunFor(Machine(p), start, k).items|
      ensures Fits(spaces[i], [], RunFor(Machine(p), start, k).items[j])
    {
      FinalRunIsLongest(Machine(p), start, k, n);
      assert RunFor(Machine(p), start, k).items[j] == final.items[j];
    }
  }

  /** A procedure that stops and leaves nothing in the diagnostics area is served completely, within as many
      messages as its output has items, or one, if the buffer of every message can hold any single item that is still
      to come. */
  method ConverseToEnd<S>(procedure: Procedure<S>, handle: S, rows: seq<Input>, spaces: seq<Buffer>,
    ghost counts: seq<nat>)
    returns (replies: seq<seq<Item>>)
    requires |counts| == |rows| && AnswersAll(procedure, Start(procedure, handle, rows, []).env, rows, counts)
    requires Clean(procedure, Start(procedure, handle, rows, []))
    requires HoldsEach(spaces, WholeOutput(procedure, Start(procedure, handle, rows, []).env, rows, counts))
    requires spaces != [] && |spaces| >= |WholeOutput(procedure, Start(procedure, handle, rows, []).env, rows, counts)|
    ensures
      var whole := WholeOutput(procedure, Start(procedure, handle, rows, []).env, rows, counts);
      Concat(replies) == whole && (|replies| == 1 || |replies| <= |whole|)
  {
    hide AnswersAll, WholeOutput, RunFor, Roomy, HoldsEach, Clean, StatementISP.Valid;
    ghost var r;
    r, replies := Converse(procedure, handle, rows, spaces);
    RoomyForWhole(spaces, procedure, r.origin, counts);
    RepliesAreWholeOutput(r, counts);
  }

  // Leaving nothing is the exact condition: otherwise some buffer cuts the conversation short.

  lemma StepEndsInput<S>(p: Procedure<S>, c: Conf<S>)
    requires Step(p, c).Stepped? && Step(p, c).next.phase == Between
    ensures var items := Step(p, c).items; items != [] && items[|items| - 1].EndItem?
  {
    hide EndItems, ErrorDiags;
  }

  lemma BetweenEndsInput<S>(p: Procedure<S>, c: Conf<S>, k: nat)
    requires k > 0 && RunFor(Machine(p), c, k).Ran? && RunFor(Machine(p), c, k).conf.phase == Between
    ensures var before, items := RunFor(Machine(p), c, k - 1), RunFor(Machine(p), c, k).items;
            before.Ran? && |before.items| < |items| && before.items <= items && items[|items| - 1].EndItem?
  {
    hide Step;
    var before := RunFor(Machine(p), c, k - 1);
    var s := Step(p, before.conf);
    StepEndsInput(p, before.conf);
    assert RunFor(Machine(p), c, k).items == before.items + s.items;
  }

  /** With room for all but the last of the items the run has emitted when it leaves something, the statement
      stops just there. */
  lemma StopsWhereLeft<S>(r: StatementISP<S>, k: nat, n: nat, reply: seq<Item>, areMore: bool, raised: bool)
    requires r.Valid() && r.Rooted() && r.intact && !r.aborted && r.origin.env.context == []
    requires r.Answered([], Slots(n), reply, areMore, raised)
    requires var run := RunFor(Machine(r.sp.procedure), r.origin, k);
             run.Ran? && run.conf.phase == Between && run.conf.env.context != [] && |run.items| == n + 1
    ensures !raised && areMore && r.left != []
  {
    hide StatementISP.Valid, StatementISP.Rooted, RunFor, Step;
    PackedIsBounded(Slots(n), reply);
    LostIsBounded(r);
    SentIsPrefix(r, k);
    PendingIsEmitted(r);
    PendingEndsHistory(r);
    assert k > 0 by {
      StartIsEmpty(Machine(r.sp.procedure), r.origin);
    }
    OneStopOnly(r.sp.procedure, r.origin, r.steps, k, r.sent, r.output.Pending());
  }

  /** What an exception loses was in one reply. */
  lemma LostIsBounded<S>(r: StatementISP<S>)
    requires r.Valid() && !r.aborted
    ensures r.exceptionRaised ==> |r.history.items| <= |r.sent| + r.output.space.slots
  {
    hide Orderly, After, RunFor, Packed;
    PackedIsBounded(r.output.space, r.output.data);
  }

  lemma StartIsEmpty<S>(step: Conf<S> -> Progress<S>, c: Conf<S>)
    ensures RunFor(step, c, 0) == Ran([], [], c)
  {
  }

  /** Two prefixes of a run are the same if one has sent all but the last item of the other, which ends an input. */
  lemma OneStopOnly<S>(p: Procedure<S>, c: Conf<S>, j: nat, k: nat, sent: seq<Item>, pending: seq<Item>)
    requires k > 0 && RunFor(Machine(p), c, j).Ran? && RunFor(Machine(p), c, k).Ran?
    requires RunFor(Machine(p), c, k).conf.phase == Between && |RunFor(Machine(p), c, k).items| == |sent| + 1
    requires RunFor(Machine(p), c, j).items == sent + pending && pending != []
    requires pending[0].EndItem? ==> |pending| == 1 && RunFor(Machine(p), c, j).conf.phase == Between
    ensures j == k
  {
    hide RunFor, Step;
    BetweenEndsInput(p, c, k);
    if j < k {
      RunGrows(Machine(p), c, j, k - 1);
    } else {
      RunGrows(Machine(p), c, k, j);
      var items := RunFor(Machine(p), c, j).items;
      assert items[|sent|] == pending[0];
      NoLonger(p, c, j, k);
    }
  }

  lemma NoLonger<S>(p: Procedure<S>, c: Conf<S>, j: nat, k: nat)
    requires 0 < k <= j && RunFor(Machine(p), c, j).Ran? && RunFor(Machine(p), c, k).Ran?
    requires RunFor(Machine(p), c, j).conf.phase == Between
    requires |RunFor(Machine(p), c, j).items| == |RunFor(Machine(p), c, k).items|
    ensures j == k
  {
    hide RunFor, Step;
    if k < j {
      RunGrows(Machine(p), c, j - 1, j);
      RunGrows(Machine(p), c, k, j - 1);
      BetweenEndsInput(p, c, j);
    }
  }

  lemma PendingEndsHistory<S>(r: StatementISP<S>)
    requires r.Valid() && r.MoreData()
    ensures r.history.items == r.sent + r.output.Pending()
    ensures var pending := r.output.Pending();
            pending != [] && (pending[0].EndItem? ==> |pending| == 1 && r.history.conf.phase == Between)
  {
    hide Orderly, After, RunFor;
  }

  /** A procedure that leaves something in the diagnostics area after one of its inputs is given up in some
      conversation. */
  method GivenUpSomewhere<S>(procedure: Procedure<S>, handle: S, rows: seq<Input>, ghost k: nat, n: nat)
    returns (raised: bool, ghost r: StatementISP<S>)
    requires var run := RunFor(Machine(procedure), Start(procedure, handle, rows, []), k);
             run.Ran? && run.conf.phase == Between && run.conf.env.context != [] && |run.items| == n + 1
    ensures r.sp.procedure == procedure && r.origin == Start(procedure, handle, rows, []) && r.aborted && raised
  {
    hide RunFor, Slots, ExCmpMessage.Valid, StatementISP.Valid, StatementISP.Answered;
    var c := new ExCmpMessage();
    var reply, areMore;
    ghost var s;
    reply, areMore, raised, r, s := Begin(c, procedure, handle, rows, Slots(n));
    StopsWhereLeft(r, k, n, reply, areMore, raised);
    reply, areMore, raised := Ask(c, r, r.origin, Slots(0));
  }

  /** A refused request is given up, even alone, when its reply has room for its error but not for its end. */
  method RefusedRequestIsGivenUp(code: Code) returns (raised: bool, ghost r: StatementISP<int>)
    ensures r.sp.procedure == Refuser(code) && r.aborted && raised
  {
    hide RunFor, Refuser, Start;
    RefuserRuns(0, Input(1, []), code);
    raised, r := GivenUpSomewhere(Refuser(code), 0, [Input(1, [])], 1, 1);
  }
}
