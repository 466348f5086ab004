/** What paging guarantees to the executor: whatever the buffer sizes, the replies put together are
    the output of the unbuffered run. */
module Paging {
  import opened StoredProcedure
  import opened UnbufferedRun
  import opened PagedReply
  import opened PagedStatement

  /** After any message, what was sent is a prefix of what the history has emitted, also after an
      exception. Without one it is a proper prefix exactly if the statement says there is more; otherwise
      the run is finished, or it raises the exception itself. As long as nobody else touched the
      diagnostics area the history is the unbuffered run of the request, and when there is no more no
      longer run of it emits anything else. */
  lemma SentIsPrefix<S>(st: StatementISP<S>, k: nat)
    requires st.Valid() && st.Rooted()
    ensures
      var r := st.history;
      && r.Ran? && st.sent <= r.items
      && (st.intact ==> RunFor(Machine(st.sp.procedure), st.origin, st.steps) == r)
      && (st.MoreData() <==> !st.exceptionRaised && st.sent != r.items)
      && (st.MoreData() <==> !st.ReadyToDie())
      && (!st.MoreData() && !st.exceptionRaised ==> Step(st.sp.procedure, r.conf) == Finished)
      && (st.exceptionRaised && !st.aborted ==> Step(st.sp.procedure, r.conf) == Raised)
    ensures st.intact && !st.aborted && !st.MoreData() && RunFor(Machine(st.sp.procedure), st.origin, k).Ran? ==>
      RunFor(Machine(st.sp.procedure), st.origin, k).items <= st.history.items
  {
    hide Orderly, After, Start;
    assert st.sent + [] == st.sent;
    if st.intact && !st.aborted && !st.MoreData() && RunFor(Machine(st.sp.procedure), st.origin, k).Ran? {
      FinalRunIsLongest(st.machine, st.origin, k, st.steps);
    }
  }

  lemma TwoFinalRuns<S>(p: Procedure<S>, c: Conf<S>, j: nat, r: Run<S>, k: nat, final: Run<S>)
    requires RunFor(Machine(p), c, j) == r && r.Ran? && RunFor(Machine(p), c, k) == final && final.Ran?
    requires Step(p, final.conf) == Finished
    ensures r.items <= final.items
    ensures !Step(p, r.conf).Stepped? ==> r == final
  {
    FinalRunIsLongest(Machine(p), c, j, k);
    if !Step(p, r.conf).Stepped? {
      FinalRunIsLongest(Machine(p), c, k, j);
    }
  }

  /** For a procedure that stops, the statement never sees an exception of it, and its replies add up to
      the outputs of the inputs, one after the other: to a proper prefix of that while there is more,
      to all of it at the end. */
  lemma RepliesAreWholeOutput<S>(st: StatementISP<S>, counts: seq<nat>)
    requires st.Valid() && st.Rooted() && st.intact && !st.aborted && |counts| == |st.input.rows|
    requires AnswersAll(st.sp.procedure, st.origin.env, st.input.rows, counts)
    ensures !st.exceptionRaised
    ensures
      var whole := WholeOutput(st.sp.procedure, st.origin.env, st.input.rows, counts);
      st.sent <= whole && (st.MoreData() <==> st.sent != whole) && st.history.items <= whole
  {
    hide Orderly, After, StatementISP.Valid, AnswersAll, WholeOutput;
    var p, c := st.sp.procedure, st.origin;
    var k, r := WholeOutputRuns(p, c, counts);
    SentIsPrefix(st, k);
    TwoFinalRuns(p, c, st.steps, st.history, k, r);
  }

  lemma {:induction false} OpenedInputsJoin(a: seq<Call>, b: seq<Call>)
    ensures OpenedInputs(a + b) == OpenedInputs(a) + OpenedInputs(b)
  {
    if b == [] {
      assert a + b == a;
    } else {
      OpenedInputsJoin(a, b[..|b| - 1]);
      assert (a + b)[..|a + b| - 1] == a + b[..|b| - 1];
    }
  }

  /** In every run, with exceptions at any point, the calls keep OPEN FETCH* CLOSE, the inputs are opened
      once each and in order, and every OPEN that succeeded is closed exactly once, except for the input a
      pending row belongs to. */
  lemma CallsAreOrderly<S>(st: StatementISP<S>)
    requires st.Valid()
    ensures After(st.sp.calls) != Violated
    ensures Opens(st.sp.calls) == Closes(st.sp.calls) + if st.output.rowExist && !st.exceptionRaised then 1 else 0
    ensures OpenedInputs(st.sp.calls) <= st.input.rows
    ensures !st.exceptionRaised ==>
      OpenedInputs(st.sp.calls) + st.input.rows[st.input.position..] == st.input.rows
  {
    hide RunFor;
    ClosesMatchOpens(st.sp.calls);
    if st.exceptionRaised {
      var h := st.history;
      var ending := Ending(h.conf, st.aborted);
      OpenedInputsJoin(h.calls, ending);
      EndingOpens(h.conf, st.aborted);
      assert OpenedInputs(h.calls) + h.conf.inputs == st.input.rows;
    }
  }

  lemma EndingOpens<S>(c: Conf<S>, aborted: bool)
    ensures OpenedInputs(Ending(c, aborted)) <= c.inputs
  {
    assert OpenedInputs([FetchThrew]) == [] && OpenedInputs([CloseDone]) == [];
    OpenedInputsJoin([FetchThrew], [CloseDone]);
    assert [FetchThrew] + [CloseDone] == [FetchThrew, CloseDone];
  }

  /** The output of one input: `m` rows, then at most one item with errors, then the end mark, all
      carrying the control of that input. Warnings travel on the end mark, errors do not. */
  lemma AnswerShape<S>(p: Procedure<S>, env: Env<S>, input: Input, m: nat)
    ensures
      var items := Answer(p, env, input, m);
      var failed := p.call(Open, input, env).status == SpFail;
      var rows := if failed then 0 else m;
      var diags := FinalDiags(p, env, input, m);
      && rows <= |items|
      && (forall i :: 0 <= i < |items| ==> items[i].control == input.control)
      && (forall i :: 0 <= i < rows ==> items[i].RowItem?)
      && ((exists k :: 0 <= k < |diags| && diags[k] < 0) ==>
            items[rows..] == [ErrorItem(input.control, diags), EndItem(input.control, [])])
      && ((forall k :: 0 <= k < |diags| ==> diags[k] > 0) ==> items[rows..] == [EndItem(input.control, diags)])
  {
    RowsShape(p, input, p.call(Open, input, env).env, m);
    EndItemsAre(input.control, FinalDiags(p, env, input, m));
  }

  lemma {:induction false} RowsShape<S>(p: Procedure<S>, input: Input, env: Env<S>, m: nat)
    ensures
      var rows := Rows(p, input, env, m);
      && |rows| == m
      && (forall i :: 0 <= i < m ==> rows[i] == RowItem(input.control, FetchReply(p, input, env, i).env.row))
  {
    if m > 0 {
      RowsShape(p, input, env, m - 1);
    }
  }
}
