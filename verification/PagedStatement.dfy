/** The stored procedure interface object and the statement that drives it, message by message. */
module PagedStatement {
  import opened StoredProcedure
  import opened UnbufferedRun
  import opened PagedReply

  /** The diagnostics area of the compiler context. All statements share it. */
  class DiagsArea {
    var diags: Diags

    constructor ()
      ensures diags == []
    {
      diags := [];
    }
  }

  /** The interface to one procedure for one request. `calls` records the calls made. */
  class InternalSP<S> {
    const procedure: Procedure<S>
    const input: InputData
    const output: ReplyData
    const area: DiagsArea
    var handle: S
    var state: InterfaceState
    ghost var calls: seq<Call>

    constructor (procedure: Procedure<S>, handle: S, input: InputData, output: ReplyData, area: DiagsArea)
      ensures this.procedure == procedure && this.handle == handle
      ensures this.input == input && this.output == output && this.area == area
      ensures state == NONE && calls == []
    {
      this.procedure, this.handle, this.input, this.output := procedure, handle, input, output;
      this.area, state, calls := area, NONE, [];
    }

    /** The calls keep the protocol, and the interface state says whether an input is open. */
    ghost predicate Valid()
      reads this
    {
      After(calls) != Violated && (state == NONE <==> After(calls) == Idle)
    }

    ghost function View(): (e: Env<S>)
      reads this, output, area
    {
      Env(handle, output.rowBuffer, area.diags)
    }

    method Call(action: Action) returns (r: Reply<S>)
      modifies this`handle, area, output`rowBuffer
      ensures r == procedure.call(action, input.current, old(View())) && View() == r.env
    {
      r := procedure.call(action, input.current, Env(handle, output.rowBuffer, area.diags));
      handle, output.rowBuffer, area.diags := r.env.handle, r.env.row, r.env.context;
    }

    ghost method Record(call: Call)
      modifies this`calls
      ensures calls == old(calls) + [call] && After(calls) == Advance(After(old(calls)), call)
    {
      calls := calls + [call];
      assert calls[..|calls| - 1] == old(calls);
    }

    method Open() returns (status: ExecStatus)
      requires Valid() && state == NONE && output.Valid()
      modifies this, area, output`rowBuffer, output`diags, output`diagsExist, output`eorExist
      ensures Valid() && output.Valid() && (status == SUCCESS ==> After(calls) == Opened)
      ensures
        var r := procedure.call(StoredProcedure.Open, input.current, old(View()));
        && View() == r.env
        && calls == old(calls) + [if r.threw then OpenThrew(input.current)
                                  else if r.status == SpFail then OpenFailed(input.current)
                                  else OpenOk(input.current)]
        && status == (if r.threw then EXCEPTION else if r.status == SpFail then FAIL else SUCCESS)
        && state == (if status == SUCCESS then PROCESS else NONE)
        && output.diags == (if !r.threw &&
          (r.status == SpFail || r.status == SpSuccessWarning) then ErrorDiags(r.errors)
                            else old(output.diags))
    {
      hide ErrorDiags, After;
      var r := Call(StoredProcedure.Open);
      Record(if r.threw then OpenThrew(input.current)
             else if r.status == SpFail then OpenFailed(input.current)
             else OpenOk(input.current));
      if r.threw {
        return EXCEPTION;
      }
      if r.status == SpFail || r.status == SpSuccessWarning {
        output.MoveDiags(r.errors);
        if r.status == SpFail {
          return FAIL;
        }
      }
      state := PROCESS;
      status := SUCCESS;
    }

    method Fetch() returns (status: ExecStatus)
      requires Valid() && state == PROCESS && After(calls) == Opened && output.Valid()
      modifies this, area, output`rowBuffer, output`diags, output`diagsExist, output`eorExist
      ensures Valid() && output.Valid() && state == PROCESS && (status == MOREDATA ==> After(calls) == Opened)
      ensures
        var r := procedure.call(StoredProcedure.Fetch, input.current, old(View()));
        && calls == old(calls)
            + [if r.threw then FetchThrew else if r.status == SpMoreData then FetchMore else FetchLast]
        && status == (if r.threw then EXCEPTION
                      else match r.status case SpFail => FAIL case SpMoreData => MOREDATA case _ => SUCCESS)
        && (!r.threw ==>
              && View() == r.env.(context := [])
              && output.diags ==
                   (if r.status == SpFail then ErrorDiags(r.errors) else old(output.diags)) + r.env.context)
    {
      hide ErrorDiags, After;
      var r := Call(StoredProcedure.Fetch);
      Record(if r.threw then FetchThrew else if r.status == SpMoreData then FetchMore else FetchLast);
      if r.threw {
        return EXCEPTION;
      }
      if r.status == SpFail {
        output.MoveDiags(r.errors);
      }
      output.MergeDiags(area.diags);
      area.diags := [];
      status := match r.status case SpFail => FAIL case SpMoreData => MOREDATA case _ => SUCCESS;
    }

    method Close() returns (status: ExecStatus)
      requires Valid() && state == PROCESS && output.Valid()
      modifies this, area, output`rowBuffer, output`diags, output`diagsExist, output`eorExist
      ensures Valid() && output.Valid() && state == NONE && calls == old(calls) + [CloseDone]
      ensures
        var r := procedure.call(StoredProcedure.Close, input.current, old(View()));
        && View() == r.env
        && status == (if r.threw then EXCEPTION else if r.status != SpSuccess then FAIL else SUCCESS)
        && output.diags == (if !r.threw && r.status != SpSuccess then ErrorDiags(r.errors) else old(output.diags))
    {
      hide ErrorDiags, After;
      state := NONE;
      var r := Call(StoredProcedure.Close);
      Record(CloseDone);
      if r.threw {
        return EXCEPTION;
      }
      if r.status != SpSuccess {
        output.MoveDiags(r.errors);
        return FAIL;
      }
      status := SUCCESS;
    }

    /** What the diagnostics area holds after an input that may be open is closed: what the CLOSE left, and the
        diagnostics of the input. */
    ghost function Closed(context: Diags): (d: Diags)
      reads this, input, output
    {
      if state == NONE then context else
      var r := procedure.call(StoredProcedure.Close, input.current, Env(handle, output.rowBuffer, context));
      r.env.context + if !r.threw && r.status != SpSuccess then ErrorDiags(r.errors) else output.diags
    }

    lemma ClosedIs(context: Diags)
      ensures state == NONE ==> Closed(context) == context
      ensures state == PROCESS ==>
        var r := procedure.call(StoredProcedure.Close, input.current, Env(handle, output.rowBuffer, context));
        Closed(context) == r.env.context +
          if r.threw || r.status == SpSuccess then output.diags else ErrorDiags(r.errors)
    {
    }

    /** The destructor: an input that is still open is closed, once. */
    method Delete()
      requires Valid() && output.Valid()
      modifies this, area, output`rowBuffer, output`diags, output`diagsExist, output`eorExist
      ensures Valid() && output.Valid() && state == NONE
      ensures calls == if old(state) == PROCESS then old(calls) + [CloseDone] else old(calls)
      ensures Opens(calls) == Closes(calls)
      ensures old(state) == NONE ==> area.diags == old(area.diags)
      ensures old(state) == PROCESS ==>
        var r := procedure.call(StoredProcedure.Close, input.current, old(View()));
        area.diags == r.env.context +
                      if r.threw || r.status == SpSuccess then old(output.diags) else ErrorDiags(r.errors)
      ensures area.diags == old(Closed(area.diags))
    {
      if state == PROCESS {
        var _ := Close();
        area.diags := area.diags + output.diags;
      }
      ClosesMatchOpens(calls);
    }
  }

  /** What is left in the area when an exception is caught: an error, unless there is something already. */
  function Caught(diags: Diags): (r: Diags)
    ensures r != [] && (diags == [] ==> r == [-2006]) && (diags != [] ==> r == diags)
  {
    if diags == [] then [ERROR_ASSERT] else diags
  }

  /** The calls an exception adds to those of the run: the call that raised it, and the CLOSE of an input
      that was open. Without a raising call the statement was given up between two messages. */
  function Ending<S>(c: Conf<S>, aborted: bool): (calls: seq<Call>) {
    match c.phase
    case Between => if aborted || c.inputs == [] then [] else [OpenThrew(c.inputs[0])]
    case Fetching(_) => if aborted then [CloseDone] else [FetchThrew, CloseDone]
    case Closing(_) => [CloseDone]
  }

  /** A statement that answers one request and then any number of GetNext messages.

      The ghost fields record what happened. `machine` and `origin` are the unbuffered run of the request and
      its start; `history` is what was emitted and called so far and where that led, `steps` the number of
      calls. `sent` are all reply items sent so far, `left` is the diagnostics area as the last message left
      it. As long as every message found the area so, the statement is `intact`, and its history is that of
      the unbuffered run. It was `aborted` if it was given up between two messages. */
  class StatementISP<S> {
    const id: int
    const input: InputData
    const output: ReplyData
    const sp: InternalSP<S>
    var exceptionRaised: bool
    ghost const machine: Conf<S> -> Progress<S>
    ghost const origin: Conf<S>
    ghost var history: Run<S>
    ghost var steps: nat
    ghost var sent: seq<Item>
    ghost var left: Diags
    ghost var intact: bool
    ghost var aborted: bool

    constructor (id: int, procedure: Procedure<S>, handle: S, rows: seq<Input>, space: Buffer, area: DiagsArea)
      ensures this.id == id && sp.procedure == procedure && sp.area == area && Rooted()
      ensures origin == Start(procedure, handle, rows, area.diags)
      ensures fresh(input) && fresh(output) && fresh(sp)
      ensures Unstarted() && output.space == space
    {
      this.id, exceptionRaised := id, false;
      var i := new InputData(rows);
      var o := new ReplyData(i, procedure.rowLength, space);
      input, output := i, o;
      sp := new InternalSP(procedure, handle, i, o, area);
      var start := Start(procedure, handle, rows, area.diags);
      machine, origin, history, steps := Machine(procedure), start, Ran([], [], start), 0;
      sent, left, intact, aborted := [], area.diags, true, false;
      new;
      assert [] + rows == rows;
    }

    ghost predicate Consistent()
      reads this, input, output, sp
    {
      && output.input == input && sp.input == input && sp.output == output
      && output.rowLength == sp.procedure.rowLength
      && input.Valid() && output.Valid() && sp.Valid()
    }

    /** The history is that of the procedure, and starts with the request. */
    ghost predicate Rooted() {
      && machine == Machine(sp.procedure)
      && origin == Start(sp.procedure, origin.env.handle, input.rows, origin.env.context)
    }

    ghost function At(phase: Phase, row: Row, diags: Diags): (c: Conf<S>)
      reads this, input, sp, sp.area
      requires input.Valid()
    {
      Conf(Env(sp.handle, row, sp.area.diags), input.rows[input.position..], phase, diags)
    }

    /** Where the unbuffered run is if everything computed so far counts as emitted, and if the diagnostics
        area has this content. */
    ghost function NowIn(context: Diags): (c: Conf<S>)
      reads this, input, output, sp
      requires input.Valid()
    {
      var row := if output.rowExist then ZeroRow(output.rowLength) else output.rowBuffer;
      var rest := input.rows[input.position..];
      if sp.state == PROCESS then Conf(Env(sp.handle, row, context), rest, Fetching(input.current), output.diags)
      else Conf(Env(sp.handle, row, context), rest, Between, [])
    }

    ghost function Now(): (c: Conf<S>)
      reads this, input, output, sp, sp.area
      requires input.Valid()
    {
      NowIn(sp.area.diags)
    }

    /** The history is orderly, and as long as nobody interfered it is that of the unbuffered run. */
    ghost predicate Recorded()
      reads this
    {
      history.Ran? && Orderly(input.rows, history) && (intact ==> RunFor(machine, origin, steps) == history)
    }

    /** The calls made are those of the history, which has emitted `items` and is at `c`. */
    ghost predicate Tracks(items: seq<Item>, c: Conf<S>)
      reads this, sp
    {
      Recorded() && history == Ran(items, sp.calls, c)
    }

    /** A call was left by an exception: the unbuffered run raises it at the same point. */
    ghost predicate Failed()
      reads this, sp, output
    {
      && Recorded() && history.items == sent + output.data && machine(history.conf) == Raised
      && sp.calls + (if sp.state == PROCESS then [CloseDone] else []) == history.calls + Ending(history.conf, false)
    }

    /** The next step of the history. */
    ghost method Advance()
      requires Rooted() && Recorded() && machine(history.conf).Stepped?
      modifies this`history, this`steps
      ensures Recorded() && history == Extend(old(history), machine(old(history.conf)))
    {
      var next := steps + 1;
      if intact {
        RunNext(machine, origin, steps, history, next);
      }
      StepIsOrderly(sp.procedure, input.rows, history);
      history, steps := Extend(history, machine(history.conf)), next;
    }

    /** The next step of the unbuffered run is a FETCH, and this is it. */
    method FetchOne(ghost items: seq<Item>) returns (status: ExecStatus)
      requires Rooted()
      requires Consistent() && sp.state == PROCESS && After(sp.calls) == Opened && !output.rowExist
      requires items == sent + output.data && Tracks(items, Now())
      modifies this`history, this`steps, sp, sp.area, output`rowBuffer, output`diags, output`diagsExist, output`eorExist
      ensures Consistent() && sp.state == PROCESS
      ensures status == EXCEPTION ==> Failed()
      ensures status == MOREDATA ==>
        && After(sp.calls) == Opened && sp.area.diags == []
        && Tracks(items + [RowItem(input.current.control, output.rowBuffer)],
                  At(Fetching(input.current), ZeroRow(output.rowLength), output.diags))
      ensures status != EXCEPTION && status != MOREDATA ==>
        Tracks(items, At(Closing(input.current), output.rowBuffer, output.diags))
    {
      hide Orderly, After, ErrorDiags, EndItems, RunFor;
      status := sp.Fetch();
      if status != EXCEPTION {
        Advance();
        assert items + [] == items;
      }
    }

    /** The next step of the unbuffered run is a CLOSE, and this is it. */
    method CloseOne(ghost items: seq<Item>) returns (status: ExecStatus)
      requires Rooted()
      requires Consistent() && sp.state == PROCESS
      requires items == sent + output.data && Tracks(items, At(Closing(input.current), output.rowBuffer, output.diags))
      modifies this`history, this`steps, sp, sp.area, output`rowBuffer, output`diags, output`diagsExist, output`eorExist
      ensures Consistent() && sp.state == NONE
      ensures status == EXCEPTION ==> Failed()
      ensures status != EXCEPTION ==>
        Tracks(items + EndItems(input.current.control, output.diags), At(Between, output.rowBuffer, []))
    {
      hide Orderly, After, ErrorDiags, EndItems, RunFor;
      status := sp.Close();
      if status != EXCEPTION {
        Advance();
      }
    }

    /** The next step of the unbuffered run is an OPEN, and this is it. */
    method OpenOne(ghost items: seq<Item>) returns (status: ExecStatus)
      requires Rooted()
      requires Consistent() && sp.state == NONE && output.diags == []
      requires input.position > 0 && input.current == input.rows[input.position - 1]
      requires items == sent + output.data
      requires Tracks(items, At(Between, output.rowBuffer, []).(inputs := input.rows[input.position - 1..]))
      modifies this`history, this`steps, sp, sp.area, output`rowBuffer, output`diags, output`diagsExist, output`eorExist
      ensures Consistent() && status != MOREDATA
      ensures status == EXCEPTION ==> Failed()
      ensures status == SUCCESS ==>
        && sp.state == PROCESS && After(sp.calls) == Opened
        && Tracks(items, At(Fetching(input.current), output.rowBuffer, output.diags))
      ensures status == FAIL ==>
        && sp.state == NONE
        && Tracks(items + EndItems(input.current.control, output.diags), At(Between, output.rowBuffer, []))
    {
      hide Orderly, After, ErrorDiags, EndItems, RunFor;
      ghost var inputs := history.conf.inputs;
      assert inputs[0] == input.current && inputs[1..] == input.rows[input.position..];
      status := sp.Open();
      if status != EXCEPTION {
        Advance();
        assert items + [] == items;
      }
    }

    /** Where a statement stands after it filled its reply, or after it ran out of output. */
    ghost predicate Settled(full: bool)
      reads this, input, output, sp, sp.area
      requires Consistent()
    {
      && Tracks(sent + output.data + output.Pending(), Now())
      && full == output.MoreData()
      && (full ==> !Fits(output.space, output.data, output.Pending()[0]))
      && (output.rowExist ==> sp.state == PROCESS && After(sp.calls) == Opened && (intact ==> sp.area.diags == []))
      && (!output.rowExist ==> sp.state == NONE)
    }

    ghost predicate Unstarted()
      reads this, input, output, sp, sp.area
    {
      && Consistent() && !exceptionRaised && !aborted && intact
      && Settled(false) && sent == [] && output.data == []
    }

    /** Fetches rows into the reply until it is full or the input is done; then closes the input. */
    method FetchPut() returns (full: bool, raised: bool)
      requires Rooted()
      requires Consistent() && sp.state == PROCESS && After(sp.calls) == Opened && !output.rowExist
      requires Tracks(sent + output.data, Now())
      modifies this`history, this`steps, sp, sp.area, output`data, output`rowBuffer, output`diags, output`rowExist,
        output`diagsExist, output`eorExist
      ensures Consistent() && old(output.data) <= output.data
      ensures raised ==> Failed()
      ensures !raised ==> Settled(full)
    {
      hide Packed, Recorded, EndItems;
      full, raised := false, false;
      while !full
        invariant Consistent() && sp.state == PROCESS && After(sp.calls) == Opened
        invariant old(output.data) <= output.data
        invariant full == output.rowExist
        invariant if full then Settled(true) else Tracks(sent + output.data, Now())
        decreases output.space.slots - |output.data|, !full
      {
        var status := FetchOne(sent + output.data);
        if status == EXCEPTION {
          return full, true;
        }
        if status != MOREDATA {
          full, raised := CloseAndEnd();
          return;
        }
        full := PutRow();
      }
    }

    /** Puts the row just fetched into the reply. */
    method PutRow() returns (full: bool)
      requires Consistent() && sp.state == PROCESS && After(sp.calls) == Opened && (intact ==> sp.area.diags == [])
      requires Tracks(sent + output.data + [RowItem(input.current.control, output.rowBuffer)],
                      At(Fetching(input.current), ZeroRow(output.rowLength), output.diags))
      modifies output`data, output`rowBuffer, output`rowExist
      ensures Consistent() && full == output.rowExist
      ensures full <==> !Fits(output.space, old(output.data), RowItem(input.current.control, old(output.rowBuffer)))
      ensures full ==> output.data == old(output.data) && Settled(true)
      ensures !full ==>
        && |output.data| == |old(output.data)| + 1 && old(output.data) <= output.data
        && |output.data| <= output.space.slots
        && Tracks(sent + output.data, Now())
    {
      ghost var items := sent + output.data + [RowItem(input.current.control, output.rowBuffer)];
      var put := output.AddARow();
      full := put == FULL;
      assert items == sent + output.data + if full then output.Pending() else [];
    }

    method CloseAndEnd() returns (full: bool, raised: bool)
      requires Rooted()
      requires Consistent() && sp.state == PROCESS && !output.rowExist
      requires Tracks(sent + output.data, At(Closing(input.current), output.rowBuffer, output.diags))
      modifies this`history, this`steps, sp, sp.area, output`data, output`rowBuffer, output`diags, output`diagsExist,
        output`eorExist
      ensures Consistent() && old(output.data) <= output.data
      ensures raised ==> Failed()
      ensures !raised ==> Settled(full) && sp.state == NONE
    {
      var status := CloseOne(sent + output.data);
      if status == EXCEPTION {
        return false, true;
      }
      full, raised := End();
    }

    /** Puts the end of an input into the reply. */
    method End() returns (full: bool, raised: bool)
      requires Consistent() && sp.state == NONE && !output.rowExist
      requires Tracks(sent + output.data + EndItems(input.current.control, output.diags), At(Between, output.rowBuffer,
        []))
      modifies output`data, output`diags, output`diagsExist, output`eorExist
      ensures Consistent() && old(output.data) <= output.data && !raised
      ensures Settled(full) && sp.state == NONE && (full || output.data != [])
      ensures Fits(output.space, old(output.data), old(EndItems(input.current.control, output.diags))[0]) ==>
        output.data != []
    {
      ghost var ends := EndItems(input.current.control, output.diags);
      ghost var before := output.data;
      var put := output.AddEOR();
      full, raised := put == FULL, false;
      assert sent + before + ends == sent + (before + ends);
      assert sent + (output.data + output.Pending()) == sent + output.data + output.Pending();
    }

    /** Runs the remaining inputs until the reply is full. */
    method OpenInputs(alreadyFull: bool) returns (full: bool, raised: bool)
      requires Rooted()
      requires Consistent() && Settled(alreadyFull)
      modifies this`history, this`steps, sp, sp.area, input, output`data, output`rowBuffer, output`diags,
        output`rowExist, output`diagsExist, output`eorExist
      ensures Consistent() && old(output.data) <= output.data
      ensures raised ==> Failed()
      ensures !raised ==> Settled(full) && (full || input.position == |input.rows|)
      ensures alreadyFull ==> full && !raised
    {
      hide Packed, Recorded, EndItems, After;
      full, raised := alreadyFull, false;
      while !full
        invariant Consistent() && !raised && Settled(full) && old(output.data) <= output.data
        invariant alreadyFull ==> full
        decreases |input.rows| - input.position, !full
      {
        ghost var items := sent + output.data;
        assert items + [] == items;
        var more := input.Next();
        if !more {
          return;
        }
        full, raised := RunInput();
        if raised {
          return;
        }
      }
    }

    /** Opens the current input and puts its output into the reply. */
    method RunInput() returns (full: bool, raised: bool)
      requires Rooted()
      requires Consistent() && sp.state == NONE && !output.MoreData()
      requires input.position > 0 && input.current == input.rows[input.position - 1]
      requires Tracks(sent + output.data, At(Between, output.rowBuffer,
        []).(inputs := input.rows[input.position - 1..]))
      modifies this`history, this`steps, sp, sp.area, output`data, output`rowBuffer, output`diags, output`rowExist,
        output`diagsExist, output`eorExist
      ensures Consistent() && old(output.data) <= output.data
      ensures raised ==> Failed()
      ensures !raised ==> Settled(full)
    {
      var status := OpenOne(sent + output.data);
      if status == SUCCESS {
        full, raised := FetchPut();
      } else if status == FAIL {
        full, raised := End();
      } else {
        full, raised := false, true;
      }
    }

    /** Between messages: either an exception ended the statement, or all that the history has emitted is
        sent or pending. */
    ghost predicate Valid()
      reads this, input, output, sp
    {
      && Consistent()
      && (exceptionRaised ==>
            && sp.state == NONE && Recorded() && sent <= history.items
            && (!aborted ==> machine(history.conf) == Raised && history.items == sent + output.data)
            && sp.calls == history.calls + Ending(history.conf, aborted))
      && (!exceptionRaised ==>
            && !aborted && Tracks(sent + output.Pending(), NowIn(left))
            && (output.rowExist ==> sp.state == PROCESS && After(sp.calls) == Opened && (intact ==> left == []))
            && (!output.rowExist ==> sp.state == NONE)
            && (!output.MoreData() ==> input.position == |input.rows|))
    }

    /** The request found the diagnostics area empty at its first message, and at every further one as it
        had left it. */
    ghost predicate Undisturbed()
      reads this, output
    {
      intact && !aborted && origin.env.context == [] && (MoreData() ==> left == [])
    }

    predicate MoreData()
      reads this, output
    {
      !exceptionRaised && output.MoreData()
    }

    predicate ReadyToDie()
      reads this, output
    {
      exceptionRaised || !output.MoreData()
    }

    /** Leaves the statement after an exception, at whatever point it struck: the procedure is closed
        if it is open. */
    method ExceptionRaised()
      requires Consistent()
      modifies this`exceptionRaised, sp, sp.area, output`rowBuffer, output`diags, output`diagsExist, output`eorExist
      ensures Consistent() && exceptionRaised && sp.state == NONE
      ensures sp.calls == old(sp.calls) + if old(sp.state) == PROCESS then [CloseDone] else []
      ensures Opens(sp.calls) == Closes(sp.calls)
      ensures sp.area.diags == old(sp.Closed(Caught(sp.area.diags)))
      ensures old(sp.state) == NONE ==>
        sp.area.diags == if old(sp.area.diags) == [] then [-2006] else old(sp.area.diags)
      ensures old(sp.state) == PROCESS ==>
        var caught := if old(sp.area.diags) == [] then [-2006] else old(sp.area.diags);
        var r := sp.procedure.call(Close, sp.input.current, Env(old(sp.handle), old(output.rowBuffer), caught));
        sp.area.diags == r.env.context +
          if r.threw || r.status == SpSuccess then old(output.diags) else ErrorDiags(r.errors)
    {
      sp.area.diags := Caught(sp.area.diags);
      sp.Delete();
      exceptionRaised := true;
    }

    /** Gives the statement up between two messages. */
    method Abort()
      requires Valid() && !exceptionRaised
      modifies this`exceptionRaised, this`aborted, this`left, sp, sp.area, output`rowBuffer, output`diags,
        output`diagsExist, output`eorExist
      ensures Valid() && exceptionRaised && aborted && left == sp.area.diags
      ensures old(sp.state) == NONE ==>
        sp.area.diags == if old(sp.area.diags) == [] then [-2006] else old(sp.area.diags)
      ensures old(sp.state) == PROCESS ==>
        var caught := if old(sp.area.diags) == [] then [-2006] else old(sp.area.diags);
        var r := sp.procedure.call(Close, sp.input.current, Env(old(sp.handle), old(output.rowBuffer), caught));
        sp.area.diags == r.env.context +
          if r.threw || r.status == SpSuccess then old(output.diags) else ErrorDiags(r.errors)
      ensures left == old(sp.Closed(Caught(sp.area.diags)))
    {
      aborted := true;
      ExceptionRaised();
      left := sp.area.diags;
    }

    /** Ends a message: hands out the reply, or the exception. */
    method PrepareReply(full: bool, raised: bool) returns (reply: seq<Item>)
      requires Consistent() && !exceptionRaised && !aborted
      requires raised ==> Failed()
      requires !raised ==> Settled(full) && (full || input.position == |input.rows|)
      modifies this`exceptionRaised, this`sent, this`left, sp, sp.area, output`rowBuffer, output`diags,
        output`diagsExist, output`eorExist
      ensures Valid() && exceptionRaised == raised && left == sp.area.diags
      ensures sent == old(sent) + reply
      ensures reply == if raised then [] else old(output.data)
      ensures !raised ==> output.MoreData() == full && Packed(output.space, reply)
      ensures !raised ==> unchanged(sp) && unchanged(sp.area)
      ensures full && !raised ==> NoRoom(output.space, reply)
    {
      if raised {
        ExceptionRaised();
        reply := [];
      } else {
        reply := output.data;
        sent := sent + reply;
      }
      left := sp.area.diags;
    }

    /** The next item did not fit behind the reply. */
    ghost predicate NoRoom(space: Buffer, reply: seq<Item>)
      reads this, output, output.input
    {
      output.Pending() != [] && !Fits(space, reply, output.Pending()[0])
    }

    /** What a message has done: the reply is within its buffer and was added to what was sent, and more is
        said exactly if something is left, because it did not fit. An exception sends nothing. */
    ghost predicate Answered(before: seq<Item>, space: Buffer, reply: seq<Item>, areMore: bool, raised: bool)
      reads this, output, output.input
    {
      && sent == before + reply && Packed(space, reply) && exceptionRaised == raised
      && (!aborted ==> output.space == space)
      && (raised ==> reply == [])
      && (!raised ==> areMore == MoreData() && areMore == !ReadyToDie())
      && (!raised && areMore ==> NoRoom(space, reply))
    }

    /** Answers the request. */
    method ProcessRequest() returns (reply: seq<Item>, areMore: bool, raised: bool)
      requires Rooted()
      requires Unstarted()
      modifies this, sp, sp.area, input, output
      ensures Valid() && Answered([], old(output.space), reply, areMore, raised)
      ensures intact && !aborted && left == sp.area.diags
    {
      hide Rooted, Consistent, Settled, Failed, Valid, ReplyData.Pending;
      var full;
      full, raised := OpenInputs(false);
      reply := PrepareReply(full, raised);
      areMore := full;
    }

    /** Takes note of what is in the diagnostics area now, if that has changed since the last message. */
    ghost method Notice()
      requires Valid() && !exceptionRaised
      modifies this`history, this`intact, this`left
      ensures Valid() && left == sp.area.diags && intact == (old(intact) && old(left) == sp.area.diags)
    {
      if left != sp.area.diags {
        left, intact := sp.area.diags, false;
        history := history.(conf := NowIn(left));
      }
    }

    method NewReply(space: Buffer)
      requires Valid() && !exceptionRaised
      modifies this`history, this`intact, this`left, output`space, output`data
      ensures Valid() && left == sp.area.diags && intact == (old(intact) && old(left) == sp.area.diags)
      ensures output.space == space && output.data == [] && !aborted && output.Pending() == old(output.Pending())
    {
      hide Recorded;
      Notice();
      output.AllocateData(space);
    }

    /** Answers a GetNext message, with a new reply buffer. */
    method ProcessGetNext(space: Buffer) returns (reply: seq<Item>, areMore: bool, raised: bool)
      requires Rooted()
      requires Valid() && !exceptionRaised
      modifies this, sp, sp.area, input, output
      ensures Valid() && Answered(old(sent), space, reply, areMore, raised)
      ensures intact == (old(intact) && old(left) == old(sp.area.diags)) && !aborted && left == sp.area.diags
      ensures !areMore && !raised && old(output.MoreData()) ==> reply != []
      ensures !raised ==> Sends(old(output.Pending()), space, reply)
    {
      hide Rooted, Consistent, Settled, Failed, Valid, ReplyData.Pending;
      NewReply(space);
      var full;
      full, raised := Resume();
      if !raised {
        full, raised := OpenInputs(full);
      }
      reply := PrepareReply(full, raised);
      areMore := full;
    }

    /** Puts what was left pending into the new reply, and goes on with the input in progress. */
    method Resume() returns (full: bool, raised: bool)
      requires Rooted()
      requires Valid() && !exceptionRaised && output.data == [] && left == sp.area.diags
      modifies this`history, this`steps, sp, sp.area, output`data, output`rowBuffer, output`diags, output`rowExist,
        output`diagsExist, output`eorExist
      ensures Consistent()
      ensures raised ==> Failed()
      ensures !raised ==> Settled(full)
      ensures !raised && !full && old(output.MoreData()) ==> output.data != []
      ensures !raised ==> Sends(old(output.Pending()), output.space, output.data)
    {
      full, raised := false, false;
      assert sent + [] == sent;
      if output.rowExist {
        full := PutRow();
        if !full {
          full, raised := FetchPut();
        }
      } else if output.eorExist {
        full, raised := End();
      }
    }
  }
}
