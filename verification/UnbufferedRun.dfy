/** The run of a request as if the reply buffer had no limit. It is stated twice: as a machine that
    makes one procedure call per step, which covers procedures that never stop, and as the
    per-input OPEN, FETCH*, CLOSE output that this machine produces when they do. */
module UnbufferedRun {
  import opened StoredProcedure

  datatype Phase = Between | Fetching(input: Input) | Closing(input: Input)

  /** The state between two calls: what the procedure can see, the inputs still to be opened, and
      the diagnostics collected for the input in progress. */
  datatype Conf<S> = Conf(env: Env<S>, inputs: seq<Input>, phase: Phase, diags: Diags)

  datatype Call =
    | OpenOk(input: Input)
    | OpenFailed(input: Input)
    | OpenThrew(input: Input)
    | FetchMore
    | FetchLast
    | FetchThrew
    | CloseDone

  datatype Progress<S> =
    | Finished
    | Raised
    | Stepped(items: seq<Item>, call: Call, next: Conf<S>)

  /** Where a request starts, with what it finds in the compiler's diagnostics area. */
  function Start<S>(p: Procedure<S>, handle: S, inputs: seq<Input>, context: Diags): (c: Conf<S>) {
    Conf(Env(handle, ZeroRow(p.rowLength), context), inputs, Between, [])
  }

  /** The next call, the items its result adds to the output, and the state it leaves. */
  function Step<S>(p: Procedure<S>, c: Conf<S>): (r: Progress<S>) {
    match c.phase
    case Between => OpenStep(p, c)
    case Fetching(input) => FetchStep(p, c, input)
    case Closing(input) => CloseStep(p, c, input)
  }

  function OpenStep<S>(p: Procedure<S>, c: Conf<S>): (r: Progress<S>) {
    if c.inputs == [] then Finished else
    var input := c.inputs[0];
    var r := p.call(Open, input, c.env);
    var rest := c.inputs[1..];
    if r.threw then Raised
    else match r.status
      case SpFail =>
        Stepped(EndItems(input.control, ErrorDiags(r.errors)), OpenFailed(input), Conf(r.env, rest, Between, []))
      case SpSuccessWarning =>
        Stepped([], OpenOk(input), Conf(r.env, rest, Fetching(input), ErrorDiags(r.errors)))
      case _ =>
        Stepped([], OpenOk(input), Conf(r.env, rest, Fetching(input), c.diags))
  }

  function FetchStep<S>(p: Procedure<S>, c: Conf<S>, input: Input): (r: Progress<S>) {
    var r := p.call(Fetch, input, c.env);
    if r.threw then Raised else
    var own := if r.status == SpFail then ErrorDiags(r.errors) else c.diags;
    var diags := own + r.env.context;
    if r.status == SpMoreData then
      Stepped([RowItem(input.control, r.env.row)], FetchMore,
              Conf(Env(r.env.handle, ZeroRow(p.rowLength), []), c.inputs, Fetching(input), diags))
    else
      Stepped([], FetchLast, Conf(r.env.(context := []), c.inputs, Closing(input), diags))
  }

  function CloseStep<S>(p: Procedure<S>, c: Conf<S>, input: Input): (r: Progress<S>) {
    var r := p.call(Close, input, c.env);
    if r.threw then Raised else
    var diags := if r.status == SpSuccess then c.diags else ErrorDiags(r.errors);
    Stepped(EndItems(input.control, diags), CloseDone, Conf(r.env, c.inputs, Between, []))
  }

  datatype Run<S> = Stopped | Ran(items: seq<Item>, calls: seq<Call>, conf: Conf<S>)

  /** The unbuffered run of a procedure, as a machine. */
  function Machine<S>(p: Procedure<S>): (step: Conf<S> -> Progress<S>) {
    c => Step(p, c)
  }

  /** The output and the calls of the first `k` steps, or `Stopped` if there are not that many. */
  function RunFor<S>(step: Conf<S> -> Progress<S>, c: Conf<S>, k: nat): (r: Run<S>) {
    if k == 0 then Ran([], [], c) else
    var r := RunFor(step, c, k - 1);
    if r.Stopped? then Stopped else Extend(r, step(r.conf))
  }

  function Extend<S>(r: Run<S>, s: Progress<S>): (e: Run<S>)
    requires r.Ran?
  {
    if s.Stepped? then Ran(r.items + s.items, r.calls + [s.call], s.next) else Stopped
  }

  function Join<S>(first: Run<S>, second: Run<S>): (r: Run<S>)
    requires first.Ran? && second.Ran?
  {
    Ran(first.items + second.items, first.calls + second.calls, second.conf)
  }

  /** A longer run extends the output and the calls of a shorter one. */
  lemma {:induction false} RunGrows<S>(step: Conf<S> -> Progress<S>, c: Conf<S>, j: nat, k: nat)
    requires j <= k && RunFor(step, c, k).Ran?
    ensures RunFor(step, c, j).Ran?
    ensures RunFor(step, c, j).items <= RunFor(step, c, k).items
    ensures RunFor(step, c, j).calls <= RunFor(step, c, k).calls
  {
    if j < k {
      RunGrows(step, c, j, k - 1);
    }
  }

  /** A run that cannot go on is the longest one: every other run's output is a prefix of its output. */
  lemma FinalRunIsLongest<S>(step: Conf<S> -> Progress<S>, c: Conf<S>, j: nat, k: nat)
    requires RunFor(step, c, j).Ran? && RunFor(step, c, k).Ran?
    requires !step(RunFor(step, c, k).conf).Stepped?
    ensures j <= k && RunFor(step, c, j).items <= RunFor(step, c, k).items
  {
    if j > k {
      RunGrows(step, c, k + 1, j);
      assert false;
    }
    RunGrows(step, c, j, k);
  }

  lemma JoinEmpty<S>(first: Run<S>)
    requires first.Ran?
    ensures Join(first, Ran([], [], first.conf)) == first
  {
    assert first.items + [] == first.items && first.calls + [] == first.calls;
  }

  lemma JoinExtend<S>(first: Run<S>, second: Run<S>, s: Progress<S>)
    requires first.Ran? && second.Ran? && s.Stepped?
    ensures Extend(Join(first, second), s) == Join(first, Extend(second, s))
  {
    assert (first.items + second.items) + s.items == first.items + (second.items + s.items);
    assert (first.calls + second.calls) + [s.call] == first.calls + (second.calls + [s.call]);
  }

  lemma RunNext<S>(step: Conf<S> -> Progress<S>, c: Conf<S>, k: nat, r: Run<S>, n: nat)
    requires RunFor(step, c, k) == r && r.Ran?
    requires n == k + 1
    ensures RunFor(step, c, n) == Extend(r, step(r.conf))
  {
  }

  /** Runs compose. */
  lemma {:induction false} RunsCompose<S>(step: Conf<S> -> Progress<S>, c: Conf<S>, j: nat, first: Run<S>,
                                         k: nat, second: Run<S>, n: nat)
    requires RunFor(step, c, j) == first && first.Ran?
    requires RunFor(step, first.conf, k) == second && second.Ran?
    requires n == j + k
    ensures RunFor(step, c, n) == Join(first, second)
    decreases k
  {
    if k == 0 {
      JoinEmpty(first);
    } else {
      var i, m := k - 1, n - 1;
      var before := RunFor(step, first.conf, i);
      RunNext(step, first.conf, i, before, k);
      RunsCompose(step, c, j, first, i, before, m);
      RunNext(step, c, m, Join(first, before), n);
      JoinExtend(first, before, step(before.conf));
    }
  }

  // ---------------------------------------------------------------------------------------------
  // The call protocol
  // ---------------------------------------------------------------------------------------------

  datatype Protocol = Idle | Opened | Drained | Violated

  function Advance(s: Protocol, call: Call): (r: Protocol) {
    match (s, call)
    case (Idle, OpenOk(_)) => Opened
    case (Idle, OpenFailed(_)) => Idle
    case (Idle, OpenThrew(_)) => Idle
    case (Opened, FetchMore) => Opened
    case (Opened, FetchLast) => Drained
    case (Opened, FetchThrew) => Drained
    case (Opened, CloseDone) => Idle
    case (Drained, CloseDone) => Idle
    case _ => Violated
  }

  /** The protocol state after a sequence of calls. */
  function After(calls: seq<Call>): (s: Protocol) {
    if calls == [] then Idle else Advance(After(calls[..|calls| - 1]), calls[|calls| - 1])
  }

  function PhaseProtocol(phase: Phase): (s: Protocol) {
    match phase
    case Between => Idle
    case Fetching(_) => Opened
    case Closing(_) => Drained
  }

  /** The inputs that were opened, in order. */
  function OpenedInputs(calls: seq<Call>): (inputs: seq<Input>) {
    if calls == [] then [] else
    var before := OpenedInputs(calls[..|calls| - 1]);
    match calls[|calls| - 1]
    case OpenOk(i) => before + [i]
    case OpenFailed(i) => before + [i]
    case OpenThrew(i) => before + [i]
    case _ => before
  }

  /** How many OPEN calls succeeded. */
  function Opens(calls: seq<Call>): (n: nat) {
    if calls == [] then 0
    else Opens(calls[..|calls| - 1]) + if calls[|calls| - 1].OpenOk? then 1 else 0
  }

  function Closes(calls: seq<Call>): (n: nat) {
    if calls == [] then 0
    else Closes(calls[..|calls| - 1]) + if calls[|calls| - 1].CloseDone? then 1 else 0
  }

  /** As long as the protocol is kept, an OPEN that succeeded is matched by exactly one CLOSE,
      except for the one in progress. */
  lemma {:induction false} ClosesMatchOpens(calls: seq<Call>)
    requires After(calls) != Violated
    ensures Opens(calls) == Closes(calls) + if After(calls) == Idle then 0 else 1
  {
    if calls != [] {
      ClosesMatchOpens(calls[..|calls| - 1]);
    }
  }

  /** The calls so far keep the protocol, opened the inputs once each and in order, and left no
      diagnostics of an earlier input behind. */
  ghost predicate Orderly<S>(inputs: seq<Input>, r: Run<S>)
    requires r.Ran?
  {
    && After(r.calls) == PhaseProtocol(r.conf.phase)
    && OpenedInputs(r.calls) + r.conf.inputs == inputs
    && (r.conf.phase == Between ==> r.conf.diags == [])
  }

  lemma StepIsOrderly<S>(p: Procedure<S>, inputs: seq<Input>, r: Run<S>)
    requires r.Ran? && Orderly(inputs, r) && Step(p, r.conf).Stepped?
    ensures Orderly(inputs, Extend(r, Step(p, r.conf)))
  {
    hide EndItems, ErrorDiags;
    var e := Extend(r, Step(p, r.conf));
    assert e.calls[..|e.calls| - 1] == r.calls;
  }

  /** Every unbuffered run is orderly. */
  lemma {:induction false} RunIsOrderly<S>(p: Procedure<S>, handle: S, inputs: seq<Input>, context: Diags, k: nat)
    requires RunFor(Machine(p), Start(p, handle, inputs, context), k).Ran?
    ensures Orderly(inputs, RunFor(Machine(p), Start(p, handle, inputs, context), k))
  {
    if k > 0 {
      RunIsOrderly(p, handle, inputs, context, k - 1);
      StepIsOrderly(p, inputs, RunFor(Machine(p), Start(p, handle, inputs, context), k - 1));
    } else {
      assert [] + inputs == inputs;
    }
  }

  // ---------------------------------------------------------------------------------------------
  // The output of a procedure that stops, input by input
  // ---------------------------------------------------------------------------------------------

  /** What the procedure sees at its FETCH number `m`, if all earlier ones said there is more. */
  function FetchEnv<S>(p: Procedure<S>, input: Input, env: Env<S>, m: nat): (e: Env<S>) {
    if m == 0 then env
    else Env(p.call(Fetch, input, FetchEnv(p, input, env, m - 1)).env.handle, ZeroRow(p.rowLength), [])
  }

  function FetchReply<S>(p: Procedure<S>, input: Input, env: Env<S>, m: nat): (r: Reply<S>) {
    p.call(Fetch, input, FetchEnv(p, input, env, m))
  }

  /** The first `m` fetches all deliver a row. */
  ghost predicate Delivers<S>(p: Procedure<S>, input: Input, env: Env<S>, m: nat) {
    forall j: nat :: j < m ==>
      !FetchReply(p, input, env, j).threw && FetchReply(p, input, env, j).status == SpMoreData
  }

  function Rows<S>(p: Procedure<S>, input: Input, env: Env<S>, m: nat): (items: seq<Item>) {
    if m == 0 then []
    else Rows(p, input, env, m - 1) + [RowItem(input.control, FetchReply(p, input, env, m - 1).env.row)]
  }

  /** The diagnostics the first `m` fetches left in the compiler's area. */
  function MergedContext<S>(p: Procedure<S>, input: Input, env: Env<S>, m: nat): (d: Diags) {
    if m == 0 then []
    else MergedContext(p, input, env, m - 1) + FetchReply(p, input, env, m - 1).env.context
  }

  /** The input is opened, delivers exactly `m` rows and is closed again, all without exceptions; or
      its OPEN fails. */
  ghost predicate Answers<S>(p: Procedure<S>, env: Env<S>, input: Input, m: nat) {
    var o := p.call(Open, input, env);
    && !o.threw
    && (o.status != SpFail ==>
          && Delivers(p, input, o.env, m)
          && !FetchReply(p, input, o.env, m).threw
          && FetchReply(p, input, o.env, m).status != SpMoreData
          && !p.call(Close, input, FetchReply(p, input, o.env, m).env.(context := [])).threw)
  }

  /** The diagnostics of one input: a failed CLOSE replaces everything, else a failed FETCH replaces
      everything but its own context diagnostics, else the warnings of OPEN are followed by the
      context diagnostics of all fetches. */
  function FinalDiags<S>(p: Procedure<S>, env: Env<S>, input: Input, m: nat): (d: Diags) {
    var o := p.call(Open, input, env);
    var last := FetchReply(p, input, o.env, m);
    var c := p.call(Close, input, last.env.(context := []));
    if o.status == SpFail then ErrorDiags(o.errors)
    else if c.status != SpSuccess then ErrorDiags(c.errors)
    else if last.status == SpFail then ErrorDiags(last.errors) + last.env.context
    else (if o.status == SpSuccessWarning then ErrorDiags(o.errors) else [])
         + MergedContext(p, input, o.env, m + 1)
  }

  /** The whole output of one input: its rows, then its diagnostics and end mark. */
  function Answer<S>(p: Procedure<S>, env: Env<S>, input: Input, m: nat): (items: seq<Item>) {
    var o := p.call(Open, input, env);
    (if o.status == SpFail then [] else Rows(p, input, o.env, m))
    + EndItems(input.control, FinalDiags(p, env, input, m))
  }

  /** What the procedure sees when the next input is opened. */
  function EnvAfter<S>(p: Procedure<S>, env: Env<S>, input: Input, m: nat): (e: Env<S>) {
    var o := p.call(Open, input, env);
    if o.status == SpFail then o.env
    else p.call(Close, input, FetchReply(p, input, o.env, m).env.(context := [])).env
  }

  /** `counts[i]` is the number of rows of input `i`. */
  ghost predicate AnswersAll<S>(p: Procedure<S>, env: Env<S>, inputs: seq<Input>, counts: seq<nat>)
    requires |inputs| == |counts|
    decreases |inputs|
  {
    inputs == [] ||
    (Answers(p, env, inputs[0], counts[0]) &&
     AnswersAll(p, EnvAfter(p, env, inputs[0], counts[0]), inputs[1..], counts[1..]))
  }

  function WholeOutput<S>(p: Procedure<S>, env: Env<S>, inputs: seq<Input>, counts: seq<nat>): (items: seq<Item>)
    requires |inputs| == |counts|
    decreases |inputs|
  {
    if inputs == [] then [] else
    Answer(p, env, inputs[0], counts[0])
    + WholeOutput(p, EnvAfter(p, env, inputs[0], counts[0]), inputs[1..], counts[1..])
  }

  lemma {:induction false} FetchPhaseRuns<S>(p: Procedure<S>, c: Conf<S>, input: Input, m: nat)
    requires c.phase == Fetching(input) && Delivers(p, input, c.env, m)
    ensures
      var r := RunFor(Machine(p), c, m);
      && r.Ran?
      && r.items == Rows(p, input, c.env, m)
      && r.conf == Conf(FetchEnv(p, input, c.env, m), c.inputs, c.phase,
                        c.diags + MergedContext(p, input, c.env, m))
  {
    if m == 0 {
      assert c.diags + [] == c.diags;
    } else {
      FetchPhaseRuns(p, c, input, m - 1);
      var last := FetchReply(p, input, c.env, m - 1);
      assert (c.diags + MergedContext(p, input, c.env, m - 1)) + last.env.context
          == c.diags + MergedContext(p, input, c.env, m);
    }
  }

  /** The diagnostics of an opened input, collected step by step: `early` is what OPEN left. */
  function ClosingDiags<S>(p: Procedure<S>, input: Input, env: Env<S>, early: Diags, m: nat): (d: Diags) {
    var last := FetchReply(p, input, env, m);
    var closed := p.call(Close, input, last.env.(context := []));
    if closed.status != SpSuccess then ErrorDiags(closed.errors)
    else (if last.status == SpFail then ErrorDiags(last.errors)
          else early + MergedContext(p, input, env, m)) + last.env.context
  }

  /** The last FETCH and the CLOSE. */
  lemma CloseRuns<S>(p: Procedure<S>, c: Conf<S>, input: Input) returns (r: Run<S>)
    requires c.phase == Fetching(input)
    requires var last := p.call(Fetch, input, c.env);
      && !last.threw && last.status != SpMoreData
      && !p.call(Close, input, last.env.(context := [])).threw
    ensures
      var last := p.call(Fetch, input, c.env);
      var closed := p.call(Close, input, last.env.(context := []));
      var diags := if closed.status != SpSuccess then ErrorDiags(closed.errors)
                   else (if last.status == SpFail then ErrorDiags(last.errors) else c.diags) + last.env.context;
      r == Ran(EndItems(input.control, diags), [FetchLast, CloseDone], Conf(closed.env, c.inputs, Between, []))
    ensures RunFor(Machine(p), c, 2) == r
  {
    hide EndItems, ErrorDiags;
    var s := Step(p, c);
    var t := Step(p, s.next);
    r := Ran(t.items, [s.call, t.call], t.next);
    assert RunFor(Machine(p), c, 1) == Ran([], [s.call], s.next);
  }

  lemma FetchesAndCloseRun<S>(p: Procedure<S>, c: Conf<S>, input: Input, m: nat, n: nat) returns (r: Run<S>)
    requires c.phase == Fetching(input) && Delivers(p, input, c.env, m) && n == m + 2
    requires var last := FetchReply(p, input, c.env, m);
      && !last.threw && last.status != SpMoreData
      && !p.call(Close, input, last.env.(context := [])).threw
    ensures RunFor(Machine(p), c, n) == r && r.Ran?
    ensures r.items == Rows(p, input, c.env, m) + EndItems(input.control, ClosingDiags(p, input, c.env, c.diags, m))
    ensures r.conf == Conf(p.call(Close, input, FetchReply(p, input, c.env, m).env.(context := [])).env,
                           c.inputs, Between, [])
  {
    FetchPhaseRuns(p, c, input, m);
    var rows := RunFor(Machine(p), c, m);
    var closed := CloseRuns(p, rows.conf, input);
    r := Join(rows, closed);
    RunsCompose(Machine(p), c, m, rows, 2, closed, n);
  }

  /** The machine produces exactly the answer of one input. */
  lemma InputRuns<S>(p: Procedure<S>, c: Conf<S>, m: nat) returns (k: nat, r: Run<S>)
    requires c.phase == Between && c.diags == [] && c.inputs != []
    requires Answers(p, c.env, c.inputs[0], m)
    ensures RunFor(Machine(p), c, k) == r && r.Ran?
    ensures r.items == Answer(p, c.env, c.inputs[0], m)
    ensures r.conf == Conf(EnvAfter(p, c.env, c.inputs[0], m), c.inputs[1..], Between, [])
  {
    var input := c.inputs[0];
    var o := p.call(Open, input, c.env);
    var s := Step(p, c);
    var started := Ran(s.items, [s.call], s.next);
    assert RunFor(Machine(p), c, 1) == started;
    if o.status == SpFail {
      k, r := 1, started;
    } else {
      var n := m + 2;
      var rest := FetchesAndCloseRun(p, s.next, input, m, n);
      k, r := 1 + n, Join(started, rest);
      RunsCompose(Machine(p), c, 1, started, n, rest, k);
      FinalDiagsStepwise(p, c.env, input, m);
      assert r.items == rest.items;
    }
  }

  lemma FinalDiagsStepwise<S>(p: Procedure<S>, env: Env<S>, input: Input, m: nat)
    requires p.call(Open, input, env).status != SpFail
    ensures
      var o := p.call(Open, input, env);
      var early := if o.status == SpSuccessWarning then ErrorDiags(o.errors) else [];
      FinalDiags(p, env, input, m) == ClosingDiags(p, input, o.env, early, m)
  {
    var o := p.call(Open, input, env);
    var early := if o.status == SpSuccessWarning then ErrorDiags(o.errors) else [];
    var last := FetchReply(p, input, o.env, m);
    assert early + (MergedContext(p, input, o.env, m) + last.env.context)
        == (early + MergedContext(p, input, o.env, m)) + last.env.context;
  }

  /** For a procedure that stops, the machine's whole output is the outputs of the inputs, one after
      the other. */
  lemma {:induction false} WholeOutputRuns<S>(p: Procedure<S>, c: Conf<S>, counts: seq<nat>)
    returns (k: nat, r: Run<S>)
    requires c.phase == Between && c.diags == [] && |counts| == |c.inputs|
    requires AnswersAll(p, c.env, c.inputs, counts)
    ensures RunFor(Machine(p), c, k) == r && r.Ran?
    ensures r.items == WholeOutput(p, c.env, c.inputs, counts)
    ensures Step(p, r.conf) == Finished
    decreases |c.inputs|
  {
    if c.inputs == [] {
      k, r := 0, Ran([], [], c);
    } else {
      var j, first := InputRuns(p, c, counts[0]);
      var rest, tail := WholeOutputRuns(p, first.conf, counts[1..]);
      k, r := j + rest, Join(first, tail);
      RunsCompose(Machine(p), c, j, first, rest, tail, k);
    }
  }
}
