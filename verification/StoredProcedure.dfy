/** What an internal stored procedure looks like to the compiler process: one entry point that is
    called with OPEN, FETCH or CLOSE, and the diagnostics and reply items that its calls lead to. */
module StoredProcedure {

  const MAX_ERROR_STRUCTS := 5
  const ERROR_NO_SP_ERROR: Code := -19003
  const ERROR_MERGE_CAT_DIAGS: Code := -19018
  const ERROR_UNSUPPORTED: Code := -4222
  const ERROR_ASSERT: Code := -2006

  /** An SQL code: negative for an error, positive for a warning. */
  type Code = c: int | c != 0 witness -1

  type Diags = seq<Code>

  /** The error slots handed to the procedure, zeroed before every call; zero means unused. */
  type ErrorSlots = e: seq<int> | |e| == MAX_ERROR_STRUCTS witness [0, 0, 0, 0, 0]

  type Row = seq<int>

  datatype Input = Input(control: int, data: Row)

  datatype Action = Open | Fetch | Close

  datatype Status = SpFail | SpMoreData | SpSuccess | SpSuccessWarning

  /** Everything a call may change: the procedure's own handle, the row buffer it formats output
      into, and the compiler's diagnostics area. */
  datatype Env<S> = Env(handle: S, row: Row, context: Diags)

  /** A call either returns a status, or is left by an exception (`threw`). */
  datatype Reply<S> = Reply(threw: bool, status: Status, errors: ErrorSlots, env: Env<S>)

  /** An arbitrary procedure, together with the row length the executor asked for. */
  datatype Procedure<!S> = Procedure(call: (Action, Input, Env<S>) -> Reply<S>, rowLength: nat)

  /** An item of the reply stream. Every item carries the control of the input it answers. An end
      of data mark may carry warnings; errors travel in an item of their own. */
  datatype Item =
    | RowItem(control: int, row: Row)
    | ErrorItem(control: int, diags: Diags)
    | EndItem(control: int, diags: Diags)

  function ZeroRow(length: nat): (r: Row)
    ensures |r| == length && forall k :: 0 <= k < length ==> r[k] == 0
  {
    seq(length, _ => 0)
  }

  predicate HasError(d: Diags) {
    exists c :: c in d && c < 0
  }

  /** The diagnostics a failed call leaves behind. */
  function ErrorDiags(e: ErrorSlots): (d: Diags)
    ensures d != []
    ensures (e[0] == 0 ==> d == [-19003]) && (e[0] == -19018 ==> d == [-4222])
    ensures e[0] != 0 && e[0] != -19018 ==>
      && |d| <= |e| && (forall k :: 0 <= k < |d| ==> d[k] == e[k]) && (|d| == |e| || e[|d|] == 0)
  {
    if e[0] == ERROR_MERGE_CAT_DIAGS then [ERROR_UNSUPPORTED]
    else if e[0] == 0 then [ERROR_NO_SP_ERROR]
    else UsedSlots(e, 0)
  }

  /** The codes from slot `i` up to the first unused slot. */
  function UsedSlots(e: ErrorSlots, i: nat): (d: Diags)
    requires i <= |e|
    ensures i + |d| <= |e| && forall k :: 0 <= k < |d| ==> d[k] == e[i + k]
    ensures i + |d| == |e| || e[i + |d|] == 0
    decreases |e| - i
  {
    if i == |e| || e[i] == 0 then [] else [e[i]] + UsedSlots(e, i + 1)
  }

  /** Converts the error slots and appends the result to a diagnostics area. */
  method AppendErrors(e: ErrorSlots, diags: Diags) returns (r: Diags)
    ensures r == diags + ErrorDiags(e)
  {
    if e[0] == ERROR_MERGE_CAT_DIAGS {
      return diags + [ERROR_UNSUPPORTED];
    }
    r := diags;
    for i := 0 to MAX_ERROR_STRUCTS
      invariant if i == 0 then r == diags else e[0] != 0
      invariant r + UsedSlots(e, i) == diags + UsedSlots(e, 0)
    {
      if e[i] != 0 {
        r := r + [e[i]];
      } else if i == 0 {
        return r + [ERROR_NO_SP_ERROR];
      } else {
        assert r + [] == r;
        return;
      }
    }
    assert r + [] == r;
  }

  /** The items that end the output of one input: pending errors go out in an item of their own
      before the end mark, pending warnings go out on the end mark itself. */
  function EndItems(control: int, diags: Diags): (items: seq<Item>)
    ensures items != [] && items[|items| - 1].EndItem? && !HasError(items[|items| - 1].diags)
    ensures |items| == (if HasError(diags) then 2 else 1) && !items[0].RowItem? && items[0].diags == diags
    ensures forall i :: 0 <= i < |items| ==> items[i].control == control
  {
    if diags == [] || !HasError(diags) then [EndItem(control, diags)]
    else [ErrorItem(control, diags), EndItem(control, [])]
  }

  /** Any negative code makes the difference. */
  lemma EndItemsAre(control: int, diags: Diags)
    ensures (exists k :: 0 <= k < |diags| && diags[k] < 0) ==>
              HasError(diags) && EndItems(control, diags) == [ErrorItem(control, diags), EndItem(control, [])]
    ensures (forall k :: 0 <= k < |diags| ==> diags[k] > 0) ==>
              !HasError(diags) && EndItems(control, diags) == [EndItem(control, diags)]
    ensures HasError(diags) <==> exists k :: 0 <= k < |diags| && diags[k] < 0
  {
    if k :| 0 <= k < |diags| && diags[k] < 0 {
      assert diags[k] in diags;
    }
  }
}
