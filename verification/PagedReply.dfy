/** The reply side of an internal stored procedure request. Output goes into a reply buffer of
    limited size; when it is full the statement stops where it is, keeps what did not fit, and goes
    on when the executor asks for more. */
module PagedReply {
  import opened StoredProcedure
  import opened UnbufferedRun

  /** A reply buffer: it holds at most `slots` items, and `room` says whether one more item fits
      behind the given ones. Nothing else is assumed about sizes. */
  datatype Buffer = Buffer(slots: nat, room: (seq<Item>, Item) -> bool)

  predicate Fits(b: Buffer, contents: seq<Item>, item: Item) {
    |contents| < b.slots && b.room(contents, item)
  }

  /** Every item of the reply fitted behind those before it. */
  ghost predicate Packed(b: Buffer, contents: seq<Item>) {
    forall i :: 0 <= i < |contents| ==> Fits(b, contents[..i], contents[i])
  }

  lemma PackedMore(b: Buffer, contents: seq<Item>, item: Item)
    requires Packed(b, contents) && Fits(b, contents, item)
    ensures Packed(b, contents + [item])
  {
    var more := contents + [item];
    forall i | 0 <= i < |more| ensures Fits(b, more[..i], more[i]) {
      assert more[..i] == contents[..i];
    }
  }

  lemma PackedIsBounded(b: Buffer, contents: seq<Item>)
    requires Packed(b, contents)
    ensures |contents| <= b.slots && forall i :: 0 <= i < |contents| ==> b.room(contents[..i], contents[i])
  {
    var n := |contents| - 1;
    if n >= 0 {
      assert Fits(b, contents[..n], contents[n]);
    }
  }

  /** If the first of the pending items fits into an empty buffer, something is sent. */
  ghost predicate Sends(pending: seq<Item>, space: Buffer, reply: seq<Item>) {
    pending != [] && Fits(space, [], pending[0]) ==> reply != []
  }

  datatype ExecStatus = SUCCESS | MOREDATA | FAIL | EXCEPTION

  datatype InterfaceState = NONE | PROCESS

  // Results of putting something into the reply buffer.
  const STORED := 0
  const FULL := 1
  const STORED_WITH_END := 2

  /** The rows sent with the request, read one after the other. */
  class InputData {
    const rows: seq<Input>
    var position: nat
    var current: Input

    constructor (rows: seq<Input>)
      ensures this.rows == rows && position == 0
    {
      this.rows, position, current := rows, 0, Input(0, []);
    }

    ghost predicate Valid()
      reads this
    {
      position <= |rows|
    }

    method Next() returns (more: bool)
      requires Valid()
      modifies this
      ensures Valid() && more == (old(position) < |rows|)
      ensures more ==> position == old(position) + 1 && current == rows[old(position)]
      ensures !more ==> position == old(position) && current == old(current)
    {
      more := position < |rows|;
      if more {
        current, position := rows[position], position + 1;
      }
    }
  }

  /** The reply under construction and the flags that say what is still to be put into it. */
  class ReplyData {
    const input: InputData
    const rowLength: nat
    var space: Buffer
    var data: seq<Item>
    var rowBuffer: Row
    var diags: Diags
    var rowExist: bool
    var diagsExist: bool
    var eorExist: bool

    constructor (input: InputData, rowLength: nat, space: Buffer)
      ensures this.input == input && this.rowLength == rowLength && this.space == space
      ensures data == [] && rowBuffer == ZeroRow(rowLength) && diags == []
      ensures !rowExist && !diagsExist && !eorExist
    {
      this.input, this.rowLength, this.space := input, rowLength, space;
      data, rowBuffer, diags := [], ZeroRow(rowLength), [];
      rowExist, diagsExist, eorExist := false, false, false;
    }

    ghost predicate Valid()
      reads this
    {
      (diagsExist <==> diags != []) && (diagsExist ==> eorExist) && Packed(space, data)
    }

    /** What is computed but not yet stored: a row, or the end of an input. */
    ghost function Pending(): (items: seq<Item>)
      reads this, input
    {
      if rowExist then [RowItem(input.current.control, rowBuffer)]
      else if eorExist then EndItems(input.current.control, diags)
      else []
    }

    predicate MoreData()
      reads this
    {
      rowExist || eorExist
    }

    method AllocateData(space: Buffer)
      requires Valid()
      modifies this`space, this`data
      ensures Valid() && this.space == space && data == []
    {
      this.space, data := space, [];
    }

    method Put(item: Item) returns (stored: bool)
      requires Packed(space, data)
      modifies this`data
      ensures Packed(space, data) && stored == (|old(data)| < space.slots && space.room(old(data), item))
      ensures data == if stored then old(data) + [item] else old(data)
    {
      stored := Fits(space, data, item);
      if stored {
        PackedMore(space, data, item);
        data := data + [item];
      }
    }

    /** Puts an end mark, or diagnostics: errors are followed by the end mark later, warnings are
        stored together with it. */
    method PutEnd(d: Diags) returns (status: int)
      requires Packed(space, data)
      modifies this`data
      ensures Packed(space, data)
      ensures status == FULL <==> !Fits(space, old(data), EndItems(input.current.control, d)[0])
      ensures status != FULL ==> data == old(data) + [EndItems(input.current.control, d)[0]]
      ensures status == FULL ==> data == old(data)
      ensures status == STORED_WITH_END <==> status != FULL && d != [] && forall k :: 0 <= k < |d| ==> d[k] > 0
      ensures status != FULL && (exists k :: 0 <= k < |d| && d[k] < 0) ==>
        data == old(data) + [ErrorItem(input.current.control, d)]
    {
      EndItemsAre(input.current.control, d);
      hide Packed;
      var control := input.current.control;
      var stored := Put(if d != [] && HasError(d) then ErrorItem(control, d) else EndItem(control, d));
      status := if !stored then FULL else if d != [] && !HasError(d) then STORED_WITH_END else STORED;
    }

    method MoveDiags(errors: ErrorSlots)
      requires Valid()
      modifies this`diags, this`diagsExist, this`eorExist
      ensures Valid() && diagsExist && eorExist && diags == ErrorDiags(errors)
    {
      diagsExist, eorExist, diags := true, true, [];
      diags := AppendErrors(errors, diags);
      assert [] + ErrorDiags(errors) == ErrorDiags(errors);
    }

    method MergeDiags(context: Diags)
      requires Valid()
      modifies this`diags, this`diagsExist, this`eorExist
      ensures Valid() && diags == old(diags) + context
      ensures eorExist == (old(eorExist) || context != [])
    {
      if context == [] {
        assert diags + context == diags;
        return;
      }
      diagsExist, eorExist, diags := true, true, diags + context;
    }

    /** Stores the row, or keeps it if it does not fit. */
    method AddARow() returns (status: int)
      requires Valid()
      modifies this`data, this`rowExist, this`rowBuffer
      ensures status == FULL <==> !Fits(space, old(data), RowItem(input.current.control, old(rowBuffer)))
      ensures Valid() && rowExist == (status == FULL)
      ensures status == FULL ==> data == old(data) && rowBuffer == old(rowBuffer)
      ensures status != FULL ==>
        && data == old(data) + [RowItem(input.current.control, old(rowBuffer))]
        && rowBuffer == ZeroRow(rowLength)
    {
      hide Packed;
      rowExist := true;
      var stored := Put(RowItem(input.current.control, rowBuffer));
      if !stored {
        return FULL;
      }
      rowBuffer, rowExist := ZeroRow(rowLength), false;
      status := STORED;
    }

    /** Stores the diagnostics and the end mark, or as much of that as fits; the rest stays pending. */
    method AddEOR() returns (status: int)
      requires Valid() && !rowExist
      modifies this`data, this`diags, this`diagsExist, this`eorExist
      ensures Valid() && eorExist == (status == FULL)
      ensures data + Pending() == old(data + EndItems(input.current.control, diags))
      ensures (exists k :: 0 <= k < |old(diags)| && old(diags)[k] < 0) ==>
        data + Pending() ==
          old(data) + [ErrorItem(input.current.control, old(diags)), EndItem(input.current.control, [])]
      ensures (forall k :: 0 <= k < |old(diags)| ==> old(diags)[k] > 0) ==>
        data + Pending() == old(data) + [EndItem(input.current.control, old(diags))]
      ensures old(data) <= data
      ensures status == FULL ==> !Fits(space, data, Pending()[0])
      ensures Fits(space, old(data), old(EndItems(input.current.control, diags))[0]) ==> |data| > |old(data)|
    {
      hide Packed;
      EndItemsAre(input.current.control, diags);
      status, eorExist := STORED, true;
      if diagsExist {
        status := PutEnd(diags);
        if status == FULL {
          return;
        }
        diagsExist, diags := false, [];
      }
      if status != STORED_WITH_END {
        status := PutEnd([]);
      }
      if status == FULL {
        return;
      }
      eorExist := false;
    }
  }
}
