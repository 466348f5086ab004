/** The procedure that lists the query cache: a cursor over the entries of two lists, one after the other. */
module CacheEntries {
  import opened StoredProcedure
  import opened UnbufferedRun

  /** The details of the pre-parser and the post-parser entries. Each list is a ring through its anchor;
      `anchor` is what the details of the post-parser anchor come to when it is taken for an entry. */
  datatype Cache = Cache(pre: seq<Row>, post: seq<Row>, anchor: Row)

  /** A place in one of the rings; the place after the last entry is the anchor. */
  datatype Place = Pre(k: nat) | Post(k: nat)

  datatype Info = Info(counter: nat, at: Place)

  datatype Handle = Null | Cursor(info: Info)

  predicate IsEmpty(cache: Cache) {
    cache.pre == [] && cache.post == []
  }

  /** The next place in the ring. */
  function Next(cache: Cache, at: Place): (r: Place) {
    match at
    case Pre(k) => Pre(if k < |cache.pre| then k + 1 else 0)
    case Post(k) => Post(if k < |cache.post| then k + 1 else 0)
  }

  /** The details at a place. */
  function Details(cache: Cache, at: Place): (r: Row) {
    match at
    case Pre(k) => if k < |cache.pre| then cache.pre[k] else cache.anchor
    case Post(k) => if k < |cache.post| then cache.post[k] else cache.anchor
  }

  datatype Fetched = Done | Got(row: Row, info: Info)

  function FetchOne(cache: Cache, info: Info): (r: Fetched) {
    if IsEmpty(cache) || info.at == Post(|cache.post|) then Done
    else
      var at := if info.at == Pre(|cache.pre|) then Post(0) else info.at;
      Got([info.counter] + Details(cache, at), Info(info.counter + 1, Next(cache, at)))
  }

  function Process(cache: Cache, action: Action, env: Env<Handle>): (r: Reply<Handle>) {
    match action
    case Open => Reply(false, SpSuccess, [0, 0, 0, 0, 0], env.(handle := Cursor(Info(0, Pre(0)))))
    case Close => Reply(false, SpSuccess, [0, 0, 0, 0, 0], env)
    case Fetch =>
      if IsEmpty(cache) then Reply(false, SpSuccess, [0, 0, 0, 0, 0], env)
      else if env.handle == Null then Reply(false, SpFail, [0, 0, 0, 0, 0], env)
      else
        match FetchOne(cache, env.handle.info)
        case Done => Reply(false, SpSuccess, [0, 0, 0, 0, 0], env)
        case Got(row, info) => Reply(false, SpMoreData, [0, 0, 0, 0, 0], Env(Cursor(info), row, env.context))
  }

  function Lister(cache: Cache, rowLength: nat): (p: Procedure<Handle>) {
    Procedure((action, _, env) => Process(cache, action, env), rowLength)
  }

  /** What is listed: all entries in order; and the anchor, if the second list is empty and the first is not. */
  function Listing(cache: Cache): (r: seq<Row>) {
    cache.pre + cache.post + if cache.post == [] && cache.pre != [] then [cache.anchor] else []
  }

  /** The place reached after `m` rows. */
  function PlaceAfter(cache: Cache, m: nat): (r: Place) {
    if m <= |cache.pre| then Pre(m) else Post(if cache.post == [] then 0 else m - |cache.pre|)
  }

  /** The rows with their numbers in front. */
  function Numbered(rows: seq<Row>): (r: seq<Row>) {
    seq(|rows|, k requires 0 <= k < |rows| => [k] + rows[k])
  }

  function RowItems(control: int, rows: seq<Row>): (r: seq<Item>)
    ensures |r| == |rows| && forall k :: 0 <= k < |rows| ==> r[k] == RowItem(control, Numbered(rows)[k])
  {
    seq(|rows|, k requires 0 <= k < |rows| => RowItem(control, [k] + rows[k]))
  }

  /** The cursor as it is kept between calls. */
  class InfoStruct {
    var counter: nat
    var iter: Place

    constructor ()
      ensures counter == 0 && iter == Pre(0)
    {
      counter, iter := 0, Pre(0);
    }

    /** The cursor is as far in the lists as the counter says. */
    predicate Valid(cache: Cache)
      reads this
    {
      counter <= |Listing(cache)| && iter == PlaceAfter(cache, counter)
    }

    /** Delivers the next row of the listing with its number, or reports the end and stays there. */
    method Fetch(cache: Cache) returns (more: bool, row: Row)
      requires Valid(cache)
      modifies this
      ensures Valid(cache) && (more <==> old(counter) < |Listing(cache)|)
      ensures more ==> counter == old(counter) + 1 && row == [old(counter)] + Listing(cache)[old(counter)]
      ensures !more ==> counter == old(counter)
    {
      row := [];
      if |cache.pre| == 0 && |cache.post| == 0 {
        return false, row;
      }
      if iter == Post(|cache.post|) {
        return false, row;
      }
      if iter == Pre(|cache.pre|) {
        iter := Post(0);
      }
      row := [counter] + Details(cache, iter);
      iter := Next(cache, iter);
      counter := counter + 1;
      more := true;
    }
  }

  /** All fetches after an OPEN, until one reports the end: the listing, numbered from zero. */
  method FetchAll(cache: Cache) returns (rows: seq<Row>)
    ensures rows == Numbered(Listing(cache))
  {
    var info := new InfoStruct();
    rows := [];
    var more, row := info.Fetch(cache);
    while more
      invariant fresh(info) && info.Valid(cache) && |rows| + (if more then 1 else 0) == info.counter
      invariant more ==> row == [|rows|] + Listing(cache)[|rows|]
      invariant !more ==> info.counter == |Listing(cache)|
      invariant rows == Numbered(Listing(cache)[..|rows|])
      decreases |Listing(cache)| - |rows|
    {
      rows := rows + [row];
      more, row := info.Fetch(cache);
    }
    assert Listing(cache)[..|rows|] == Listing(cache);
  }

  /** One more row. */
  lemma FetchGives(cache: Cache, m: nat)
    ensures var f := FetchOne(cache, Info(m, PlaceAfter(cache, m)));
            && (m < |Listing(cache)| ==>
                  !IsEmpty(cache) && f == Got([m] + Listing(cache)[m], Info(m + 1, PlaceAfter(cache, m + 1))))
            && (m == |Listing(cache)| ==> f == Done)
  {
  }

  /** The rows of a fetch phase, from the first one on. */
  lemma {:induction false} FetchesGive(cache: Cache, rowLength: nat, input: Input, env: Env<Handle>, m: nat)
    requires env.handle == Cursor(Info(0, Pre(0))) && env.context == [] && m <= |Listing(cache)|
    ensures var p := Lister(cache, rowLength);
            && Delivers(p, input, env, m) && MergedContext(p, input, env, m) == []
            && FetchEnv(p, input, env, m).handle == Cursor(Info(m, PlaceAfter(cache, m)))
            && FetchEnv(p, input, env, m).context == []
            && Rows(p, input, env, m) == RowItems(input.control, Listing(cache)[..m])
  {
    hide FetchOne, Listing, Details, Next;
    if m > 0 {
      FetchesGive(cache, rowLength, input, env, m - 1);
      FetchGives(cache, m - 1);
      assert Listing(cache)[..m][..m - 1] == Listing(cache)[..m - 1];
    }
  }

  /** For every input: the rows of the listing, numbered from zero, and then the end. */
  lemma ListingIsAnswered(cache: Cache, rowLength: nat, input: Input, env: Env<Handle>)
    requires env.context == []
    ensures var p := Lister(cache, rowLength); var n := |Listing(cache)|;
            && Answers(p, env, input, n)
            && Answer(p, env, input, n) == RowItems(input.control, Listing(cache)) + [EndItem(input.control, [])]
  {
    var p, n := Lister(cache, rowLength), |Listing(cache)|;
    var start := p.call(Open, input, env).env;
    FetchesGive(cache, rowLength, input, start, n);
    FetchGives(cache, n);
    assert Listing(cache)[..n] == Listing(cache);
  }

  /** A request is sent every entry of both lists exactly once, and nothing else, exactly when the second list
      is not empty or both are. */
  lemma ListsEntriesOnly(cache: Cache, rowLength: nat, input: Input, env: Env<Handle>)
    requires env.context == []
    ensures Answer(Lister(cache, rowLength), env, input, |Listing(cache)|)
              == RowItems(input.control, cache.pre + cache.post) + [EndItem(input.control, [])]
            <==> cache.post != [] || cache.pre == []
  {
    hide Answer, Answers;
    ListingIsAnswered(cache, rowLength, input, env);
    var entries := cache.pre + cache.post;
    var sent := RowItems(input.control, Listing(cache)) + [EndItem(input.control, [])];
    assert |sent| == |Listing(cache)| + 1 && |RowItems(input.control, entries)| == |entries|;
  }

  /** With one entry in the first list and none in the second, two rows are sent. */
  lemma AnchorIsListed(entry: Row, anchor: Row, input: Input, env: Env<Handle>)
    requires env.context == []
    ensures var cache := Cache([entry], [], anchor);
            Answer(Lister(cache, 0), env, input, 2)
              == [RowItem(input.control, [0] + entry), RowItem(input.control, [1] + anchor), EndItem(input.control, [])]
  {
    hide Answer, Answers;
    var cache := Cache([entry], [], anchor);
    assert Listing(cache) == [entry, anchor];
    ListingIsAnswered(cache, 0, input, env);
    assert RowItems(input.control, [entry, anchor])
        == [RowItem(input.control, [0] + entry), RowItem(input.control, [1] + anchor)];
  }

  /** A fetch without a cursor fails, unless there is nothing to list. */
  lemma NoCursorFails(cache: Cache, env: Env<Handle>)
    requires env.handle == Null
    ensures Process(cache, Fetch, env).status == if cache.pre == [] && cache.post == [] then SpSuccess else SpFail
    ensures Process(cache, Fetch, env).env == env && !Process(cache, Fetch, env).threw
  {
  }

  /** After the last row every further fetch reports the end. */
  lemma {:induction false} EndIsKept(cache: Cache, rowLength: nat, input: Input, env: Env<Handle>, m: nat)
    requires env.handle == Cursor(Info(0, Pre(0))) && env.context == [] && m >= |Listing(cache)|
    ensures FetchReply(Lister(cache, rowLength), input, env, m).status == SpSuccess
    ensures FetchEnv(Lister(cache, rowLength), input, env, m).handle ==
              Cursor(Info(|Listing(cache)|, PlaceAfter(cache, |Listing(cache)|)))
  {
    FetchGives(cache, |Listing(cache)|);
    if m == |Listing(cache)| {
      FetchesGive(cache, rowLength, input, env, m);
    } else {
      EndIsKept(cache, rowLength, input, env, m - 1);
    }
  }

  ghost function Listings(cache: Cache, inputs: seq<Input>): (r: seq<Item>) {
    if inputs == [] then [] else
    RowItems(inputs[0].control, Listing(cache)) + [EndItem(inputs[0].control, [])] + Listings(cache, inputs[1..])
  }

  /** A whole request: for every list of inputs the output is the listing once per input. */
  lemma {:induction false} ListedForEveryInput(cache: Cache, rowLength: nat, inputs: seq<Input>, env: Env<Handle>,
                                               counts: seq<nat>)
    requires env.context == [] && |counts| == |inputs| && forall k :: 0 <= k < |counts| ==>
      counts[k] == |Listing(cache)|
    ensures AnswersAll(Lister(cache, rowLength), env, inputs, counts)
    ensures WholeOutput(Lister(cache, rowLength), env, inputs, counts) == Listings(cache, inputs)
    decreases |inputs|
  {
    hide Answers, Answer, Listing, RowItems;
    if inputs != [] {
      var p := Lister(cache, rowLength);
      ListingIsAnswered(cache, rowLength, inputs[0], env);
      var after := EnvAfter(p, env, inputs[0], counts[0]);
      ListedForEveryInput(cache, rowLength, inputs[1..], after, counts[1..]);
    }
  }
}
