/** Message dispatch: stored procedure requests, GetNext messages and ordinary compile messages, in
    any order, over one compiler context. */
module Connection {
  import opened StoredProcedure
  import opened UnbufferedRun
  import opened PagedReply
  import opened PagedStatement
  import opened CompilerContext
  import opened Paging
  import L = StatementLedger

  /** The objects a request owns. */
  ghost function Repr<S>(r: StatementISP<S>): (objects: set<object>) {
    {r, r.sp, r.input, r.output}
  }

  /** Requests share no state but the diagnostics area, each is in order by itself, and those in `live` have
      more to send. If all messages were `tidy`, none was ever disturbed. */
  ghost predicate Sound<S>(served: set<StatementISP<S>>, live: set<StatementISP<S>>, parts: set<object>, tidy: bool)
    reads parts
  {
    && (forall r {:trigger Repr(r)} :: r in served ==> Repr(r) <= parts)
    && (forall r {:trigger r.Valid()} :: r in served ==> Repr(r) <= parts && r.Valid())
    && (forall q, r {:trigger Repr(q), Repr(r)} :: q in served && r in served && q != r ==> Repr(q) !! Repr(r))
    && (forall r {:trigger r.MoreData()} :: r in served ==> Repr(r) <= parts && (r in live <==> r.MoreData()))
    && (tidy ==> forall r {:trigger r.Undisturbed()} :: r in served ==> Repr(r) <= parts && r.Undisturbed())
  }

  /** All requests use this diagnostics area, and their histories start with them. */
  ghost predicate AllRooted<S>(served: set<StatementISP<S>>, area: DiagsArea) {
    forall r {:trigger r.Rooted()} :: r in served ==> r.Rooted() && r.sp.area == area
  }

  lemma SoundWithout<S>(served: set<StatementISP<S>>, live: set<StatementISP<S>>, parts: set<object>, tidy: bool,
                        r: StatementISP<S>)
    requires Sound(served, live, parts, tidy) && r in served
    ensures Sound(served - {r}, live - {r}, parts - Repr(r), tidy)
  {
    hide StatementISP.Valid, StatementISP.MoreData, StatementISP.Undisturbed;
  }

  lemma SoundAgain<S>(served: set<StatementISP<S>>, live: set<StatementISP<S>>, parts: set<object>, tidy: bool,
                      r: StatementISP<S>, still: bool)
    requires Sound(served - {r}, live - {r}, parts - Repr(r), tidy)
    requires r in served && r in live && Repr(r) <= parts && r.Valid()
    requires still ==> tidy && r.Undisturbed()
    ensures Sound(served, if r.MoreData() then live else live - {r}, parts, still)
  {
    hide StatementISP.Valid, StatementISP.MoreData, StatementISP.Undisturbed;
  }

  lemma SoundStill<S>(served: set<StatementISP<S>>, live: set<StatementISP<S>>, parts: set<object>, tidy: bool,
    still: bool)
    requires Sound(served, live, parts, tidy) && (still ==> tidy)
    ensures Sound(served, live, parts, still)
  {
    hide StatementISP.Valid, StatementISP.MoreData, StatementISP.Undisturbed;
  }

  /** The statements in the list are exactly those of the requests in `holder`. */
  ghost predicate Listed<S>(list: seq<Statement?<S>>, holder: map<StatementISP<S>, Statement<S>>) {
    && (forall r :: r in holder ==> holder[r] in list && holder[r].isp == r)
    && (forall s :: s in list && s != null ==> s.isp != null && s.isp in holder && holder[s.isp] == s)
  }

  lemma ListedWith<S>(list: seq<Statement?<S>>, holder: map<StatementISP<S>, Statement<S>>, s: Statement<S>)
    requires Listed(list, holder) && s.isp != null && s.isp !in holder
    ensures Listed(list + [s], holder[s.isp := s])
  {
  }

  lemma ListedWithout<S>(list: seq<Statement?<S>>, holder: map<StatementISP<S>, Statement<S>>, r: StatementISP<S>)
    requires Listed(list, holder) && L.Distinct(list) && r in holder
    ensures holder[r] in list && Listed(L.Remove(list, holder[r]), holder - {r})
    ensures (holder - {r}).Keys == holder.Keys - {r}
  {
    var s := holder[r];
    L.RemoveIs(list, s);
    var rest := L.Remove(list, s);
    assert forall t :: t in rest <==> t in L.Entries(rest);
  }

  lemma OnlySentinel<S>(list: seq<Statement?<S>>, holder: map<StatementISP<S>, Statement<S>>)
    requires Listed(list, holder) && list != [] && list[0] == null && L.Distinct(list)
    ensures list == [null] <==> holder == map[]
  {
    if list != [null] {
      assert list[1] in list && list[1] != null;
    }
  }

  /** All requests ever received, the statements in the list of those in progress, and the objects that
      requests own; and whether every message so far left the diagnostics area empty. */
  datatype Book<!S> = Book(served: set<StatementISP<S>>, holder: map<StatementISP<S>, Statement<S>>, parts: set<object>,
                           tidy: bool)

  /** The compiler's end of the connection. */
  class ExCmpMessage<S> {
    const context: Context<S>
    ghost var book: Book<S>

    constructor ()
      ensures Valid() && book == Book({}, map[], {}, true) && fresh(context) && fresh(context.area)
      ensures context.Objects() == {} && context.area.diags == []
    {
      context := new Context();
      book := Book({}, map[], {}, true);
    }

    ghost predicate Valid()
      reads this, context, context.Objects(), context.area, book.parts
    {
      && context.Valid() && {context, this, context.area} + context.Objects() !! book.parts
      && Sound(book.served, book.holder.Keys, book.parts, book.tidy) && AllRooted(book.served, context.area)
      && book.holder.Keys <= book.served && Listed(context.statements, book.holder)
      && (book.tidy ==> context.area.diags == [])
    }

    /** All is in order except perhaps the request `r` itself, which has a statement in the list. */
    ghost predicate ValidExcept(r: StatementISP<S>)
      reads this, context, context.Objects(), book.parts - Repr(r)
    {
      && context.Valid() && {context, this, context.area} + context.Objects() !! book.parts
      && Sound(book.served - {r}, book.holder.Keys - {r}, book.parts - Repr(r), book.tidy)
      && AllRooted(book.served, context.area)
      && book.holder.Keys <= book.served && Listed(context.statements, book.holder)
      && r in book.holder && Repr(r) <= book.parts
    }

    /** Finds the first statement in the list that serves the request with this id. */
    method GetISPStatement(id: int) returns (s: Statement?<S>)
      requires context.Valid() && Listed(context.statements, book.holder)
      ensures s == null ==> forall r :: r in book.holder ==> r.id != id
      ensures s != null ==> s in context.statements && s.isp in book.holder && s.isp.id == id
      ensures s != null ==> forall r :: r in book.holder && r.id == id ==>
        L.Index(context.statements, s) <= L.Index(context.statements, book.holder[r])
    {
      for i := 0 to |context.statements|
        invariant forall j :: 0 <= j < i && context.statements[j] != null ==> context.statements[j].isp.id != id
      {
        var t := context.statements[i];
        if t != null && t.isp != null && t.isp.id == id {
          L.IndexIs(context.statements, i);
          forall r | r in book.holder ensures r.id == id ==> i <= L.Index(context.statements, book.holder[r]) {
            L.IndexFinds(context.statements, book.holder[r]);
          }
          return t;
        }
      }
      return null;
    }

    method Find(id: int) returns (s: Statement?<S>)
      requires Valid()
      ensures Valid() && forall q :: q in book.served ==> Repr(q) !! {context, this, context.area} + context.Objects()
      ensures s == null ==> forall r :: r in book.holder ==> r.id != id
      ensures s != null ==> s in context.statements && s.isp != null && s.isp in book.holder && s.isp.id == id
      ensures s != null ==> book.holder[s.isp] == s && Repr(s.isp) <= book.parts
      ensures s != null ==> forall q :: q in book.served && q != s.isp ==> Repr(q) !! Repr(s.isp)
    {
      s := GetISPStatement(id);
    }

    /** An ordinary message: its statement is gone when it is answered. What its processing leaves in the
        diagnostics area stays there while a request is in progress. */
    method OnCompile(left: Diags)
      requires Valid()
      modifies this`book, context, context.Objects()`prv, context.area
      ensures Valid() && context.ledger == old(context.ledger) && context.statements == old(context.statements)
      ensures context.area.diags == if book.holder == map[] then [] else left
      ensures book == old(book).(tidy := old(book.tidy) && context.area.diags == [])
    {
      hide Sound, AllRooted, L.Inv;
      ghost var b := book;
      context.ListFacts();
      OnlySentinel(context.statements, b.holder);
      context.PassingStatement(left);
      ghost var still := b.tidy && context.area.diags == [];
      assert Sound(b.served, b.holder.Keys, b.parts, b.tidy);
      SoundStill(b.served, b.holder.Keys, b.parts, b.tidy, still);
      book := b.(tidy := still);
    }

    /** Deletes the statement of a request that has nothing more to send. */
    method Retire(s: Statement<S>, ghost rest: map<StatementISP<S>, Statement<S>>)
      requires context.Valid() && s in context.statements
      requires {context, this, context.area} + context.Objects() !! book.parts
      requires Sound(book.served, rest.Keys, book.parts, book.tidy) && AllRooted(book.served, context.area)
      requires rest.Keys <= book.served && Listed(L.Remove(context.statements, s), rest)
      modifies this`book, context, context.Objects()`prv, context.area
      ensures Valid() && context.ledger == L.Unset(old(context.ledger), s)
      ensures book == old(book).(holder := rest, tidy := old(book.tidy) && context.area.diags == [])
      ensures context.area.diags == if rest == map[] then [] else old(context.area.diags)
      ensures context.Objects() <= old(context.Objects())
    {
      hide Sound, AllRooted, Listed, L.Inv;
      ghost var b := book;
      context.UnsetStatement(s);
      context.ListFacts();
      OnlySentinel(context.statements, rest);
      assert Sound(b.served, rest.Keys, b.parts, b.tidy);
      ghost var still := b.tidy && context.area.diags == [];
      SoundStill(b.served, rest.Keys, b.parts, b.tidy, still);
      book := b.(holder := rest, tidy := still);
    }

    /** Puts a new statement for the request into the list. */
    method Enlist(isp: StatementISP<S>) returns (s: Statement<S>)
      requires Valid() && isp !in book.served && isp.Rooted() && isp.sp.area == context.area
      requires Repr(isp) !! book.parts + {context, this, context.area} + context.Objects()
      modifies this, context
      ensures ValidExcept(isp) && fresh(s) && book.tidy == old(book.tidy) && book.parts == old(book.parts) + Repr(isp)
      ensures book.holder == old(book.holder)[isp := s] && book.served == old(book.served) + {isp}
      ensures context.ledger == L.Set(old(context.ledger), s) && context.Objects() == old(context.Objects()) + {s}
    {
      hide Sound, AllRooted, Listed, L.Inv, StatementISP.Rooted;
      s := new Statement(isp);
      ListedWith(context.statements, book.holder, s);
      context.SetStatement(s);
      Register(isp, s);
    }

    ghost method Register(isp: StatementISP<S>, s: Statement<S>)
      requires context.Valid() && {context, this, context.area} + context.Objects() !! book.parts + Repr(isp)
      requires Sound(book.served, book.holder.Keys, book.parts, book.tidy) && AllRooted(book.served, context.area)
      requires isp.Rooted() && isp.sp.area == context.area
      requires isp !in book.served && Repr(isp) !! book.parts && book.holder.Keys <= book.served
      requires Listed(context.statements, book.holder[isp := s])
      modifies this
      ensures ValidExcept(isp) && book.tidy == old(book.tidy) && book.parts == old(book.parts) + Repr(isp)
      ensures book.holder == old(book.holder)[isp := s] && book.served == old(book.served) + {isp}
    {
      hide Sound, Listed, L.Inv, StatementISP.Rooted;
      var b := book;
      book := Book(b.served + {isp}, b.holder[isp := s], b.parts + Repr(isp), b.tidy);
      assert Sound(b.served, b.holder.Keys, b.parts, b.tidy);
      assert book.served - {isp} == b.served && book.holder.Keys - {isp} == b.holder.Keys &&
        book.parts - Repr(isp) == b.parts;
    }

    /** Ends the message that was answered for `r`: its statement stays in the list exactly if there
        is more to send. */
    method Settle(r: StatementISP<S>, s: Statement<S>)
      requires ValidExcept(r) && book.holder[r] == s && r.Valid()
      requires book.tidy ==> r.intact && !r.aborted && r.origin.env.context == []
      requires r.MoreData() ==> r.left == context.area.diags
      modifies this`book, context, context.Objects()`prv, context.area
      ensures Valid() && book.served == old(book.served) && book.parts == old(book.parts)
      ensures book.tidy == (old(book.tidy) && context.area.diags == [])
      ensures r.MoreData() ==>
        && book.holder == old(book.holder) && context.ledger == old(context.ledger)
        && context.area.diags == old(context.area.diags)
      ensures !r.MoreData() ==>
        && book.holder == old(book.holder) - {r} && context.ledger == L.Unset(old(context.ledger), s)
        && context.area.diags == if book.holder == map[] then [] else old(context.area.diags)
      ensures unchanged(r) && unchanged(r.output) && unchanged(r.sp) && context.Objects() <= old(context.Objects())
    {
      hide Sound, AllRooted, Listed, Valid, L.Inv, StatementISP.Valid;
      if r.ReadyToDie() {
        Drop(r, s);
      } else {
        Keep(r);
      }
    }

    method Drop(r: StatementISP<S>, s: Statement<S>)
      requires ValidExcept(r) && book.holder[r] == s && r.Valid() && !r.MoreData()
      requires book.tidy ==> r.intact && !r.aborted && r.origin.env.context == []
      modifies this`book, context, context.Objects()`prv, context.area
      ensures Valid() && context.ledger == L.Unset(old(context.ledger), s)
      ensures book.served == old(book.served) && book.parts == old(book.parts) && book.holder == old(book.holder) - {r}
      ensures book.tidy == (old(book.tidy) && context.area.diags == [])
      ensures context.area.diags == if book.holder == map[] then [] else old(context.area.diags)
      ensures unchanged(r) && unchanged(r.output) && unchanged(r.sp) && context.Objects() <= old(context.Objects())
    {
      hide Sound, AllRooted, Listed, Valid, Context.Valid, L.Inv, L.Remove, L.Unset, L.Distinct, StatementISP.Valid;
      SoundAgain(book.served, book.holder.Keys, book.parts, book.tidy, r, book.tidy);
      context.ListFacts();
      ListedWithout(context.statements, book.holder, r);
      Retire(s, book.holder - {r});
    }

    ghost method Keep(r: StatementISP<S>)
      requires ValidExcept(r) && r.Valid() && r.MoreData() && r.left == context.area.diags
      requires book.tidy ==> r.intact && !r.aborted && r.origin.env.context == []
      modifies this`book
      ensures Valid() && book == old(book).(tidy := old(book.tidy) && context.area.diags == [])
    {
      hide Sound, AllRooted, Listed, L.Inv, StatementISP.Valid;
      var still := book.tidy && context.area.diags == [];
      SoundAgain(book.served, book.holder.Keys, book.parts, book.tidy, r, still);
      book := book.(tidy := still);
    }

    /** A request: it is answered by a statement of its own, which starts with what it finds in the diagnostics
        area and stays in the list exactly if the reply says there is more. No other request is touched. */
    method OnRequest(id: int, procedure: Procedure<S>, handle: S, rows: seq<Input>, space: Buffer)
      returns (reply: seq<Item>, areMore: bool, raised: bool, ghost r: StatementISP<S>, ghost s: Statement<S>)
      requires Valid()
      modifies this, context, context.Objects()`prv, context.area
      ensures Valid() && fresh(r) && fresh(Repr(r)) && r.intact && !r.aborted
      ensures book.served == old(book.served) + {r} && book.parts == old(book.parts) + Repr(r)
      ensures r.id == id && r.sp.procedure == procedure &&
        r.origin == Start(procedure, handle, rows, old(context.area.diags))
      ensures r.Answered([], space, reply, areMore, raised)
      ensures book.holder.Keys == old(book.holder.Keys) + if r.MoreData() then {r} else {}
      ensures context.area.diags == if book.holder.Keys == {} then [] else r.left
      ensures book.tidy == (old(book.tidy) && context.area.diags == [])
      ensures fresh(s) && context.Objects() <= old(context.Objects()) + {s}
    {
      hide *;
      var isp := NewRequest(id, procedure, handle, rows, space);
      r := isp;
      reply, areMore, raised, s := Serve(isp);
    }

    method NewRequest(id: int, procedure: Procedure<S>, handle: S, rows: seq<Input>, space: Buffer)
      returns (isp: StatementISP<S>)
      requires Valid()
      ensures Valid() && isp.Rooted() && isp.Unstarted() && fresh(isp) && isp.sp.area == context.area
      ensures isp.id == id && isp.sp.procedure == procedure && isp.output.space == space
      ensures isp.origin == Start(procedure, handle, rows, context.area.diags)
      ensures book.tidy ==> isp.origin.env.context == []
      ensures isp !in book.served && isp !in book.holder.Keys
      ensures Repr(isp) !! book.parts + {context, this, context.area} + context.Objects() && fresh(Repr(isp))
      ensures context.Objects() == old(context.Objects())
    {
      hide Sound, AllRooted, Listed, L.Inv, StatementISP.Unstarted, StatementISP.Rooted;
      isp := new StatementISP(id, procedure, handle, rows, space, context.area);
    }

    method Serve(isp: StatementISP<S>) returns (reply: seq<Item>, areMore: bool, raised: bool, ghost s: Statement<S>)
      requires Valid() && isp !in book.served && isp !in book.holder.Keys && isp.Rooted() && isp.Unstarted()
      requires isp.sp.area == context.area && (book.tidy ==> isp.origin.env.context == [])
      requires Repr(isp) !! book.parts + {context, this, context.area} + context.Objects()
      modifies this, context, context.Objects()`prv, context.area, Repr(isp)
      ensures Valid() && isp.intact && !isp.aborted && isp.Answered([], old(isp.output.space), reply, areMore, raised)
      ensures book.served == old(book.served) + {isp} && book.parts == old(book.parts) + Repr(isp)
      ensures book.holder.Keys == old(book.holder.Keys) + if isp.MoreData() then {isp} else {}
      ensures context.area.diags == if book.holder.Keys == {} then [] else isp.left
      ensures book.tidy == (old(book.tidy) && context.area.diags == [])
      ensures fresh(s) && context.Objects() <= old(context.Objects()) + {s}
    {
      hide Valid, ValidExcept, StatementISP.Valid, StatementISP.Answered, StatementISP.Rooted, StatementISP.Unstarted,
        Context.Objects;
      var t := Enlist(isp);
      s := t;
      reply, areMore, raised := Finish(isp, t);
    }

    method Finish(r: StatementISP<S>, s: Statement<S>) returns (reply: seq<Item>, areMore: bool, raised: bool)
      requires ValidExcept(r) && book.holder[r] == s && r.Unstarted() && r.Rooted() && r.sp.area == context.area
      requires book.tidy ==> r.origin.env.context == []
      modifies this`book, context, context.Objects()`prv, context.area, Repr(r)
      ensures Valid() && r.intact && !r.aborted && r.Answered([], old(r.output.space), reply, areMore, raised)
      ensures book.served == old(book.served) && book.parts == old(book.parts)
      ensures book.holder == if r.MoreData() then old(book.holder) else old(book.holder) - {r}
      ensures context.area.diags == if book.holder == map[] then [] else r.left
      ensures book.tidy == (old(book.tidy) && context.area.diags == [])
      ensures context.Objects() <= old(context.Objects())
    {
      hide Valid, StatementISP.Valid, StatementISP.Answered, StatementISP.Rooted, StatementISP.Unstarted,
        Context.Valid, Context.Objects;
      reply, areMore, raised := RunRequest(r);
      Settle(r, s);
    }

    /** Processing a request touches nothing else but the diagnostics area. */
    method RunRequest(r: StatementISP<S>) returns (reply: seq<Item>, areMore: bool, raised: bool)
      requires ValidExcept(r) && r.Unstarted() && r.Rooted() && r.sp.area == context.area
      modifies Repr(r), context.area
      ensures ValidExcept(r) && r.Valid() && r.intact && !r.aborted && r.left == context.area.diags
      ensures r.Answered([], old(r.output.space), reply, areMore, raised)
    {
      hide Sound, AllRooted, Listed, L.Inv, StatementISP.Valid, StatementISP.Rooted, StatementISP.Unstarted,
        StatementISP.Answered;
      reply, areMore, raised := r.ProcessRequest();
    }

    /** Makes a listed statement the current one, unless diagnostics are left. */
    method Select(s: Statement<S>) returns (refused: bool)
      requires Valid() && s in context.statements
      modifies context
      ensures Valid() && context.ledger == L.SetCurrent(old(context.ledger), s) && refused == (context.area.diags != [])
      ensures context.Objects() == old(context.Objects())
    {
      hide Sound, AllRooted, L.Inv, L.SetCurrent;
      refused := context.SetCurrentStatement(s);
    }

    /** Processing a GetNext message for one request touches no other request. */
    method RunNext(r: StatementISP<S>, space: Buffer) returns (reply: seq<Item>, areMore: bool, raised: bool)
      requires Valid() && r in book.holder
      modifies Repr(r), context.area
      ensures ValidExcept(r) && r.Valid() && context.Objects() == old(context.Objects())
      ensures r.Answered(old(r.sent), space, reply, areMore, raised)
      ensures !r.aborted && r.left == context.area.diags
      ensures r.intact == (old(r.intact) && old(r.left) == old(context.area.diags))
      ensures book.tidy ==> r.intact && r.origin.env.context == []
      ensures (!areMore && !raised ==> reply != []) && (!raised ==> Sends(old(r.output.Pending()), space, reply))
    {
      hide Listed, L.Inv, StatementISP.Valid, StatementISP.Rooted, StatementISP.Answered;
      SoundWithout(book.served, book.holder.Keys, book.parts, book.tidy, r);
      assert r.Rooted() && r.Valid() && r.MoreData() && (book.tidy ==> r.Undisturbed());
      reply, areMore, raised := r.ProcessGetNext(space);
    }

    /** Gives a request up because it found diagnostics in the area. */
    method GiveUp(r: StatementISP<S>, ghost space: Buffer)
      requires Valid() && r in book.holder && !book.tidy
      modifies Repr(r), context.area
      ensures ValidExcept(r) && r.Valid() && context.Objects() == old(context.Objects())
      ensures r.left == context.area.diags == old(r.sp.Closed(Caught(context.area.diags)))
      ensures r.Answered(old(r.sent), space, [], false, true) && r.aborted && r.intact == old(r.intact) && !r.MoreData()
    {
      hide Listed, L.Inv, StatementISP.Valid, StatementISP.Rooted;
      SoundWithout(book.served, book.holder.Keys, book.parts, book.tidy, r);
      assert r.Rooted() && r.Valid() && r.MoreData();
      r.Abort();
      assert r.sent + [] == r.sent;
    }

    /** A GetNext message. An id that no request in progress has is an error. If something is left in the
        diagnostics area the oldest request with the id is given up. Otherwise it goes on exactly where it
        stopped. No other request is touched, and the statement stays in the list exactly if there is still more. */
    method OnGetNext(id: int, space: Buffer)
      returns (reply: seq<Item>, areMore: bool, raised: bool, ghost r: StatementISP?<S>)
      requires Valid()
      modifies this`book, context, context.Objects()`prv, context.area, book.parts
      ensures Valid() && book.served == old(book.served) && book.parts == old(book.parts)
      ensures context.Objects() <= old(context.Objects())
      ensures book.tidy == (old(book.tidy) && context.area.diags == [])
      ensures r == null ==>
        && raised && reply == []
        && (forall q :: q in old(book.holder) ==> q.id != id)
        && book.holder == old(book.holder) && context.ledger == old(context.ledger)
        && context.area.diags == if book.holder == map[] then [] else Caught(old(context.area.diags))
      ensures r != null ==>
        && r in old(book.holder) && r.id == id
        && r.Answered(old(r.sent), space, reply, areMore, raised)
        && r.aborted == (old(context.area.diags) != []) && (r.aborted ==> raised)
        && r.intact == (old(r.intact) && (r.aborted || old(r.left) == []))
        && book.holder == (if r.MoreData() then old(book.holder) else old(book.holder) - {r})
        && context.area.diags == (if book.holder == map[] then [] else r.left)
        && (r.aborted && old(r.sp.state) == NONE ==> r.left == old(context.area.diags))
        && (r.aborted && old(r.sp.state) == PROCESS ==>
              var e := Env(old(r.sp.handle), old(r.sp.output.rowBuffer), old(context.area.diags));
              var x := r.sp.procedure.call(Close, old(r.sp.input.current), e);
              r.left == x.env.context +
                if x.threw || x.status == SpSuccess then old(r.sp.output.diags) else ErrorDiags(x.errors))
        && (!areMore && !raised ==> reply != []) && (!raised ==> Sends(old(r.output.Pending()), space, reply))
      ensures forall q :: q in book.served && q != r ==> unchanged(q, q.sp, q.input, q.output)
    {
      hide Valid, StatementISP.Valid, StatementISP.Answered, InternalSP.Closed, Sends, Caught, ReplyData.Pending,
        L.Unset,
        L.SetCurrent;
      var s := Find(id);
      if s == null {
        Refuse();
        reply, areMore, raised, r := [], false, true, null;
      } else {
        r := s.isp;
        assert r.output.Pending() == old(r.output.Pending());
        r.sp.ClosedIs(context.area.diags);
        reply, areMore, raised := Continue(s.isp, s, space);
      }
    }

    /** A GetNext message for no request. */
    method Refuse()
      requires Valid()
      requires forall q :: q in book.served ==> Repr(q) !! {context, this, context.area} + context.Objects()
      modifies this`book, context, context.Objects()`prv, context.area
      ensures Valid() && context.ledger == old(context.ledger) && context.Objects() <= old(context.Objects())
      ensures book == old(book).(tidy := old(book.tidy) && context.area.diags == [])
      ensures context.area.diags == if book.holder == map[] then [] else Caught(old(context.area.diags))
      ensures forall q :: q in book.served ==> unchanged(q, q.sp, q.input, q.output)
    {
      hide Valid, Caught;
      OnCompile(Caught(context.area.diags));
    }

    method Continue(r: StatementISP<S>, s: Statement<S>, space: Buffer)
      returns (reply: seq<Item>, areMore: bool, raised: bool)
      requires Valid() && r in book.holder && book.holder[r] == s && s in context.statements
      requires Repr(r) <= book.parts && Repr(r) !! {context, this, context.area} + context.Objects()
      requires forall q :: q in book.served ==> Repr(q) !! {context, this, context.area} + context.Objects()
      requires forall q :: q in book.served && q != r ==> Repr(q) !! Repr(r)
      modifies this`book, context, context.Objects()`prv, context.area, Repr(r)
      ensures Valid() && book.served == old(book.served) && book.parts == old(book.parts)
      ensures context.Objects() <= old(context.Objects())
      ensures book.tidy == (old(book.tidy) && context.area.diags == [])
      ensures r.Answered(old(r.sent), space, reply, areMore, raised)
      ensures r.aborted == (old(context.area.diags) != []) && (r.aborted ==> raised)
      ensures r.intact == (old(r.intact) && (r.aborted || old(r.left) == []))
      ensures book.holder == if r.MoreData() then old(book.holder) else old(book.holder) - {r}
      ensures context.area.diags == if book.holder == map[] then [] else r.left
      ensures r.aborted ==> r.left == old(r.sp.Closed(Caught(context.area.diags)))
      ensures (!areMore && !raised ==> reply != []) && (!raised ==> Sends(old(r.output.Pending()), space, reply))
      ensures forall q :: q in book.served && q != r ==> unchanged(q, q.sp, q.input, q.output)
    {
      hide Valid, ValidExcept, StatementISP.Valid, StatementISP.Answered, InternalSP.Closed, Sends, ReplyData.Pending,
        Context.Valid, Context.Objects, L.Unset;
      reply, areMore, raised := Process(r, s, space);
      Settle(r, s);
    }

    /** Goes on with a request, or gives it up. */
    method Process(r: StatementISP<S>, s: Statement<S>, space: Buffer)
      returns (reply: seq<Item>, areMore: bool, raised: bool)
      requires Valid() && r in book.holder && book.holder[r] == s && s in context.statements
      requires Repr(r) <= book.parts && Repr(r) !! {context, this, context.area} + context.Objects()
      modifies context, context.area, Repr(r)
      ensures ValidExcept(r) && r.Valid() && context.Objects() == old(context.Objects())
      ensures r.Answered(old(r.sent), space, reply, areMore, raised)
      ensures r.aborted == (old(context.area.diags) != []) && (r.aborted ==> raised)
      ensures r.intact == (old(r.intact) && (r.aborted || old(r.left) == []))
      ensures r.MoreData() ==> !r.aborted
      ensures r.left == context.area.diags
      ensures r.aborted ==> r.left == old(r.sp.Closed(Caught(context.area.diags)))
      ensures book.tidy ==> r.intact && !r.aborted && r.origin.env.context == []
      ensures (!areMore && !raised ==> reply != []) && (!raised ==> Sends(old(r.output.Pending()), space, reply))
    {
      hide Sound, AllRooted, Listed, Context.Valid, ValidExcept, StatementISP.Valid, StatementISP.Answered,
        InternalSP.Closed, Sends, ReplyData.Pending, L.SetCurrent;
      var refused := Select(s);
      if refused {
        GiveUp(r, space);
        reply, areMore, raised := [], false, true;
      } else {
        reply, areMore, raised := RunNext(r, space);
      }
    }
  }

  lemma RequestsAreApart<S>(c: ExCmpMessage<S>, r: StatementISP<S>)
    requires c.Valid() && r in c.book.served
    ensures Repr(r) <= c.book.parts && Repr(r) !! {c, c.context, c.context.area} + c.context.Objects()
  {
    hide StatementISP.Valid, StatementISP.Rooted, Listed, L.Inv;
    assert Repr(r) <= c.book.parts;
  }

  /** What a request may rely on in every state: it has its own history, and as long as its messages found the
      diagnostics area as it had left it, that is the unbuffered run from what its first message found there. */
  lemma RequestHasItsRun<S>(c: ExCmpMessage<S>, r: StatementISP<S>)
    requires c.Valid() && r in c.book.served
    ensures r.Valid() && r.Rooted() && (r in c.book.holder <==> r.MoreData())
    ensures r.history.Ran? && r.sent <= r.history.items && OpenedInputs(r.sp.calls) <= r.input.rows
    ensures r.intact ==> RunFor(Machine(r.sp.procedure), r.origin, r.steps) == r.history
    ensures c.book.tidy ==> r.Undisturbed()
  {
    hide StatementISP.Valid, StatementISP.Rooted, Listed, L.Inv;
    assert r.Valid() && r.Rooted() && (r in c.book.holder <==> r.MoreData());
    assert c.book.tidy ==> r.Undisturbed();
    SentIsPrefix(r, 0);
    CallsAreOrderly(r);
  }

  /** Interleaving is invisible to a request whose own messages find the diagnostics area as it should be: empty
      at first, and then as it left it. What it was sent is then a prefix of the output of its own unbuffered run,
      it stays in the list exactly while it is a proper one and it is not ended by an exception, and such an
      exception is one of its own run unless it was given up. This holds for procedures that never stop, too, and
      whatever the messages of others find and leave. */
  lemma EachRequestRunsAlone<S>(c: ExCmpMessage<S>, r: StatementISP<S>, k: nat)
    requires c.Valid() && r in c.book.served && r.intact && r.origin.env.context == []
    ensures
      var p := r.sp.procedure;
      var start := Start(p, r.origin.env.handle, r.input.rows, []);
      var alone := RunFor(Machine(p), start, r.steps);
      && alone.Ran? && r.sent <= alone.items
      && (r in c.book.holder <==> !r.exceptionRaised && r.sent != alone.items)
      && (r !in c.book.holder && !r.exceptionRaised ==> Step(p, alone.conf) == Finished)
      && (r.exceptionRaised && !r.aborted ==> Step(p, alone.conf) == Raised)
      && (r !in c.book.holder && !r.aborted && RunFor(Machine(p), start, k).Ran? ==>
            RunFor(Machine(p), start, k).items <= alone.items)
  {
    hide StatementISP.Valid, Listed, L.Inv, Sound, Start, RunFor, Step, ExCmpMessage.Valid;
    RequestHasItsRun(c, r);
    SentIsPrefix(r, k);
  }

  /** As long as every message leaves the diagnostics area empty, that is so for all requests. */
  lemma TidyLeavesAllAlone<S>(c: ExCmpMessage<S>, r: StatementISP<S>)
    requires c.Valid() && c.book.tidy && r in c.book.served
    ensures r.intact && r.origin.env.context == [] && !r.aborted
  {
    RequestHasItsRun(c, r);
  }

  /** So a procedure that stops is answered completely, and with nothing else, exactly by the time its request
      leaves the list. */
  lemma EachRequestIsAnswered<S>(c: ExCmpMessage<S>, r: StatementISP<S>, counts: seq<nat>)
    requires c.Valid() && r in c.book.served && r.intact && !r.aborted && r.origin.env.context == []
    requires |counts| == |r.input.rows| && AnswersAll(r.sp.procedure, r.origin.env, r.input.rows, counts)
    ensures !r.exceptionRaised
    ensures
      var whole := WholeOutput(r.sp.procedure, r.origin.env, r.input.rows, counts);
      r.sent <= whole && (r.sent == whole <==> r !in c.book.holder)
  {
    hide StatementISP.Valid, StatementISP.Rooted, AnswersAll, WholeOutput, Listed, L.Inv, Sound, ExCmpMessage.Valid;
    RequestHasItsRun(c, r);
    RepliesAreWholeOutput(r, counts);
  }
}
