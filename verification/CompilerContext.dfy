/** The compiler context keeps the statements in progress. Statements need not end in the order in
    which they began: those of stored procedure requests outlive the message that created them. */
module CompilerContext {
  import opened StoredProcedure
  import opened PagedStatement
  import L = StatementLedger

  /** A statement; `isp` is null unless it serves a stored procedure request. */
  class Statement<S> {
    const isp: StatementISP?<S>
    var prv: Statement?<S>

    constructor (isp: StatementISP?<S>)
      ensures this.isp == isp
    {
      this.isp, prv := isp, null;
    }
  }

  /** The list, the links inside its statements, the current position, a cached pointer to the statement
      there, and the diagnostics area. `ledger` is the list, links and position as a value. */
  class Context<S> {
    var statements: seq<Statement?<S>>
    var current: nat
    var cache: Statement?<S>
    const area: DiagsArea
    ghost var ledger: L.Ledger<Statement?<S>>

    constructor ()
      ensures Valid() && statements == [null] && fresh(area) && area.diags == []
    {
      statements, current, cache := [null], 0, null;
      area := new DiagsArea();
      ledger := L.Ledger([null], map[], 0);
    }

    ghost function Objects(): (objects: set<Statement<S>>)
      reads this
    {
      set s: Statement<S> | s in statements
    }

    ghost predicate Valid()
      reads this, Objects()
    {
      && L.Inv(ledger)
      && ledger.list == statements && ledger.current == current
      && statements[0] == null && cache == statements[current]
      && (forall s :: s in statements && s != null ==> s in ledger.prv)
      && (forall s {:trigger s.prv} :: s in statements && s != null ==> s.prv == ledger.prv[s])
    }

    lemma ListFacts()
      requires Valid()
      ensures statements != [] && statements[0] == null && L.Distinct(statements)
    {
    }

    method SetStatement(s: Statement<S>)
      requires Valid() && s !in statements
      modifies this, s`prv
      ensures Valid() && ledger == L.Set(old(ledger), s) && statements == old(statements) + [s]
    {
      L.SetKeepsInv(ledger, s);
      ledger := L.Set(ledger, s);
      statements := statements + [s];
      s.prv := statements[current];
      current := L.Index(statements, s);
      cache := statements[current];
    }

    /** Takes a statement out of the list; its predecessor becomes the current statement, and the
        predecessor of the statements that came after it. The diagnostics area is cleared when no
        statement is left. */
    method UnsetStatement(s: Statement<S>)
      requires Valid() && s in statements
      modifies this, Objects()`prv, area
      ensures Valid() && ledger == L.Unset(old(ledger), s) && Objects() == old(Objects()) - {s}
      ensures area.diags == if statements == [null] then [] else old(area.diags)
    {
      hide Valid, L.Unset;
      Unlink(s);
      if |statements| == 1 {
        area.diags := [];
      }
    }

    method Unlink(s: Statement<S>)
      requires Valid() && s in statements
      modifies this, Objects()`prv
      ensures Valid() && ledger == L.Unset(old(ledger), s) && Objects() == old(Objects()) - {s}
      ensures statements != [] && statements[0] == null
    {
      hide L.Inv, L.Unset, L.Remove, L.Index, L.Distinct;
      ghost var prv := ledger.prv;
      L.UnsetKeepsInv(ledger, s);
      L.UnsetEntries(ledger, s);
      ledger := L.Unset(ledger, s);
      statements := L.Remove(statements, s);
      current := L.Index(statements, s.prv);
      cache := statements[current];
      Relink(s, prv);
    }

    /** Moves the statements that have `s` as their predecessor to the predecessor of `s`. */
    method Relink(s: Statement<S>, ghost prv: map<Statement?<S>, Statement?<S>>)
      requires L.Distinct(statements) && s !in statements && s in prv && prv[s] == s.prv
      requires forall t :: t in statements && t != null ==> t in prv
      requires forall t {:trigger t.prv} :: t in statements && t != null ==> t.prv == prv[t]
      modifies Objects()`prv
      ensures forall t {:trigger t.prv} :: t in statements && t != null ==>
        t.prv == if prv[t] == s then prv[s] else prv[t]
    {
      for i := 0 to |statements|
        invariant forall j :: 0 <= j < |statements| && statements[j] != null ==>
          statements[j].prv == if j < i && prv[statements[j]] == s then prv[s] else prv[statements[j]]
      {
        if statements[i] != null && statements[i].prv == s {
          statements[i].prv := s.prv;
        }
      }
    }

    /** Switches to a statement; the switch is refused after the fact if diagnostics are left. */
    method SetCurrentStatement(s: Statement?<S>) returns (raised: bool)
      requires Valid()
      modifies this`current, this`cache, this`ledger
      ensures Valid() && ledger == L.SetCurrent(old(ledger), s) && raised == (area.diags != [])
    {
      L.SetCurrentKeepsInv(ledger, s);
      L.IndexFinds(statements, s);
      ledger := L.SetCurrent(ledger, s);
      var i := L.Index(statements, s);
      current := if i == |statements| then 0 else i;
      cache := statements[current];
      raised := area.diags != [];
    }

    /** A statement that comes and goes leaves the list as it was, and in the diagnostics area what its
        processing left there, unless it was the only one. */
    method PassingStatement(left: Diags)
      requires Valid()
      modifies this, Objects()`prv, area
      ensures Valid() && ledger == old(ledger) && statements == old(statements)
      ensures area.diags == if statements == [null] then [] else left
    {
      hide L.Inv, L.Set, L.Unset, L.Remove, L.Index, L.Distinct;
      var s := new Statement(null);
      L.UnsetAfterSet(ledger, s);
      SetStatement(s);
      area.diags := left;
      UnsetStatement(s);
    }
  }
}
