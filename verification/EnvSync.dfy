/** What synchronising with a received list of entries does to the environment: a variable is written
    only when it differs from what was received last time, and a dropped variable is set to nothing. */
module EnvSync {
  import opened EnvEntries

  predicate Maps(env: Environment, n: string, v: string) {
    n in env && env[n] == v
  }

  /** The environment has every managed variable with the value received last. */
  ghost predicate Coherent(managed: Environment, environ: Environment) {
    forall n :: n in managed ==> Maps(environ, n, managed[n])
  }

  /** The entry is written when what is managed so far does not have it. */
  predicate Differs(managed: Environment, e: string) {
    HasValue(e) && !Maps(managed, Name(e), Value(e))
  }

  /** The environment after all new and changed entries were written. */
  ghost function Added(managed: Environment, environ: Environment, es: seq<string>): (r: Environment) {
    if es == [] then environ else
    var rest := es[..|es| - 1];
    var before := Added(managed, environ, rest);
    if Differs(PutAll(managed, rest), es[|es| - 1]) then Put(before, es[|es| - 1]) else before
  }

  /** The names written meanwhile, in order. */
  ghost function AddedNames(managed: Environment, es: seq<string>): (r: seq<string>) {
    if es == [] then [] else
    var rest := es[..|es| - 1];
    AddedNames(managed, rest) + if Differs(PutAll(managed, rest), es[|es| - 1]) then [Name(es[|es| - 1])] else []
  }

  /** The managed variables whose entry is in the list, letter by letter. */
  ghost function Kept(managed: Environment, es: seq<string>): (r: Environment) {
    map n | n in managed && n + "=" + managed[n] in es :: managed[n]
  }

  ghost function Emptied(names: set<string>): (r: Environment) {
    map n | n in names :: ""
  }

  /** The environment after the whole synchronisation. */
  ghost function Synced(managed: Environment, environ: Environment, es: seq<string>): (r: Environment) {
    Added(managed, environ, es) + Emptied(managed.Keys - Meaning(es).Keys)
  }

  /** Once the new and changed entries are added, exactly the variables of the list are kept. */
  lemma KeptAfterAdding(managed: Environment, es: seq<string>)
    requires forall n :: n in managed ==> '=' !in n
    ensures Kept(PutAll(managed, es), es) == Meaning(es)
    ensures PutAll(managed, es).Keys - Meaning(es).Keys == managed.Keys - Meaning(es).Keys
  {
    hide PutAll, Meaning;
    PutAllOverrides(managed, es);
    forall n
      ensures n in Meaning(es) ==> n + "=" + Meaning(es)[n] in es
      ensures n in managed && n !in Meaning(es) ==> n + "=" + managed[n] !in es
    {
      MeaningIsListed(es, n);
      if n in managed {
        NameIsUnique(n + "=" + managed[n], n, managed[n]);
      }
    }
  }

  /** Every entry for `n` repeats the managed value. */
  ghost predicate Steady(managed: Environment, es: seq<string>, n: string) {
    n in managed && forall e :: e in es && HasValue(e) && Name(e) == n ==> Value(e) == managed[n]
  }

  /** Other components may have changed the environment: a variable all of whose entries repeat the managed
      value is left as it is found, every other one has the last value listed, and the rest is untouched. */
  lemma {:induction false} AddedIs(managed: Environment, environ: Environment, es: seq<string>, n: string)
    ensures n !in Meaning(es) || Steady(managed, es, n) ==>
              (n in Added(managed, environ, es) <==> n in environ) &&
              (n in environ ==> Added(managed, environ, es)[n] == environ[n])
    ensures n in Meaning(es) && !Steady(managed, es, n) ==> Maps(Added(managed, environ, es), n, Meaning(es)[n])
    ensures n in Meaning(es) && Steady(managed, es, n) ==> Maps(managed, n, Meaning(es)[n])
  {
    hide HasValue, Name, Value;
    if es != [] {
      var rest, e := es[..|es| - 1], es[|es| - 1];
      AddedIs(managed, environ, rest, n);
      PutAllOverrides(managed, rest);
      MeaningIsListed(rest, n);
      assert es == rest + [e];
    }
  }

  /** The main law: with the environment in step before, the synchronised one is what emptying every variable
      managed so far and then putting the whole list would give, and it is in step again. */
  lemma SyncedIs(managed: Environment, environ: Environment, es: seq<string>)
    requires Coherent(managed, environ)
    ensures Synced(managed, environ, es) == PutAll(environ + Emptied(managed.Keys), es)
    ensures Coherent(Meaning(es), Synced(managed, environ, es))
  {
    hide Added, PutAll, Meaning, Steady;
    PutAllOverrides(environ + Emptied(managed.Keys), es);
    forall n
      ensures n in Added(managed, environ, es) <==> n in environ || n in Meaning(es)
      ensures n in Meaning(es) ==> Maps(Added(managed, environ, es), n, Meaning(es)[n])
      ensures n in environ && n !in Meaning(es) ==> Added(managed, environ, es)[n] == environ[n]
    {
      AddedIs(managed, environ, es, n);
    }
  }

  /** The documented intention is to delete the dropped variables. Setting them to nothing comes to the same
      exactly when nothing is dropped. */
  lemma DeletesIffNothingDropped(managed: Environment, environ: Environment, es: seq<string>)
    requires Coherent(managed, environ)
    ensures Synced(managed, environ, es) == PutAll(environ - managed.Keys, es) <==> managed.Keys <= Meaning(es).Keys
  {
    hide Synced, PutAll, Meaning;
    SyncedIs(managed, environ, es);
    PutAllOverrides(environ + Emptied(managed.Keys), es);
    PutAllOverrides(environ - managed.Keys, es);
    var synced, deleted := Synced(managed, environ, es), PutAll(environ - managed.Keys, es);
    if managed.Keys <= Meaning(es).Keys {
      assert synced == deleted;
    } else {
      var n :| n in managed && n !in Meaning(es);
      assert n in synced && n !in deleted;
    }
  }

  /** A variable received once and then dropped is still there, with an empty value. */
  lemma DroppedVariableStays()
    ensures "A" in Synced(map["A" := "1"], map["A" := "1"], [])
    ensures "A" !in PutAll(map["A" := "1"] - {"A"}, [])
  {
  }

  /** Taking an empty variable for a cleared one, the synchronised environment is the one deleting everything
      managed and adding everything received gives. */
  lemma DeletesUpToEmpty(managed: Environment, environ: Environment, es: seq<string>)
    requires Coherent(managed, environ)
    ensures forall n, v :: v != "" ==>
      (Maps(Synced(managed, environ, es), n, v) <==> Maps(PutAll(environ - managed.Keys, es), n, v))
  {
    hide Coherent, Synced, PutAll, Meaning;
    SyncedIs(managed, environ, es);
    PutAllOverrides(environ + Emptied(managed.Keys), es);
    PutAllOverrides(environ - managed.Keys, es);
    var a, b := environ + Emptied(managed.Keys) + Meaning(es), environ - managed.Keys + Meaning(es);
    assert forall n :: n in a && a[n] != "" <==> n in b && b[n] != "";
    assert forall n :: n in a && n in b && a[n] != "" ==> a[n] == b[n];
  }

  // Any sequence of operations.

  datatype Operation = Synchronise(es: seq<string>) | AddOrChange(es: seq<string>) | Reset(name: string)

  /** What is managed, and the environment. */
  datatype State = State(managed: Environment, environ: Environment)

  ghost function Applied(s: State, op: Operation): (r: State) {
    match op
    case Synchronise(es) => State(Meaning(es), Synced(s.managed, s.environ, es))
    case AddOrChange(es) => State(PutAll(s.managed, es), Added(s.managed, s.environ, es))
    case Reset(n) => State(s.managed - {n}, if n in s.managed then s.environ - {n} else s.environ)
  }

  ghost function AppliedAll(s: State, ops: seq<Operation>): (r: State) {
    if ops == [] then s else Applied(AppliedAll(s, ops[..|ops| - 1]), ops[|ops| - 1])
  }

  /** No sequence of operations brings the managed variables out of step with the environment. */
  lemma {:induction false} StaysCoherent(s: State, ops: seq<Operation>)
    requires Coherent(s.managed, s.environ)
    ensures var r := AppliedAll(s, ops); Coherent(r.managed, r.environ)
  {
    hide Synced, PutAll, Meaning, Added;
    if ops != [] {
      StaysCoherent(s, ops[..|ops| - 1]);
      var t, op := AppliedAll(s, ops[..|ops| - 1]), ops[|ops| - 1];
      match op
      case Synchronise(es) => SyncedIs(t.managed, t.environ, es);
      case AddOrChange(es) => AddedStaysCoherent(t.managed, t.environ, es);
      case Reset(n) =>
    }
  }

  lemma AddedStaysCoherent(managed: Environment, environ: Environment, es: seq<string>)
    requires Coherent(managed, environ)
    ensures Coherent(PutAll(managed, es), Added(managed, environ, es))
  {
    hide Added, PutAll, Meaning, Steady;
    PutAllOverrides(managed, es);
    forall n | n in managed || n in Meaning(es)
      ensures Maps(Added(managed, environ, es), n, if n in Meaning(es) then Meaning(es)[n] else managed[n])
    {
      AddedIs(managed, environ, es, n);
    }
  }

  /** All names the requests so far have brought. */
  ghost function AllNames(requests: seq<seq<string>>): (r: set<string>) {
    if requests == [] then {} else
    AllNames(requests[..|requests| - 1]) + Meaning(requests[|requests| - 1]).Keys
  }

  /** What is managed after the requests: the last one's variables. */
  ghost function LastMeaning(requests: seq<seq<string>>): (r: Environment) {
    if requests == [] then map[] else Meaning(requests[|requests| - 1])
  }

  /** The environment after one synchronisation per request. */
  ghost function SyncedAll(environ: Environment, requests: seq<seq<string>>): (r: Environment) {
    if requests == [] then environ else
    var rest := requests[..|requests| - 1];
    Synced(LastMeaning(rest), SyncedAll(environ, rest), requests[|requests| - 1])
  }

  /** Over every run of requests: the last request decides all its variables, variables of earlier requests
      alone are empty, and all others are as at the start. */
  lemma {:induction false} OnlyLastRequestShows(environ: Environment, requests: seq<seq<string>>)
    ensures SyncedAll(environ, requests) == environ + Emptied(AllNames(requests)) + LastMeaning(requests)
    ensures LastMeaning(requests).Keys <= AllNames(requests)
    ensures Coherent(LastMeaning(requests), SyncedAll(environ, requests))
  {
    hide Synced, PutAll, Meaning, Coherent, Emptied;
    if requests != [] {
      var rest, es := requests[..|requests| - 1], requests[|requests| - 1];
      OnlyLastRequestShows(environ, rest);
      var before := SyncedAll(environ, rest);
      SyncedIs(LastMeaning(rest), before, es);
      PutAllOverrides(before + Emptied(LastMeaning(rest).Keys), es);
      EmptyAndPut(environ, AllNames(rest), LastMeaning(rest), Meaning(es));
    } else {
      NothingManaged(environ);
    }
  }

  lemma NothingManaged(environ: Environment)
    ensures environ == environ + Emptied({}) + map[] && Coherent(map[], environ)
  {
  }

  lemma EmptyAndPut(environ: Environment, names: set<string>, last: Environment, next: Environment)
    requires last.Keys <= names
    ensures environ + Emptied(names) + last + Emptied(last.Keys) + next == environ + Emptied(names + next.Keys) + next
  {
    OverrideTwice(environ, Emptied(names), last, Emptied(last.Keys), next, Emptied(names + next.Keys), "");
  }

  lemma OverrideTwice<K, V>(env: map<K, V>, blank: map<K, V>, last: map<K, V>, cleared: map<K, V>, next: map<K, V>,
                            all: map<K, V>, none: V)
    requires last.Keys <= blank.Keys && cleared.Keys == last.Keys && all.Keys == blank.Keys + next.Keys
    requires forall k :: k in blank ==> blank[k] == none
    requires forall k :: k in cleared ==> cleared[k] == none
    requires forall k :: k in all ==> all[k] == none
    ensures env + blank + last + cleared + next == env + all + next
  {
  }

  /** No name is given two different values. */
  ghost predicate Consistent(es: seq<string>) {
    forall e, f :: e in es && f in es && HasValue(e) && HasValue(f) && Name(e) == Name(f) ==> Value(e) == Value(f)
  }

  lemma {:induction false} ConsistentMeaning(es: seq<string>)
    ensures Consistent(es) <==> forall e :: e in es && HasValue(e) ==> Maps(Meaning(es), Name(e), Value(e))
  {
    forall e | e in es && HasValue(e)
      ensures Name(e) in Meaning(es)
      ensures Consistent(es) ==> Meaning(es)[Name(e)] == Value(e)
    {
      MeaningIsListed(es, Name(e));
      var n, v := Name(e), Meaning(es)[Name(e)];
      NameIsUnique(n + "=" + v, n, v);
    }
  }

  /** Of a list without contradictions, exactly the new and the changed variables are written, once each. */
  lemma {:induction false} AddedNamesAre(managed: Environment, es: seq<string>, n: string)
    requires Consistent(es)
    ensures multiset(AddedNames(managed, es))[n] ==
              if n in Meaning(es) && !Maps(managed, n, Meaning(es)[n]) then 1 else 0
  {
    hide HasValue, Name, Value;
    if es != [] {
      var rest, e := es[..|es| - 1], es[|es| - 1];
      assert es == rest + [e];
      assert Consistent(rest);
      AddedNamesAre(managed, rest, n);
      PutAllOverrides(managed, rest);
      MeaningGrows(rest, e);
    }
  }

  /** In a list without contradictions, an entry for a name already given a value changes nothing. */
  lemma MeaningGrows(rest: seq<string>, e: string)
    requires Consistent(rest + [e])
    ensures Meaning(rest + [e]) == if HasValue(e) then Meaning(rest)[Name(e) := Value(e)] else Meaning(rest)
    ensures HasValue(e) && Name(e) in Meaning(rest) ==> Meaning(rest)[Name(e)] == Value(e)
  {
    assert (rest + [e])[..|rest|] == rest;
    ConsistentMeaning(rest + [e]);
    ConsistentMeaning(rest);
    if HasValue(e) && Name(e) in Meaning(rest) {
      var n, v := Name(e), Meaning(rest)[Name(e)];
      MeaningIsListed(rest, n);
      NameIsUnique(n + "=" + v, n, v);
    }
  }

  /** A request repeated at once writes nothing, exactly when it does not contradict itself. */
  lemma RepeatedRequestIsQuiet(es: seq<string>)
    ensures AddedNames(Meaning(es), es) == [] <==> Consistent(es)
  {
    ConsistentMeaning(es);
    QuietPrefix(Meaning(es), es);
  }

  /** A request that gives A first 1 and then 2 writes A again each time it is repeated. */
  lemma ContradictionIsWrittenAgain()
    ensures var es := ["A=1", "A=2"]; AddedNames(Meaning(es), es) != []
  {
    var es := ["A=1", "A=2"];
    NameIsUnique("A=1", "A", "1");
    NameIsUnique("A=2", "A", "2");
    assert es[0] in es && es[1] in es;
    RepeatedRequestIsQuiet(es);
  }

  lemma {:induction false} QuietPrefix(managed: Environment, es: seq<string>)
    ensures AddedNames(managed, es) == [] <==> forall e :: e in es && HasValue(e) ==> Maps(managed, Name(e), Value(e))
    ensures AddedNames(managed, es) == [] ==> PutAll(managed, es) == managed
  {
    if es != [] {
      var rest, e := es[..|es| - 1], es[|es| - 1];
      assert es == rest + [e];
      QuietPrefix(managed, rest);
    }
  }
}
