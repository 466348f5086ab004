/** Keeping the process environment in step with the executor's: the variables received last time are
    remembered, and only differences are written. */
module ProcessEnvironment {
  import opened EnvEntries
  import opened EnvSync
  import opened SparseArray

  /** Each managed variable has exactly one entry in the array, at the position `slotOf` says. */
  ghost predicate Represents(contents: map<nat, string>, slotOf: map<string, nat>, managed: Environment) {
    && managed.Keys == slotOf.Keys
    && (forall n :: n in slotOf ==>
          slotOf[n] in contents && HasValue(contents[slotOf[n]]) &&
          Name(contents[slotOf[n]]) == n && Value(contents[slotOf[n]]) == managed[n])
    && (forall i :: i in contents ==> Name(contents[i]) in slotOf && slotOf[Name(contents[i])] == i)
  }

  lemma PutRepresents(contents: map<nat, string>, slotOf: map<string, nat>, managed: Environment, e: string, i: nat)
    requires Represents(contents, slotOf, managed) && HasValue(e)
    requires if Name(e) in slotOf then i == slotOf[Name(e)] else i !in contents
    ensures Represents(contents[i := e], slotOf[Name(e) := i], managed[Name(e) := Value(e)])
  {
    hide HasValue, Name, Value;
  }

  lemma NamesAreBare(contents: map<nat, string>, slotOf: map<string, nat>, managed: Environment)
    requires Represents(contents, slotOf, managed)
    ensures forall n :: n in managed ==> '=' !in n
  {
    hide HasValue, Name, Value;
    assert forall n :: n in managed ==> '=' !in Name(contents[slotOf[n]]);
  }

  /** `names` are the variables whose entries are at the positions `gone`. */
  ghost predicate NamesAt(slotOf: map<string, nat>, gone: set<nat>, names: set<string>) {
    forall n :: n in names <==> n in slotOf && slotOf[n] in gone
  }

  lemma DropRepresents(contents: map<nat, string>, slotOf: map<string, nat>, managed: Environment,
                       gone: set<nat>, names: set<string>)
    requires Represents(contents, slotOf, managed) && NamesAt(slotOf, gone, names)
    ensures Represents(contents - gone, slotOf - names, managed - names)
  {
    hide HasValue, Name, Value;
  }

  /** One more position gone is one more variable, not counted before. */
  lemma OneMoreGone(contents: map<nat, string>, slotOf: map<string, nat>, managed: Environment,
                    gone: set<nat>, names: set<string>, j: nat)
    requires Represents(contents, slotOf, managed) && NamesAt(slotOf, gone, names) && j in contents && j !in gone
    ensures HasValue(contents[j])
    ensures Name(contents[j]) !in names && NamesAt(slotOf, gone + {j}, names + {Name(contents[j])})
  {
    hide HasValue, Name, Value;
  }

  /** The variables whose entries are not among the received ones are those not kept. */
  lemma GoneAreNotKept(contents: map<nat, string>, slotOf: map<string, nat>, managed: Environment,
                       es: seq<string>, gone: set<nat>, names: set<string>)
    requires Represents(contents, slotOf, managed) && NamesAt(slotOf, gone, names)
    requires forall i :: i in gone <==> i in contents && contents[i] !in es
    ensures names == managed.Keys - Kept(managed, es).Keys
  {
    hide HasValue, Name, Value;
    forall n | n in managed
      ensures n in names <==> n + "=" + managed[n] !in es
    {
      assert contents[slotOf[n]] == n + "=" + managed[n];
    }
  }

  ghost function Elements(s: seq<nat>): (r: set<nat>) {
    set i | i in s
  }

  lemma NothingGone(slotOf: map<string, nat>, environ: Environment)
    ensures NamesAt(slotOf, Elements([]), {}) && environ == environ + Emptied({})
  {
  }

  lemma PutNothing(environ: Environment, names: set<string>, n: string)
    requires '=' !in n
    ensures Put(environ + Emptied(names), n + "=") == environ + Emptied(names + {n}) && Name(n + "=") == n
  {
    NameIsUnique(n + "=", n, "");
  }

  datatype Match = Same | Changed | Missing

  /** `environ` is the environment of the process and `writes` the names written to it so far; `managed`
      are the variables received last time, which the array `envs` holds as entries. */
  class ProcessEnv {
    const envs: NAArray<string>
    var environ: Environment
    ghost var writes: seq<string>
    ghost var managed: Environment
    ghost var slotOf: map<string, nat>

    constructor (environ: Environment)
      ensures Valid() && managed == map[] && this.environ == environ && writes == [] && fresh(envs)
    {
      envs := new NAArray(64);
      this.environ, writes, managed, slotOf := environ, [], map[], map[];
    }

    ghost predicate Valid()
      reads this, envs
    {
      envs.Valid() && Represents(envs.contents, slotOf, managed)
    }

    method Putenv(e: string)
      modifies this`environ, this`writes
      ensures environ == Put(old(environ), e) && writes == old(writes) + [Name(e)]
    {
      environ := if HasValue(e) then environ[Name(e) := Value(e)] else environ - {e};
      writes := writes + [Name(e)];
    }

    /** Looks for an entry with the same name. The search counts used positions, so it ends at the last
        one whatever holes there are. */
    method Search(e: string) returns (found: Match, j: nat)
      requires Valid() && HasValue(e)
      ensures found == Missing <==> Name(e) !in slotOf
      ensures found != Missing ==> j == slotOf[Name(e)]
      ensures found == Same <==> Maps(managed, Name(e), Value(e))
    {
      hide NAArray.Valid, Name, Value;
      var envName := e[..EqualSign(e) + 1];
      var entriesChecked := 0;
      j := 0;
      while entriesChecked < envs.entries
        invariant j <= |envs.slots| && entriesChecked == Used(envs.slots[..j])
        invariant forall i :: 0 <= i < j && i in envs.contents ==> Name(envs.contents[i]) != Name(e)
        decreases |envs.slots| - j
      {
        envs.MoreToCheck(j);
        if envs.IsUsed(j) {
          var f := envs.slots[j].value;
          SamePrefixIsSameName(e, f);
          EqualIsSameValue(e, f);
          if e == f {
            return Same, j;
          } else if envName <= f {
            return Changed, j;
          }
          entriesChecked := entriesChecked + 1;
        }
        j := j + 1;
      }
      envs.AllChecked(j);
      found := Missing;
    }

    /** Writes and remembers every received entry that is new or has changed. */
    method AddOrChangeEnv(newenvs: seq<string>)
      requires Valid()
      modifies this, envs
      ensures Valid() && managed == PutAll(old(managed), newenvs)
      ensures environ == Added(old(managed), old(environ), newenvs)
      ensures writes == old(writes) + AddedNames(old(managed), newenvs)
    {
      hide Valid, Put;
      for i := 0 to |newenvs|
        invariant Valid() && managed == PutAll(old(managed), newenvs[..i])
        invariant environ == Added(old(managed), old(environ), newenvs[..i])
        invariant writes == old(writes) + AddedNames(old(managed), newenvs[..i])
      {
        assert newenvs[..i + 1][..i] == newenvs[..i];
        if HasValue(newenvs[i]) {
          AddOrChangeOne(newenvs[i]);
        }
      }
      assert newenvs[..|newenvs|] == newenvs;
    }

    method AddOrChangeOne(e: string)
      requires Valid() && HasValue(e)
      modifies this, envs
      ensures Valid() && managed == Put(old(managed), e)
      ensures environ == if Differs(old(managed), e) then Put(old(environ), e) else old(environ)
      ensures writes == old(writes) + if Differs(old(managed), e) then [Name(e)] else []
    {
      hide NAArray.Valid, Represents, HasValue, Name, Value;
      var found, j := Search(e);
      if found != Same {
        ghost var before := envs.contents;
        var index := j;
        if found == Changed {
          var _ := envs.Remove(j);
        } else {
          index := envs.UnusedIndex();
        }
        Putenv(e);
        envs.InsertAt(index, e);
        PutRepresents(before, slotOf, managed, e, index);
        assert envs.contents == before[index := e];
        slotOf, managed := slotOf[Name(e) := index], managed[Name(e) := Value(e)];
      }
    }

    /** Sets every remembered variable whose entry is not among the received ones to nothing, and forgets it. */
    method RemoveEnv(newenvs: seq<string>) returns (ghost dropped: seq<string>)
      requires Valid()
      modifies this, envs
      ensures Valid() && managed == Kept(old(managed), newenvs)
      ensures environ == old(environ) + Emptied(old(managed).Keys - managed.Keys)
      ensures writes == old(writes) + dropped && multiset(dropped) == multiset(old(managed).Keys - managed.Keys)
    {
      hide NAArray.Valid;
      var deleteArray: seq<nat>;
      ghost var names: set<string>;
      deleteArray, dropped, names := Blank(newenvs);
      Forget(deleteArray, names);
    }

    method Listed(newenvs: seq<string>, e: string) returns (found: bool)
      ensures found <==> e in newenvs
    {
      for i := 0 to |newenvs|
        invariant e !in newenvs[..i]
      {
        if newenvs[i] == e {
          return true;
        }
      }
      assert newenvs[..|newenvs|] == newenvs;
      found := false;
    }

    /** Sets the variables to nothing, and collects the positions of their entries. */
    method Blank(newenvs: seq<string>)
      returns (positions: seq<nat>, ghost dropped: seq<string>, ghost names: set<string>)
      requires Valid()
      modifies this`environ, this`writes
      ensures NamesAt(slotOf, Elements(positions), names) && names == managed.Keys - Kept(managed, newenvs).Keys
      ensures environ == old(environ) + Emptied(names)
      ensures writes == old(writes) + dropped && multiset(dropped) == multiset(names)
    {
      hide Represents, Kept, NamesAt, HasValue, Name, Value, Put, Used, Emptied;
      positions, dropped, names := [], [], {};
      NothingGone(slotOf, environ);
      for j := 0 to envs.maxLength
        invariant environ == old(environ) + Emptied(names)
        invariant writes == old(writes) + dropped && multiset(dropped) == multiset(names)
        invariant NamesAt(slotOf, Elements(positions), names)
        invariant forall i :: i in positions <==> i < j && i in envs.contents && envs.contents[i] !in newenvs
      {
        if envs.IsUsed(j) {
          var e := envs.slots[j].value;
          OneMoreGone(envs.contents, slotOf, managed, Elements(positions), names, j);
          var found := Listed(newenvs, e);
          if !found && HasValue(e) {
            assert Elements(positions + [j]) == Elements(positions) + {j};
            PutNothing(old(environ), names, Name(e));
            Putenv(Name(e) + "=");
            positions, dropped, names := positions + [j], dropped + [Name(e)], names + {Name(e)};
          }
        }
      }
      GoneAreNotKept(envs.contents, slotOf, managed, newenvs, Elements(positions), names);
    }

    /** Makes the positions unused. */
    method Forget(positions: seq<nat>, ghost names: set<string>)
      requires Valid() && NamesAt(slotOf, Elements(positions), names)
      modifies this`slotOf, this`managed, envs
      ensures Valid() && managed == old(managed) - names
    {
      hide NAArray.Valid, Represents, NamesAt;
      for k := 0 to |positions|
        modifies envs
        invariant envs.Valid() && envs.contents == old(envs.contents) - Elements(positions[..k])
      {
        var _ := envs.Remove(positions[k]);
      }
      assert positions[..|positions|] == positions;
      DropRepresents(old(envs.contents), slotOf, managed, Elements(positions), names);
      slotOf, managed := slotOf - names, managed - names;
    }

    /** Makes the environment the one the executor sent; without one, nothing happens. */
    method SetEnv(newenvs: Option<seq<string>>) returns (ghost dropped: seq<string>)
      requires Valid()
      modifies this, envs
      ensures Valid()
      ensures newenvs.None? ==> managed == old(managed) && environ == old(environ) && writes == old(writes)
      ensures newenvs.Some? ==>
                && managed == Meaning(newenvs.value)
                && environ == Synced(old(managed), old(environ), newenvs.value)
                && writes == old(writes) + AddedNames(old(managed), newenvs.value) + dropped
                && multiset(dropped) == multiset(old(managed).Keys - managed.Keys)
    {
      hide NAArray.Valid, Represents, PutAll, Meaning, Added, AddedNames, Kept, Emptied;
      dropped := [];
      if newenvs.Some? {
        NamesAreBare(envs.contents, slotOf, managed);
        AddOrChangeEnv(newenvs.value);
        dropped := RemoveEnv(newenvs.value);
        KeptAfterAdding(old(managed), newenvs.value);
      }
    }

    /** Forgets one variable and takes it out of the environment. */
    method ResetEnv(envName: Option<string>)
      requires Valid()
      modifies this, envs
      ensures Valid()
      ensures if envName.Some? && envName.value in old(managed)
              then managed == old(managed) - {envName.value} && environ == old(environ) - {envName.value}
                   && writes == old(writes) + [envName.value]
              else managed == old(managed) && environ == old(environ) && writes == old(writes)
    {
      hide NAArray.Valid, Represents, HasValue, Value;
      if envName.Some? {
        var deleteArray := Unset(envName.value);
        Forget(deleteArray, if envName.value in slotOf then {envName.value} else {});
      }
    }

    method Unset(n: string) returns (positions: seq<nat>)
      requires Valid()
      modifies this`environ, this`writes
      ensures NamesAt(slotOf, Elements(positions), if n in slotOf then {n} else {})
      ensures n in slotOf <==> n in managed
      ensures n in slotOf ==> environ == old(environ) - {n} && writes == old(writes) + [n]
      ensures n !in slotOf ==> environ == old(environ) && writes == old(writes)
    {
      hide HasValue, Value, Used;
      positions := [];
      for i := 0 to envs.maxLength
        invariant positions == if n in slotOf && slotOf[n] < i then [slotOf[n]] else []
        invariant environ == if positions == [] then old(environ) else old(environ) - {n}
        invariant writes == if positions == [] then old(writes) else old(writes) + [n]
      {
        if envs.IsUsed(i) {
          assert i in envs.contents;
          var e := envs.slots[i].value;
          if HasValue(e) && Name(e) == n {
            BareName(n);
            Putenv(n);
            positions := positions + [i];
          }
        }
      }
    }
  }

  /** A whole session: starting from an environment nothing is managed in, one synchronisation per request. */
  method Follow(p: ProcessEnv, requests: seq<seq<string>>)
    requires p.Valid() && p.managed == map[]
    modifies p, p.envs
    ensures p.Valid() && p.managed == LastMeaning(requests)
    ensures p.environ == old(p.environ) + Emptied(AllNames(requests)) + LastMeaning(requests)
  {
    hide ProcessEnv.Valid, Synced, Meaning, Emptied;
    for i := 0 to |requests|
      invariant p.Valid() && p.managed == LastMeaning(requests[..i])
      invariant p.environ == SyncedAll(old(p.environ), requests[..i])
    {
      assert requests[..i + 1][..i] == requests[..i];
      ghost var _ := p.SetEnv(Some(requests[i]));
    }
    assert requests[..|requests|] == requests;
    OnlyLastRequestShows(old(p.environ), requests);
  }

  /** Every session: the object follows the operations one by one, and what it manages stays in the environment. */
  method Perform(p: ProcessEnv, ops: seq<Operation>)
    requires p.Valid()
    modifies p, p.envs
    ensures p.Valid() && State(p.managed, p.environ) == AppliedAll(State(old(p.managed), old(p.environ)), ops)
    ensures old(Coherent(p.managed, p.environ)) ==> Coherent(p.managed, p.environ)
  {
    hide ProcessEnv.Valid, Synced, Meaning, Added, PutAll, Coherent;
    for i := 0 to |ops|
      invariant p.Valid() && State(p.managed, p.environ) == AppliedAll(State(old(p.managed), old(p.environ)), ops[..i])
    {
      assert ops[..i + 1][..i] == ops[..i];
      match ops[i]
      case Synchronise(es) => ghost var _ := p.SetEnv(Some(es));
      case AddOrChange(es) => p.AddOrChangeEnv(es);
      case Reset(name) => p.ResetEnv(Some(name));
    }
    assert ops[..|ops|] == ops;
    if old(Coherent(p.managed, p.environ)) {
      StaysCoherent(State(old(p.managed), old(p.environ)), ops);
    }
  }
}
