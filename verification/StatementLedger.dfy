/** The compiler's list of statements as a value: the list, whose first entry stands for "no
    statement", the predecessor of every other entry, and the position of the current statement. */
module StatementLedger {

  datatype Ledger<!T(==)> = Ledger(list: seq<T>, prv: map<T, T>, current: nat)

  /** The first position of `x`, or the length of the list if there is none. */
  function Index<T(==)>(list: seq<T>, x: T): (i: nat)
    ensures i <= |list|
  {
    if list == [] || list[0] == x then 0 else 1 + Index(list[1..], x)
  }

  lemma {:induction false} IndexFinds<T>(list: seq<T>, x: T)
    ensures Index(list, x) < |list| <==> x in list
    ensures x in list ==> list[Index(list, x)] == x
  {
    if list != [] && list[0] != x {
      IndexFinds(list[1..], x);
    }
  }

  ghost predicate Distinct<T>(list: seq<T>) {
    forall i, j :: 0 <= i < j < |list| ==> list[i] != list[j]
  }

  /** Every entry but the first has a predecessor, which is in the list and sits at a smaller
      position. So predecessor links are acyclic, never dangle, and end at the first entry. */
  ghost predicate Inv<T>(l: Ledger<T>) {
    && Distinct(l.list)
    && l.current < |l.list|
    && l.prv.Keys == Entries(l.list) - {l.list[0]}
    && forall x {:trigger l.prv[x]} :: x in l.prv ==> Index(l.list, l.prv[x]) < Index(l.list, x)
  }

  ghost function Entries<T>(list: seq<T>): (xs: set<T>) {
    set x | x in list
  }

  function Set<T(==)>(l: Ledger<T>, s: T): (r: Ledger<T>)
    requires l.current < |l.list|
  {
    Ledger(l.list + [s], l.prv[s := l.list[l.current]], Index(l.list + [s], s))
  }

  function Remove<T(==)>(list: seq<T>, s: T): (r: seq<T>)
    requires s in list
  {
    IndexFinds(list, s);
    var i := Index(list, s);
    list[..i] + list[i + 1..]
  }

  function Unset<T(==)>(l: Ledger<T>, s: T): (r: Ledger<T>)
    requires s in l.list && s in l.prv
  {
    var rest := Remove(l.list, s);
    Ledger(rest, map t | t in l.prv && t != s :: if l.prv[t] == s then l.prv[s] else l.prv[t], Index(rest, l.prv[s]))
  }

  function SetCurrent<T(==)>(l: Ledger<T>, s: T): (r: Ledger<T>) {
    l.(current := if s in l.list then Index(l.list, s) else 0)
  }

  lemma IndexIs<T>(list: seq<T>, i: nat)
    requires Distinct(list) && i < |list|
    ensures Index(list, list[i]) == i
  {
    IndexFinds(list, list[i]);
  }

  lemma {:induction false} IndexAppend<T>(list: seq<T>, s: T, x: T)
    ensures x in list ==> Index(list + [s], x) == Index(list, x)
    ensures s !in list ==> Index(list + [s], s) == |list|
  {
    if list != [] {
      assert (list + [s])[1..] == list[1..] + [s];
      IndexAppend(list[1..], s, x);
    }
  }

  lemma RemoveIs<T>(list: seq<T>, s: T)
    requires Distinct(list) && s in list
    ensures Distinct(Remove(list, s)) && |Remove(list, s)| == |list| - 1
    ensures Entries(Remove(list, s)) == Entries(list) - {s}
    ensures Index(list, s) > 0 ==> Remove(list, s)[0] == list[0]
  {
    IndexFinds(list, s);
  }

  lemma IndexRemove<T>(list: seq<T>, s: T, x: T)
    requires Distinct(list) && s in list && x in list && x != s
    ensures Index(list, x) != Index(list, s)
    ensures Index(Remove(list, s), x) == Index(list, x) - if Index(list, x) < Index(list, s) then 0 else 1
  {
    RemoveIs(list, s);
    IndexFinds(list, s);
    IndexFinds(list, x);
    var i, k := Index(list, x), Index(list, s);
    IndexIs(Remove(list, s), if i < k then i else i - 1);
  }

  lemma PredecessorIsListed<T>(l: Ledger<T>, x: T)
    requires Inv(l) && x in l.prv
    ensures x in l.list && l.prv[x] in l.list && l.prv[x] != x
  {
    IndexFinds(l.list, x);
    IndexFinds(l.list, l.prv[x]);
  }

  lemma SetKeepsInv<T>(l: Ledger<T>, s: T)
    requires Inv(l) && s !in l.list
    ensures Inv(Set(l, s)) && Set(l, s).list[Set(l, s).current] == s
  {
    var r := Set(l, s);
    IndexAppend(l.list, s, s);
    forall x | x in r.prv ensures Index(r.list, r.prv[x]) < Index(r.list, x) {
      if x != s {
        PredecessorIsListed(l, x);
      }
      IndexAppend(l.list, s, x);
      IndexAppend(l.list, s, r.prv[x]);
      IndexFinds(l.list, r.prv[x]);
    }
    assert Entries(r.list) == Entries(l.list) + {s};
  }

  lemma UnsetKeepsInv<T>(l: Ledger<T>, s: T)
    requires Inv(l) && s in l.prv
    ensures Inv(Unset(l, s))
    ensures Unset(l, s).list[0] == l.list[0]
    ensures Unset(l, s).list[Unset(l, s).current] == l.prv[s]
  {
    var r := Unset(l, s);
    RemoveIs(l.list, s);
    PredecessorIsListed(l, s);
    IndexFinds(r.list, l.prv[s]);
    forall x | x in r.prv ensures Index(r.list, r.prv[x]) < Index(r.list, x) {
      PredecessorIsListed(l, x);
      IndexRemove(l.list, s, x);
      IndexRemove(l.list, s, r.prv[x]);
    }
  }

  lemma SetCurrentKeepsInv<T>(l: Ledger<T>, s: T)
    requires Inv(l)
    ensures Inv(SetCurrent(l, s))
    ensures s in l.list ==> l.list[SetCurrent(l, s).current] == s
    ensures s !in l.list ==> SetCurrent(l, s).current == 0
  {
    IndexFinds(l.list, s);
  }

  /** What removal does to the single entries. */
  lemma UnsetEntries<T>(l: Ledger<T>, s: T)
    requires Inv(l) && s in l.prv
    ensures s in l.list && s != l.list[0] && l.prv[s] in l.list
    ensures var r := Unset(l, s);
            && r.list == Remove(l.list, s) && r.current == Index(r.list, l.prv[s])
            && Distinct(r.list) && s !in r.list && (forall t :: t in r.list <==> t in l.list && t != s)
            && r.list[0] == l.list[0]
            && |r.list| == |l.list| - 1 && r.current < |r.list|
            && r.prv.Keys == l.prv.Keys - {s}
            && forall t {:trigger r.prv[t]} :: t in r.prv ==> r.prv[t] == if l.prv[t] == s then l.prv[s] else l.prv[t]
  {
    PredecessorIsListed(l, s);
    UnsetKeepsInv(l, s);
    RemoveIs(l.list, s);
    var r := Unset(l, s);
    assert forall t :: t in r.list <==> t in Entries(r.list);
  }

  /** The statement, its predecessor, the predecessor of that, and so on down to the first entry. */
  ghost function Chain<T>(l: Ledger<T>, x: T): (c: seq<T>)
    requires Inv(l) && x in l.list
    ensures c != [] && c[0] == x && c[|c| - 1] == l.list[0]
    decreases Index(l.list, x)
  {
    if x == l.list[0] then [x] else
    PredecessorIsListed(l, x);
    [x] + Chain(l, l.prv[x])
  }

  function Without<T(==)>(c: seq<T>, s: T): (r: seq<T>) {
    if c == [] then []
    else if c[0] == s then Without(c[1..], s)
    else [c[0]] + Without(c[1..], s)
  }

  /** Taking a statement out of the list, in whatever order, takes it out of every chain and changes
      nothing else in any chain. */
  lemma {:induction false} UnsetChain<T>(l: Ledger<T>, s: T, x: T)
    requires Inv(l) && s in l.prv && x in l.list && x != s
    ensures Inv(Unset(l, s)) && x in Unset(l, s).list
    ensures Chain(Unset(l, s), x) == Without(Chain(l, x), s)
    decreases Index(l.list, x)
  {
    var r := Unset(l, s);
    UnsetKeepsInv(l, s);
    RemoveIs(l.list, s);
    assert x in Entries(r.list);
    if x != l.list[0] {
      var y := l.prv[x];
      PredecessorIsListed(l, x);
      if y == s {
        var z := l.prv[s];
        PredecessorIsListed(l, s);
        UnsetChain(l, s, z);
        assert Chain(l, x) == [x] + ([s] + Chain(l, z));
        assert Without(Chain(l, x), s) == [x] + Without(Chain(l, s), s);
      } else {
        UnsetChain(l, s, y);
        assert Chain(l, x)[1..] == Chain(l, y);
      }
    }
  }

  /** A statement that is set, runs other statements inside, and is unset again. */
  datatype Nest<T> = Nest(s: T, inner: seq<Nest<T>>)

  /** No statement is set while it is in the list. */
  ghost predicate Playable<T>(list: seq<T>, n: Nest<T>)
    decreases n, 1
  {
    n.s !in list && PlayableAll(list + [n.s], n.inner)
  }

  ghost predicate PlayableAll<T>(list: seq<T>, ns: seq<Nest<T>>)
    decreases ns, 0
  {
    forall n :: n in ns ==> Playable(list, n)
  }

  /** Unsetting the statement that was set last undoes the setting. */
  lemma UnsetAfterSet<T>(l: Ledger<T>, s: T)
    requires Inv(l) && s !in l.list
    ensures Unset(Set(l, s), s) == l
  {
    var m := Set(l, s);
    SetKeepsInv(l, s);
    IndexAppend(l.list, s, s);
    assert Remove(m.list, s) == l.list;
    forall t | t in l.prv ensures l.prv[t] in l.list {
      PredecessorIsListed(l, t);
    }
    IndexIs(l.list, l.current);
    assert Unset(m, s).prv == l.prv;
  }

  /** Well-nested use, one statement inside the other, leaves no trace: the list, all predecessors and
      the current statement are what they were. */
  ghost function Play<T>(l: Ledger<T>, n: Nest<T>): (r: Ledger<T>)
    requires Inv(l) && Playable(l.list, n)
    ensures r == l
    decreases n, 1
  {
    SetKeepsInv(l, n.s);
    UnsetAfterSet(l, n.s);
    Unset(PlayAll(Set(l, n.s), n.inner), n.s)
  }

  ghost function PlayAll<T>(l: Ledger<T>, ns: seq<Nest<T>>): (r: Ledger<T>)
    requires Inv(l) && PlayableAll(l.list, ns)
    ensures r == l
    decreases ns, 0
  {
    if ns == [] then l else PlayAll(Play(l, ns[0]), ns[1..])
  }
}
