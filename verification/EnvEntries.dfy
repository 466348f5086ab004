/** Environment entries of the form "name=value", and what a list of them means. */
module EnvEntries {

  type Environment = map<string, string>

  /** The position of the first '=', or the length of the entry if there is none. */
  function EqualSign(e: string): (i: nat)
    ensures i <= |e| && (i < |e| ==> e[i] == '=') && '=' !in e[..i]
  {
    if e == [] || e[0] == '=' then 0 else 1 + EqualSign(e[1..])
  }

  predicate HasValue(e: string) {
    EqualSign(e) < |e|
  }

  function Name(e: string): (n: string)
    ensures '=' !in n
  {
    e[..EqualSign(e)]
  }

  function Value(e: string): (v: string)
    requires HasValue(e)
    ensures e == Name(e) + "=" + v
  {
    e[EqualSign(e) + 1..]
  }

  lemma {:induction false} NameIsUnique(e: string, n: string, v: string)
    requires e == n + "=" + v && '=' !in n
    ensures HasValue(e) && Name(e) == n && Value(e) == v
  {
    assert e[|n|] == '=';
    assert forall k :: 0 <= k < |n| ==> e[k] == n[k];
  }

  lemma BareName(n: string)
    requires '=' !in n
    ensures !HasValue(n) && Name(n) == n
  {
  }

  /** Comparing up to and including the '=' compares the names. */
  lemma SamePrefixIsSameName(e: string, f: string)
    requires HasValue(e)
    ensures e[..EqualSign(e) + 1] <= f <==> HasValue(f) && Name(f) == Name(e)
  {
    var prefix := e[..EqualSign(e) + 1];
    assert prefix == Name(e) + "=";
    if prefix <= f {
      NameIsUnique(f, Name(e), f[|prefix|..]);
    }
    if HasValue(f) && Name(f) == Name(e) {
      assert f == Name(e) + "=" + Value(f);
    }
  }

  lemma EqualIsSameValue(e: string, f: string)
    requires HasValue(e) && HasValue(f)
    ensures e == f <==> Name(e) == Name(f) && Value(e) == Value(f)
  {
    assert e == Name(e) + "=" + Value(e) && f == Name(f) + "=" + Value(f);
  }

  /** What putenv does: an entry with a value sets the name, a bare name removes it. */
  function Put(env: Environment, e: string): (r: Environment) {
    if HasValue(e) then env[Name(e) := Value(e)] else env - {e}
  }

  /** All entries that have a value, put one after the other; the last one for a name wins. */
  function PutAll(env: Environment, es: seq<string>): (r: Environment) {
    if es == [] then env else
    var before := PutAll(env, es[..|es| - 1]);
    var e := es[|es| - 1];
    if HasValue(e) then Put(before, e) else before
  }

  /** The variables a list of entries defines. */
  function Meaning(es: seq<string>): (m: Environment) {
    PutAll(map[], es)
  }

  lemma {:induction false} PutAllOverrides(env: Environment, es: seq<string>)
    ensures PutAll(env, es) == env + Meaning(es)
  {
    if es == [] {
      assert env + map[] == env;
    } else {
      PutAllOverrides(env, es[..|es| - 1]);
    }
  }

  /** A variable has the value some entry of the list gives it; without one it is not defined. */
  lemma {:induction false} MeaningIsListed(es: seq<string>, n: string)
    ensures n in Meaning(es) ==> '=' !in n && n + "=" + Meaning(es)[n] in es
    ensures n !in Meaning(es) ==> forall e :: e in es && HasValue(e) ==> Name(e) != n
  {
    if es != [] {
      MeaningIsListed(es[..|es| - 1], n);
      var e := es[|es| - 1];
      assert es == es[..|es| - 1] + [e];
    }
  }

  /** The last entry for a name decides its value. */
  lemma {:induction false} LastEntryWins(es: seq<string>, i: nat)
    requires i < |es| && HasValue(es[i])
    requires forall j :: i < j < |es| && HasValue(es[j]) ==> Name(es[j]) != Name(es[i])
    ensures Name(es[i]) in Meaning(es) && es[i] == Name(es[i]) + "=" + Meaning(es)[Name(es[i])]
    decreases |es|
  {
    hide HasValue, Name, Value;
    var rest := es[..|es| - 1];
    if i < |es| - 1 {
      LastEntryWins(rest, i);
      assert rest[i] == es[i];
    }
  }
}
