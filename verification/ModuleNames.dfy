/** Externally qualified module names, and what the items of a module name list denote. */
module ModuleNames {
  import opened ModuleGrammar

  datatype Name = Name(catalog: string, schema: string, mod: string, found: bool)

  datatype Defaults = Defaults(cat: string, sch: string, grp: string, tgt: string, ver: string)

  function Compose(grp: string, cat: string, sch: string, mod: string, tgt: string, ver: string): (r: Name) {
    Name(cat, sch, Qualify(grp, mod, tgt, ver), false)
  }

  /** Without any qualifier, and when it is qualified already, the module name stays as it is. */
  function Qualify(grp: string, mod: string, tgt: string, ver: string): (r: string) {
    if grp == "" && tgt == "" && ver == "" then mod
    else if '^' in mod then mod
    else grp + "^" + mod + "^" + tgt + "^" + ver
  }

  function FullName(n: Name): (r: string) {
    n.catalog + "." + n.schema + "." + n.mod
  }

  /** The parts of a text between its '^' characters. */
  function Split(s: string): (r: seq<string>)
    ensures r != []
  {
    if s == [] then [""]
    else if s[0] == '^' then [""] + Split(s[1..])
    else var rest := Split(s[1..]); [[s[0]] + rest[0]] + rest[1..]
  }

  lemma {:induction false} SplitAlone(a: string)
    requires '^' !in a
    ensures Split(a) == [a]
  {
    if a != [] {
      SplitAlone(a[1..]);
      assert [a[0]] + a[1..] == a;
    }
  }

  lemma {:induction false} SplitFirst(a: string, s: string)
    requires '^' !in a
    ensures Split(a + ("^" + s)) == [a] + Split(s)
  {
    if a == [] {
      assert a + ("^" + s) == "^" + s && ("^" + s)[1..] == s;
    } else {
      SplitFirst(a[1..], s);
      assert (a + ("^" + s))[1..] == a[1..] + ("^" + s);
      assert [a[0]] + a[1..] == a;
    }
  }

  /** A qualified name splits back into the parts it was made of. */
  lemma QualifiedSplits(grp: string, mod: string, tgt: string, ver: string)
    requires '^' !in grp && '^' !in mod && '^' !in tgt && '^' !in ver
    ensures Split(Qualify(grp, mod, tgt, ver)) ==
              if grp == "" && tgt == "" && ver == "" then [mod] else [grp, mod, tgt, ver]
  {
    hide Split;
    SplitAlone(mod);
    SplitAlone(ver);
    SplitFirst(tgt, ver);
    var afterMod := tgt + ("^" + ver);
    SplitFirst(mod, afterMod);
    var afterGrp := mod + ("^" + afterMod);
    SplitFirst(grp, afterGrp);
    assert grp + "^" + mod + "^" + tgt + "^" + ver == grp + ("^" + afterGrp);
  }

  /** So different parts give different names. */
  lemma QualifiedIsUnique(grp: string, mod: string, tgt: string, ver: string,
                          grp': string, mod': string, tgt': string, ver': string)
    requires '^' !in grp && '^' !in mod && '^' !in tgt && '^' !in ver
    requires '^' !in grp' && '^' !in mod' && '^' !in tgt' && '^' !in ver'
    requires Qualify(grp, mod, tgt, ver) == Qualify(grp', mod', tgt', ver')
    ensures grp == grp' && mod == mod' && tgt == tgt' && ver == ver'
  {
    hide Qualify;
    QualifiedSplits(grp, mod, tgt, ver);
    QualifiedSplits(grp', mod', tgt', ver');
    var s, s' := Split(Qualify(grp, mod, tgt, ver)), Split(Qualify(grp', mod', tgt', ver'));
    if |s| == 4 {
      assert s[0] == s'[0] && s[1] == s'[1] && s[2] == s'[2] && s[3] == s'[3];
    } else {
      assert s[0] == s'[0];
    }
  }

  /** Qualifying leaves a name alone exactly when there is nothing to add or it was qualified before. */
  lemma QualifiedOnce(grp: string, mod: string, tgt: string, ver: string)
    ensures Qualify(grp, mod, tgt, ver) == mod <==> '^' in mod || (grp == "" && tgt == "" && ver == "")
    ensures forall g, t, v ::
              '^' in Qualify(grp, mod, tgt, ver) ==>
              Qualify(g, Qualify(grp, mod, tgt, ver), t, v) == Qualify(grp, mod, tgt, ver)
  {
    if !('^' in mod) && !(grp == "" && tgt == "" && ver == "") {
      assert |Qualify(grp, mod, tgt, ver)| == |grp| + |mod| + |tgt| + |ver| + 3;
    }
  }

  /** The value of a qualifier: the default unless one is named. */
  function Chosen(q: Qualifier, byDefault: string): (r: string) {
    if q.Named? then q.name else byDefault
  }

  function CatalogOf(p: Path, d: Defaults): (r: string) {
    if p.Three? then p.cat else d.cat
  }

  function SchemaOf(p: Path, d: Defaults): (r: string) {
    if p.One? then d.sch else p.sch
  }

  /** The names an item stands for: none for an empty one. */
  function Denotes(item: Item, d: Defaults): (r: seq<Name>) {
    match item
    case Nothing => []
    case Item(path, grp, tgt, ver) =>
      [Compose(Chosen(grp, d.grp), CatalogOf(path, d), SchemaOf(path, d), path.mod,
               Chosen(tgt, d.tgt), Chosen(ver, d.ver))]
  }

  /** What an item denotes, spelled out: the parts that are missing or unnamed are the defaults. */
  lemma ItemDenotes(p: Path, g: Qualifier, t: Qualifier, v: Qualifier, d: Defaults)
    ensures
      var names := Denotes(Item(p, g, t, v), d);
      var grp := match g case Named(n) => n case _ => d.grp;
      var tgt := match t case Named(n) => n case _ => d.tgt;
      var ver := match v case Named(n) => n case _ => d.ver;
      && |names| == 1 && !names[0].found
      && (p.One? ==> names[0].catalog == d.cat && names[0].schema == d.sch)
      && (p.Two? ==> names[0].catalog == d.cat && names[0].schema == p.sch)
      && (p.Three? ==> names[0].catalog == p.cat && names[0].schema == p.sch)
      && names[0].mod == if '^' in p.mod || (grp == "" && tgt == "" && ver == "") then p.mod
                         else grp + "^" + p.mod + "^" + tgt + "^" + ver
  {
  }

  function DenotesAll(items: seq<Item>, d: Defaults): (r: seq<Name>) {
    if items == [] then [] else DenotesAll(items[..|items| - 1], d) + Denotes(items[|items| - 1], d)
  }
}
