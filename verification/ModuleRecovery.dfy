/** The parser over tokens as it goes on after errors: what is reported, what is taken and which names come out,
    for every token stream. It agrees with the grammar's parser as long as nothing is reported. */
module ModuleRecovery {
  import opened ModuleTokens
  import G = ModuleGrammar
  import opened ModuleNames

  const UNEXPECTED := -2212
  const MISSING_NAME := -2213

  /** The tokens to come, and the reports so far. The errors of the first token are reported already. */
  datatype Place = Place(ts: seq<Token>, log: seq<int>)

  function Cleared(ts: seq<Token>): (r: seq<Token>)
    requires ts != []
    ensures |r| == |ts| && (ts[0].report == [] ==> r == ts)
  {
    [ts[0].(report := [])] + ts[1..]
  }

  /** Later places have no more tokens to come, and at least the reports of earlier ones. */
  predicate Reaches(s: Place, t: Place) {
    s.ts != [] && t.ts != [] && |t.ts| <= |s.ts| && s.log <= t.log
  }

  /** Takes the token expected; any other one is reported and stays. The end is never passed. */
  function Take(s: Place, code: Code): (t: Place)
    requires s.ts != []
    ensures Reaches(s, t)
    ensures s.ts[0].code == code && |s.ts| > 1 ==> |t.ts| < |s.ts|
  {
    if s.ts[0].code != code then s.(log := s.log + [UNEXPECTED])
    else
      var rest := if |s.ts| == 1 then s.ts else s.ts[1..];
      Place(Cleared(rest), s.log + rest[0].report)
  }

  datatype Parts = Parts(cat: string, sch: string, mod: string)

  /** A module name with up to two parts before it. Where an identifier is missing after a dot, all parts
      come out empty. */
  function TakePath(s: Place, d: Defaults): (r: (Parts, Place))
    requires s.ts != []
    ensures Reaches(s, r.1)
  {
    if s.ts[0].code != Id then (Parts("", "", ""), s)
    else
      var a := Take(s, Id);
      if a.ts[0].code != Dot then (Parts(d.cat, d.sch, s.ts[0].text), a)
      else
        var b := Take(a, Dot);
        if b.ts[0].code != Id then (Parts("", "", ""), b.(log := b.log + [MISSING_NAME]))
        else
          var c := Take(b, Id);
          if c.ts[0].code != Dot then (Parts(d.cat, s.ts[0].text, b.ts[0].text), c)
          else
            var e := Take(c, Dot);
            if e.ts[0].code != Id then (Parts("", "", ""), e.(log := e.log + [MISSING_NAME]))
            else (Parts(s.ts[0].text, b.ts[0].text, e.ts[0].text), Take(e, Id))
  }

  function TakeQualifier(s: Place, keyword: Code, byDefault: string): (r: (string, Place))
    requires s.ts != []
    ensures Reaches(s, r.1)
  {
    if s.ts[0].code != keyword then (byDefault, s)
    else
      var e := Take(Take(s, keyword), Equal);
      if e.ts[0].code != Id then (byDefault, e) else (e.ts[0].text, Take(e, Id))
  }

  datatype Marks = Marks(grp: string, tgt: string, ver: string)

  function TakeQualifiers(s: Place, d: Defaults): (r: (Marks, Place))
    requires s.ts != []
    ensures Reaches(s, r.1)
  {
    var g := TakeQualifier(s, ModuleGroup, d.grp);
    var t := TakeQualifier(g.1, ModuleTableSet, d.tgt);
    var v := TakeQualifier(t.1, ModuleVersion, d.ver);
    (Marks(g.0, t.0, v.0), v.1)
  }

  /** One item: a name exactly if it starts with an identifier. */
  function TakeItem(s: Place, d: Defaults): (r: (seq<Name>, Place))
    requires s.ts != []
    ensures Reaches(s, r.1) && |r.0| == if s.ts[0].code == Id then 1 else 0
  {
    if s.ts[0].code != Id then ([], s)
    else
      var p := TakePath(s, d);
      var q := TakeQualifiers(p.1, d);
      ([Compose(q.0.grp, p.0.cat, p.0.sch, p.0.mod, q.0.tgt, q.0.ver)], q.1)
  }

  /** Goes on with the list after the names already found. */
  function TakeMore(s: Place, d: Defaults, names: seq<Name>): (r: (seq<Name>, Place))
    requires s.ts != []
    ensures Reaches(s, r.1) && names <= r.0
    decreases |s.ts|
  {
    if s.ts[0].code != Comma || |s.ts| == 1 then (names, s)
    else
      var i := TakeItem(Take(s, Comma), d);
      TakeMore(i.1, d, names + i.0)
  }

  function TakeItems(s: Place, d: Defaults, names: seq<Name>): (r: (seq<Name>, Place))
    requires s.ts != []
    ensures Reaches(s, r.1) && names <= r.0
  {
    var i := TakeItem(s, d);
    TakeMore(i.1, d, names + i.0)
  }

  function TakeList(s: Place, d: Defaults, names: seq<Name>): (r: (seq<Name>, Place))
    requires s.ts != []
    ensures Reaches(s, r.1) && names <= r.0
  {
    var l := TakeItems(Take(s, LBrace), d, names);
    (l.0, Take(Take(l.1, RBrace), Eof))
  }

  // What is reported.

  /** A token that is not the expected one is reported and stays. */
  lemma UnexpectedIsReported(s: Place, code: Code)
    requires s.ts != [] && s.ts[0].code != code
    ensures Take(s, code) == Place(s.ts, s.log + [-2212])
  {
  }

  /** After a dot without an identifier nothing of the name is left, and that is reported. */
  lemma MissingNameIsReported(s: Place, d: Defaults)
    requires |s.ts| >= 3 && s.ts[0].code == Id && s.ts[1].code == Dot && s.ts[2].code != Id
    requires s.ts[1].report == [] && s.ts[2].report == []
    ensures TakePath(s, d) == (Parts("", "", ""), Place(s.ts[2..], s.log + [-2213]))
  {
    hide Cleared;
    var a := Take(s, Id);
    assert a == Place(s.ts[1..], s.log);
    assert s.ts[1..][1..] == s.ts[2..];
    assert Take(a, Dot) == Place(s.ts[2..], s.log);
  }

  lemma MissingLastNameIsReported(s: Place, d: Defaults)
    requires |s.ts| >= 5 && s.ts[0].code == Id && s.ts[1].code == Dot && s.ts[2].code == Id && s.ts[3].code == Dot
    requires s.ts[4].code != Id && forall k :: 1 <= k < 5 ==> s.ts[k].report == []
    ensures TakePath(s, d) == (Parts("", "", ""), Place(s.ts[4..], s.log + [-2213]))
  {
    hide Cleared;
    var a := Take(s, Id);
    assert a == Place(s.ts[1..], s.log);
    var b := Take(a, Dot);
    assert s.ts[1..][1..] == s.ts[2..];
    assert b == Place(s.ts[2..], s.log);
    var c := Take(b, Id);
    assert s.ts[2..][1..] == s.ts[3..];
    assert c == Place(s.ts[3..], s.log);
    assert s.ts[3..][1..] == s.ts[4..];
    assert Take(c, Dot) == Place(s.ts[4..], s.log);
  }

  /** Without its equal sign a qualifier is still taken, after a report. */
  lemma MissingEqualIsReported(s: Place, keyword: Code, byDefault: string)
    requires |s.ts| >= 3 && s.ts[0].code == keyword && s.ts[1].code == Id && keyword != Id
    requires s.ts[1].report == [] && s.ts[2].report == []
    ensures TakeQualifier(s, keyword, byDefault) == (s.ts[1].text, Place(s.ts[2..], s.log + [-2212]))
  {
    hide Cleared;
    var k := Take(s, keyword);
    assert k == Place(s.ts[1..], s.log);
    var e := Take(k, Equal);
    assert e == Place(s.ts[1..], s.log + [-2212]);
    assert s.ts[1..][1..] == s.ts[2..];
    assert Take(e, Id) == Place(s.ts[2..], s.log + [-2212]);
  }

  /** Without its opening brace a list is read all the same, after a report; and so it is without the closing one. */
  lemma MissingBraceIsReported(s: Place, d: Defaults)
    requires s.ts != [] && s.ts[0].code != LBrace
    ensures var items := TakeItems(Place(s.ts, s.log + [-2212]), d, []);
            && TakeList(s, d, []).0 == items.0
            && (items.1.ts[0].code != RBrace && items.1.ts[0].code != Eof ==>
                  TakeList(s, d, []).1 == Place(items.1.ts, items.1.log + [-2212, -2212]))
  {
    hide TakeItems;
    var items := TakeItems(Place(s.ts, s.log + [-2212]), d, []).1;
    assert items.log + [-2212] + [-2212] == items.log + [-2212, -2212];
  }

  // Nothing is reported exactly when the grammar's parser succeeds, and then both agree.

  /** The first token has no errors of its own any more. */
  predicate Fine(s: Place) {
    s.ts != [] && s.ts[0].report == []
  }

  lemma TakeAgrees(s: Place, code: Code)
    requires Fine(s)
    ensures var t := Take(s, code);
            && Fine(t) && (t.log == s.log <==> G.Match(s.ts, code).Parsed?)
            && (t.log == s.log ==> t.ts == G.Match(s.ts, code).rest)
  {
  }

  lemma PathAgrees(s: Place, d: Defaults)
    requires Fine(s) && s.ts[0].code == Id
    ensures var t := TakePath(s, d); var p := G.ParsePath(s.ts);
            && Fine(t.1) && (t.1.log == s.log <==> p.Parsed?)
            && (t.1.log == s.log ==>
                  && t.1.ts == p.rest && t.0.mod == p.value.mod
                  && t.0.cat == CatalogOf(p.value, d) && t.0.sch == SchemaOf(p.value, d))
  {
    hide Take, Fine;
    TakeAgrees(s, Id);
    var a := Take(s, Id);
    TakeAgrees(a, Dot);
    var b := Take(a, Dot);
    TakeAgrees(b, Id);
    var c := Take(b, Id);
    TakeAgrees(c, Dot);
    var e := Take(c, Dot);
    TakeAgrees(e, Id);
    StillFine(b, MISSING_NAME);
    StillFine(e, MISSING_NAME);
  }

  lemma StillFine(s: Place, code: int)
    requires Fine(s)
    ensures Fine(s.(log := s.log + [code]))
  {
  }

  lemma QualifierAgrees(s: Place, keyword: Code, byDefault: string)
    requires Fine(s)
    ensures var t := TakeQualifier(s, keyword, byDefault); var q := G.ParseQualifier(s.ts, keyword);
            && Fine(t.1) && (t.1.log == s.log <==> q.Parsed?)
            && (t.1.log == s.log ==> t.1.ts == q.rest && t.0 == Chosen(q.value, byDefault))
  {
    hide Take, Fine;
    TakeAgrees(s, keyword);
    var k := Take(s, keyword);
    TakeAgrees(k, Equal);
    TakeAgrees(Take(k, Equal), Id);
  }

  lemma QualifiersAgree(s: Place, d: Defaults)
    requires Fine(s)
    ensures var t := TakeQualifiers(s, d); var q := G.ParseQualifiers(s.ts);
            && Fine(t.1) && (t.1.log == s.log <==> q.Parsed?)
            && (t.1.log == s.log ==>
                  && t.1.ts == q.rest && t.0.grp == Chosen(q.value.grp, d.grp)
                  && t.0.tgt == Chosen(q.value.tgt, d.tgt) && t.0.ver == Chosen(q.value.ver, d.ver))
  {
    hide TakeQualifier, G.ParseQualifier, Fine;
    QualifierAgrees(s, ModuleGroup, d.grp);
    var g := TakeQualifier(s, ModuleGroup, d.grp).1;
    QualifierAgrees(g, ModuleTableSet, d.tgt);
    QualifierAgrees(TakeQualifier(g, ModuleTableSet, d.tgt).1, ModuleVersion, d.ver);
  }

  lemma ItemAgrees(s: Place, d: Defaults)
    requires s.ts != [] && Fine(s)
    ensures var t := TakeItem(s, d); var i := G.ParseItem(s.ts);
            && Fine(t.1) && (t.1.log == s.log <==> i.Parsed?)
            && (t.1.log == s.log ==> t.1.ts == i.rest && t.0 == Denotes(i.value, d))
  {
    hide TakePath, TakeQualifiers, G.ParsePath, G.ParseQualifiers, Fine;
    if s.ts[0].code == Id {
      PathAgrees(s, d);
      QualifiersAgree(TakePath(s, d).1, d);
    }
  }

  lemma {:induction false} MoreAgrees(s: Place, d: Defaults, before: seq<Name>, items: seq<G.Item>)
    requires s.ts != [] && Fine(s)
    ensures var names := before + DenotesAll(items, d);
            var t := TakeMore(s, d, names); var m := G.ParseMore(s.ts, items);
            && Fine(t.1) && (t.1.log == s.log <==> m.Parsed?)
            && (t.1.log == s.log ==> t.1.ts == m.rest && t.0 == before + DenotesAll(m.value, d))
    decreases |s.ts|
  {
    hide Take, TakeItem, G.Match, G.ParseItem, Fine, Denotes;
    if s.ts[0].code == Comma && |s.ts| > 1 {
      TakeAgrees(s, Comma);
      var c := Take(s, Comma);
      ItemAgrees(c, d);
      var i := TakeItem(c, d);
      if i.1.log == s.log {
        var item := G.ParseItem(c.ts).value;
        assert (items + [item])[..|items|] == items;
        assert before + DenotesAll(items, d) + Denotes(item, d) == before + (DenotesAll(items, d) + Denotes(item, d));
        MoreAgrees(i.1, d, before, items + [item]);
      } else {
        OnlyFine(i.1, d, before + DenotesAll(items, d) + i.0);
      }
    }
  }

  lemma {:induction false} OnlyFine(s: Place, d: Defaults, names: seq<Name>)
    requires s.ts != [] && Fine(s)
    ensures Fine(TakeMore(s, d, names).1)
    decreases |s.ts|
  {
    hide Take, TakeItem, Fine;
    if s.ts[0].code == Comma && |s.ts| > 1 {
      TakeAgrees(s, Comma);
      ItemAgrees(Take(s, Comma), d);
      var i := TakeItem(Take(s, Comma), d);
      OnlyFine(i.1, d, names + i.0);
    }
  }

  /** For every stream: nothing is reported exactly when it is accepted, and then the names are those its
      items denote. */
  lemma ListAgrees(s: Place, d: Defaults)
    requires Fine(s)
    ensures var t := TakeList(s, d, []); var l := G.ParseList(s.ts);
            && (t.1.log == s.log <==> l.Parsed?)
            && (t.1.log == s.log ==> t.0 == DenotesAll(l.value, d))
  {
    hide Take, TakeItem, TakeMore, G.Match, G.ParseItem, G.ParseMore, Fine, Denotes;
    TakeAgrees(s, LBrace);
    var b := Take(s, LBrace);
    ItemAgrees(b, d);
    var i := TakeItem(b, d);
    if i.1.log == s.log {
      var item := G.ParseItem(b.ts).value;
      assert [item][..0] == [];
      assert [] + DenotesAll([item], d) == [] + i.0;
      MoreAgrees(i.1, d, [], [item]);
    } else {
      OnlyFine(i.1, d, [] + i.0);
    }
    var m := TakeItems(b, d, []);
    TakeAgrees(m.1, RBrace);
    TakeAgrees(Take(m.1, RBrace), Eof);
  }
}
