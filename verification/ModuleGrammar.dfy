/** The grammar of module name lists, and a parser over tokens that follows it. */
module ModuleGrammar {
  import opened ModuleTokens

  /** One, two or three identifiers with dots in between. */
  datatype Path = One(mod: string) | Two(sch: string, mod: string) | Three(cat: string, sch: string, mod: string)

  /** A qualifier is missing, has nothing after its equal sign, or names something. */
  datatype Qualifier = Absent | Unnamed | Named(name: string)

  /** An item of the list may be empty. */
  datatype Item = Nothing | Item(path: Path, grp: Qualifier, tgt: Qualifier, ver: Qualifier)

  function Plain(code: Code): (r: Token) {
    Token(code, "", [])
  }

  function Identifier(name: string): (r: Token) {
    Token(Id, name, [])
  }

  function PathTokens(p: Path): (r: seq<Token>) {
    match p
    case One(mod) => [Identifier(mod)]
    case Two(sch, mod) => [Identifier(sch), Plain(Dot), Identifier(mod)]
    case Three(cat, sch, mod) => [Identifier(cat), Plain(Dot), Identifier(sch), Plain(Dot), Identifier(mod)]
  }

  function QualifierTokens(q: Qualifier, keyword: Code): (r: seq<Token>) {
    match q
    case Absent => []
    case Unnamed => [Plain(keyword), Plain(Equal)]
    case Named(name) => [Plain(keyword), Plain(Equal), Identifier(name)]
  }

  function ItemTokens(item: Item): (r: seq<Token>) {
    match item
    case Nothing => []
    case Item(path, grp, tgt, ver) =>
      PathTokens(path) + (QualifierTokens(grp, ModuleGroup) +
      (QualifierTokens(tgt, ModuleTableSet) + QualifierTokens(ver, ModuleVersion)))
  }

  /** Items after the first one, each with a comma before it. */
  function MoreTokens(items: seq<Item>): (r: seq<Token>) {
    if items == [] then [] else [Plain(Comma)] + (ItemTokens(items[0]) + MoreTokens(items[1..]))
  }

  /** The list in braces: at least one item, and nothing after it. */
  function ListTokens(items: seq<Item>): (r: seq<Token>)
    requires items != []
  {
    [Plain(LBrace)] + (ItemTokens(items[0]) + (MoreTokens(items[1..]) + [Plain(RBrace), Plain(Eof)]))
  }

  /** The tokens of a path, one by one. */
  lemma PathSpelledOut(a: string, b: string, c: string)
    ensures PathTokens(One(a)) == [Token(Id, a, [])]
    ensures PathTokens(Two(a, b)) == [Token(Id, a, []), Token(Dot, "", []), Token(Id, b, [])]
    ensures PathTokens(Three(a, b, c)) ==
      [Token(Id, a, []), Token(Dot, "", []), Token(Id, b, []), Token(Dot, "", []), Token(Id, c, [])]
  {
  }

  /** The tokens of a qualifier, which may lack its name. */
  lemma QualifierSpelledOut(keyword: Code, name: string)
    ensures QualifierTokens(Absent, keyword) == []
    ensures QualifierTokens(Unnamed, keyword) == [Token(keyword, "", []), Token(Equal, "", [])]
    ensures QualifierTokens(Named(name), keyword) ==
      [Token(keyword, "", []), Token(Equal, "", []), Token(Id, name, [])]
  {
  }

  /** The qualifiers come after the path, group before table set before version. */
  lemma ItemSpelledOut(p: Path, g: Qualifier, t: Qualifier, v: Qualifier)
    ensures ItemTokens(Nothing) == []
    ensures ItemTokens(Item(p, g, t, v)) ==
      PathTokens(p) + QualifierTokens(g, ModuleGroup) + QualifierTokens(t, ModuleTableSet) +
      QualifierTokens(v, ModuleVersion)
  {
    hide PathTokens, QualifierTokens;
  }

  /** Braces around the items, and commas between them. */
  lemma ListSpelledOut(a: Item, b: Item)
    ensures ListTokens([a]) == [Token(LBrace, "", [])] + ItemTokens(a) + [Token(RBrace, "", []), Token(Eof, "", [])]
    ensures ListTokens([a, b]) ==
      [Token(LBrace, "", [])] + ItemTokens(a) + [Token(Comma, "", [])] + ItemTokens(b) +
      [Token(RBrace, "", []), Token(Eof, "", [])]
  {
    hide ItemTokens;
    assert [a][1..] == [] && [a, b][1..] == [b] && [b][1..] == [];
    assert MoreTokens([b]) == [Plain(Comma)] + ItemTokens(b);
  }

  datatype Parsed<+T> = Failed | Parsed(value: T, rest: seq<Token>)

  /** Takes the token expected; the next one is scanned, which may fail. The end is never passed. */
  function Match(ts: seq<Token>, code: Code): (r: Parsed<()>)
    requires ts != []
    ensures r.Parsed? ==> r.rest != [] && |r.rest| <= |ts|
  {
    var rest := if |ts| == 1 then ts else ts[1..];
    if ts[0].code == code && rest[0].report == [] then Parsed((), rest) else Failed
  }

  function ParseIdentifier(ts: seq<Token>): (r: Parsed<string>)
    requires ts != []
    ensures r.Parsed? ==> r.rest != [] && |r.rest| <= |ts|
  {
    var m := Match(ts, Id);
    if m.Parsed? then Parsed(ts[0].text, m.rest) else Failed
  }

  /** A dot and an identifier. */
  function ParseDotted(ts: seq<Token>): (r: Parsed<string>)
    requires ts != []
    ensures r.Parsed? ==> r.rest != [] && |r.rest| <= |ts|
  {
    var dot := Match(ts, Dot);
    if dot.Parsed? then ParseIdentifier(dot.rest) else Failed
  }

  function ParsePath(ts: seq<Token>): (r: Parsed<Path>)
    requires ts != []
    ensures r.Parsed? ==> r.rest != [] && |r.rest| <= |ts|
  {
    var a := ParseIdentifier(ts);
    if a.Failed? then Failed
    else if a.rest[0].code != Dot then Parsed(One(a.value), a.rest)
    else
      var b := ParseDotted(a.rest);
      if b.Failed? then Failed
      else if b.rest[0].code != Dot then Parsed(Two(a.value, b.value), b.rest)
      else
        var c := ParseDotted(b.rest);
        if c.Failed? then Failed else Parsed(Three(a.value, b.value, c.value), c.rest)
  }

  function ParseQualifier(ts: seq<Token>, keyword: Code): (r: Parsed<Qualifier>)
    requires ts != []
    ensures r.Parsed? ==> r.rest != [] && |r.rest| <= |ts|
  {
    if ts[0].code != keyword then Parsed(Absent, ts)
    else
      var k := Match(ts, keyword);
      if k.Failed? then Failed
      else
        var e := Match(k.rest, Equal);
        if e.Failed? then Failed
        else if e.rest[0].code != Id then Parsed(Unnamed, e.rest)
        else
          var n := ParseIdentifier(e.rest);
          if n.Failed? then Failed else Parsed(Named(n.value), n.rest)
  }

  datatype Qualifiers = Qualifiers(grp: Qualifier, tgt: Qualifier, ver: Qualifier)

  function ParseQualifiers(ts: seq<Token>): (r: Parsed<Qualifiers>)
    requires ts != []
    ensures r.Parsed? ==> r.rest != [] && |r.rest| <= |ts|
  {
    var g := ParseQualifier(ts, ModuleGroup);
    if g.Failed? then Failed
    else
      var t := ParseQualifier(g.rest, ModuleTableSet);
      if t.Failed? then Failed
      else
        var v := ParseQualifier(t.rest, ModuleVersion);
        if v.Failed? then Failed else Parsed(Qualifiers(g.value, t.value, v.value), v.rest)
  }

  function ParseItem(ts: seq<Token>): (r: Parsed<Item>)
    requires ts != []
    ensures r.Parsed? ==> r.rest != [] && |r.rest| <= |ts|
  {
    if ts[0].code != Id then Parsed(Nothing, ts)
    else
      var p := ParsePath(ts);
      if p.Failed? then Failed
      else
        var q := ParseQualifiers(p.rest);
        if q.Failed? then Failed else Parsed(Item(p.value, q.value.grp, q.value.tgt, q.value.ver), q.rest)
  }

  /** Goes on with the list after the items already read. */
  function ParseMore(ts: seq<Token>, items: seq<Item>): (r: Parsed<seq<Item>>)
    requires ts != []
    ensures r.Parsed? ==> r.rest != [] && |r.rest| <= |ts|
    decreases |ts|
  {
    if ts[0].code != Comma || |ts| == 1 then Parsed(items, ts)
    else
      var c := Match(ts, Comma);
      if c.Failed? then Failed
      else
        var i := ParseItem(c.rest);
        if i.Failed? then Failed else ParseMore(i.rest, items + [i.value])
  }

  function ParseItems(ts: seq<Token>): (r: Parsed<seq<Item>>)
    requires ts != []
    ensures r.Parsed? ==> r.rest != [] && |r.rest| <= |ts|
  {
    var i := ParseItem(ts);
    if i.Failed? then Failed else ParseMore(i.rest, [i.value])
  }

  function ParseList(ts: seq<Token>): (r: Parsed<seq<Item>>)
    requires ts != []
  {
    var open := Match(ts, LBrace);
    if open.Failed? then Failed
    else
      var items := ParseItems(open.rest);
      if items.Failed? then Failed
      else
        var close := Match(items.rest, RBrace);
        if close.Failed? then Failed
        else
          var end := Match(close.rest, Eof);
          if end.Failed? then Failed else Parsed(items.value, end.rest)
  }

  /** The tokens of a text: only the last one is the end, and only identifiers carry text. */
  ghost predicate Stream(ts: seq<Token>) {
    && ts != [] && ts[|ts| - 1] == Plain(Eof)
    && forall k :: 0 <= k < |ts| ==> ts[k] == Seen(ts[k]) && (ts[k].code == Eof <==> k == |ts| - 1)
  }

  // What the grammar allows is parsed to what it denotes.

  /** The token after an item is fine and cannot continue it. */
  ghost predicate Follows(rest: seq<Token>) {
    rest != [] && rest[0].report == [] && (rest[0].code == Comma || rest[0].code == RBrace)
  }

  /** The token does not continue a qualifier, nor start one named in `keywords`. */
  ghost predicate After(rest: seq<Token>, keywords: set<Code>) {
    rest != [] && rest[0].report == [] && rest[0].code !in keywords && rest[0].code != Id && rest[0].code != Dot
  }

  lemma PathParses(p: Path, rest: seq<Token>)
    requires After(rest, {})
    ensures ParsePath(PathTokens(p) + rest) == Parsed(p, rest)
    ensures (PathTokens(p) + rest)[0].code == Id && (PathTokens(p) + rest)[0].report == []
  {
    var ts := PathTokens(p) + rest;
    match p
    case One(mod) =>
      assert ts[1..] == rest;
    case Two(sch, mod) =>
      assert ts[1..] == [Plain(Dot), Identifier(mod)] + rest;
      assert ts[1..][1..][1..] == rest;
    case Three(cat, sch, mod) =>
      assert ts[1..] == [Plain(Dot), Identifier(sch), Plain(Dot), Identifier(mod)] + rest;
      assert ts[1..][1..][1..] == [Plain(Dot), Identifier(mod)] + rest;
      assert ts[1..][1..][1..][1..][1..] == rest;
  }

  lemma QualifierParses(q: Qualifier, keyword: Code, rest: seq<Token>, keywords: set<Code>)
    requires After(rest, keywords + {keyword}) && keyword !in keywords && keyword != Id && keyword != Dot
    ensures ParseQualifier(QualifierTokens(q, keyword) + rest, keyword) == Parsed(q, rest)
    ensures After(QualifierTokens(q, keyword) + rest, keywords)
  {
    var ts := QualifierTokens(q, keyword) + rest;
    match q
    case Absent =>
      assert ts == rest;
    case Unnamed =>
      assert ts[1..][1..] == rest;
    case Named(name) =>
      assert ts[1..] == [Plain(Equal), Identifier(name)] + rest;
      assert ts[1..][1..] == [Identifier(name)] + rest;
      assert ts[1..][1..][1..] == rest;
      assert Match(ts, keyword) == Parsed((), ts[1..]);
      assert Match(ts[1..], Equal) == Parsed((), ts[1..][1..]);
      assert ParseIdentifier(ts[1..][1..]) == Parsed(name, rest);
  }

  lemma QualifiersParse(g: Qualifier, t: Qualifier, v: Qualifier, rest: seq<Token>)
    requires After(rest, {ModuleGroup, ModuleTableSet, ModuleVersion})
    ensures var ts := QualifierTokens(g, ModuleGroup) +
                      (QualifierTokens(t, ModuleTableSet) + (QualifierTokens(v, ModuleVersion) + rest));
            After(ts, {}) && ParseQualifiers(ts) == Parsed(Qualifiers(g, t, v), rest)
  {
    hide ParseQualifier, QualifierTokens;
    var afterT := QualifierTokens(v, ModuleVersion) + rest;
    var afterG := QualifierTokens(t, ModuleTableSet) + afterT;
    QualifierParses(v, ModuleVersion, rest, {ModuleGroup, ModuleTableSet});
    QualifierParses(t, ModuleTableSet, afterT, {ModuleGroup});
    QualifierParses(g, ModuleGroup, afterG, {});
  }

  lemma ItemParses(item: Item, rest: seq<Token>)
    requires Follows(rest)
    ensures ParseItem(ItemTokens(item) + rest) == Parsed(item, rest)
    ensures (ItemTokens(item) + rest)[0].report == []
  {
    hide ParsePath, ParseQualifiers, PathTokens, QualifierTokens;
    if item == Nothing {
      assert ItemTokens(item) + rest == rest;
    } else {
      var qualifiers := QualifierTokens(item.grp, ModuleGroup) +
          (QualifierTokens(item.tgt, ModuleTableSet) + (QualifierTokens(item.ver, ModuleVersion) + rest));
      assert ItemTokens(item) + rest == PathTokens(item.path) + qualifiers;
      QualifiersParse(item.grp, item.tgt, item.ver, rest);
      PathParses(item.path, qualifiers);
    }
  }

  lemma {:induction false} MoreParses(items: seq<Item>, before: seq<Item>, rest: seq<Token>)
    requires Follows(rest) && rest[0].code == RBrace
    ensures ParseMore(MoreTokens(items) + rest, before) == Parsed(before + items, rest)
  {
    hide ParseItem, ItemTokens;
    if items == [] {
      assert MoreTokens(items) + rest == rest && before + items == before;
    } else {
      var after := MoreTokens(items[1..]) + rest;
      var ts := MoreTokens(items) + rest;
      assert ts[1..] == ItemTokens(items[0]) + after;
      MoreParses(items[1..], before + [items[0]], rest);
      assert before + [items[0]] + items[1..] == before + items;
      ItemParses(items[0], after);
    }
  }

  /** Every list the grammar allows is accepted, with that list as its only reading. */
  lemma ListParses(items: seq<Item>)
    requires items != []
    ensures ParseList(ListTokens(items)) == Parsed(items, [Plain(Eof)])
  {
    hide ParseItem, ParseMore, ItemTokens;
    var ts, rest := ListTokens(items), [Plain(RBrace), Plain(Eof)];
    var after := MoreTokens(items[1..]) + rest;
    assert ts[1..] == ItemTokens(items[0]) + after;
    ItemParses(items[0], after);
    MoreParses(items[1..], [items[0]], rest);
    assert [items[0]] + items[1..] == items;
    assert rest[1..] == [Plain(Eof)];
  }

  // What is parsed is allowed by the grammar.

  /** A stream whose first token was scanned without an error. */
  ghost predicate Good(ts: seq<Token>) {
    Stream(ts) && ts[0].report == []
  }

  lemma MatchTakes(ts: seq<Token>, code: Code)
    requires Good(ts) && code != Eof && Match(ts, code).Parsed?
    ensures ts == [if code == Id then Identifier(ts[0].text) else Plain(code)] + Match(ts, code).rest
    ensures Good(Match(ts, code).rest)
  {
  }

  lemma DottedTakes(ts: seq<Token>)
    requires Good(ts) && ParseDotted(ts).Parsed?
    ensures var d := ParseDotted(ts); ts == [Plain(Dot), Identifier(d.value)] + d.rest && Good(d.rest)
  {
    hide Good;
    MatchTakes(ts, Dot);
    MatchTakes(Match(ts, Dot).rest, Id);
  }

  lemma PathTakes(ts: seq<Token>)
    requires Good(ts) && ParsePath(ts).Parsed?
    ensures var p := ParsePath(ts); ts == PathTokens(p.value) + p.rest && Good(p.rest)
  {
    hide Good, Match, ParseDotted;
    MatchTakes(ts, Id);
    var a := ParseIdentifier(ts);
    if a.rest[0].code == Dot {
      DottedTakes(a.rest);
      var b := ParseDotted(a.rest);
      if b.rest[0].code == Dot {
        DottedTakes(b.rest);
      }
    }
  }

  lemma QualifierTakes(ts: seq<Token>, keyword: Code)
    requires Good(ts) && keyword != Id && keyword != Eof && ParseQualifier(ts, keyword).Parsed?
    ensures var q := ParseQualifier(ts, keyword); ts == QualifierTokens(q.value, keyword) + q.rest && Good(q.rest)
  {
    hide Good, Match;
    if ts[0].code == keyword {
      MatchTakes(ts, keyword);
      var k := Match(ts, keyword);
      MatchTakes(k.rest, Equal);
      var e := Match(k.rest, Equal);
      if e.rest[0].code == Id {
        MatchTakes(e.rest, Id);
      }
    }
  }

  lemma ItemTakes(ts: seq<Token>)
    requires Good(ts) && ParseItem(ts).Parsed?
    ensures var i := ParseItem(ts); ts == ItemTokens(i.value) + i.rest && Good(i.rest)
  {
    hide Good, ParsePath, ParseQualifier, PathTokens, QualifierTokens;
    if ts[0].code == Id {
      PathTakes(ts);
      var p := ParsePath(ts);
      QualifierTakes(p.rest, ModuleGroup);
      var g := ParseQualifier(p.rest, ModuleGroup);
      QualifierTakes(g.rest, ModuleTableSet);
      var t := ParseQualifier(g.rest, ModuleTableSet);
      QualifierTakes(t.rest, ModuleVersion);
    }
  }

  lemma {:induction false} MoreTakes(ts: seq<Token>, items: seq<Item>)
    requires Good(ts) && ParseMore(ts, items).Parsed?
    ensures var m := ParseMore(ts, items);
            items <= m.value && ts == MoreTokens(m.value[|items|..]) + m.rest && Good(m.rest)
    decreases |ts|
  {
    hide Good, Match, ParseItem, ItemTokens;
    if ts[0].code == Comma && |ts| > 1 {
      MatchTakes(ts, Comma);
      var c := Match(ts, Comma);
      ItemTakes(c.rest);
      var i := ParseItem(c.rest);
      MoreTakes(i.rest, items + [i.value]);
      var all := ParseMore(ts, items).value;
      assert all[|items|..][0] == i.value && all[|items|..][1..] == all[|items| + 1..];
    }
  }

  /** The main law: the parser accepts exactly the streams the grammar allows, and then without any error
      reported by the scanner. */
  lemma AcceptsIffGrammatical(ts: seq<Token>)
    requires Good(ts)
    ensures ParseList(ts).Parsed? <==> exists items :: items != [] && ts == ListTokens(items)
    ensures ParseList(ts).Parsed? ==> ParseList(ts).value != [] && ts == ListTokens(ParseList(ts).value)
  {
    hide ParseItem, ParseMore, ItemTokens, MoreTokens;
    if exists items :: items != [] && ts == ListTokens(items) {
      var items :| items != [] && ts == ListTokens(items);
      ListParses(items);
    }
    if ParseList(ts).Parsed? {
      ListTakes(ts);
    }
  }

  lemma ListTakes(ts: seq<Token>)
    requires Good(ts) && ParseList(ts).Parsed?
    ensures var l := ParseList(ts); l.value != [] && ts == ListTokens(l.value)
  {
    hide Good, Match, ParseItem, ParseMore, ItemTokens, MoreTokens;
    MatchTakes(ts, LBrace);
    var open := Match(ts, LBrace);
    ItemTakes(open.rest);
    var i := ParseItem(open.rest);
    MoreTakes(i.rest, [i.value]);
    var more := ParseMore(i.rest, [i.value]);
    MatchTakes(more.rest, RBrace);
    EndIsAlone(Match(more.rest, RBrace).rest);
  }

  lemma EndIsAlone(ts: seq<Token>)
    requires Good(ts) && Match(ts, Eof).Parsed?
    ensures ts == [Plain(Eof)]
  {
  }

  /** A stream is grammatical exactly when its first token is fine and it is accepted, and has one reading. */
  lemma OnlyReading(ts: seq<Token>)
    requires Stream(ts)
    ensures ts[0].report == [] && ParseList(ts).Parsed? <==> exists items :: items != [] && ts == ListTokens(items)
    ensures forall items :: items != [] && ts == ListTokens(items) ==> ParseList(ts) == Parsed(items, [Plain(Eof)])
  {
    hide ParseList, ItemTokens, MoreTokens;
    if ts[0].report == [] {
      AcceptsIffGrammatical(ts);
    }
    forall items | items != [] && ts == ListTokens(items)
      ensures ParseList(ts) == Parsed(items, [Plain(Eof)])
    {
      ListParses(items);
    }
  }

  lemma {:induction false} TokensAreStream(convert: Converter, buffer: string, i: nat)
    requires i <= |buffer| && Terminated(buffer)
    ensures Stream(Tokens(convert, buffer, i))
    decreases |buffer| - i
  {
    hide ScanFrom;
    var s := ScanFrom(convert, buffer, i);
    if s.token.code != Eof {
      TokensAreStream(convert, buffer, s.next);
    }
  }
}
