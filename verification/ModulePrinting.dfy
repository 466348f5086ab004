/** Writing module name lists: what is written in any layout is scanned and parsed back. */
module ModulePrinting {
  import opened ModuleTokens
  import opened ModuleGrammar
  import opened ModuleNames
  import opened ModuleRecovery
  import opened ReturnCodes
  import opened ExtQualModuleNaming

  datatype Lexeme = Mark(c: char) | Regular(word: string) | Delim(body: string)

  /** A lexeme with the blanks before it. */
  datatype Piece = Piece(blanks: string, lexeme: Lexeme)

  predicate IsWord(w: string) {
    w != "" && IsAlpha(w[0]) && forall k :: 0 <= k < |w| ==> IsWordChar(w[k])
  }

  predicate WellFormed(l: Lexeme) {
    match l
    case Mark(c) => IsPunctuation(c)
    case Regular(word) => IsWord(word)
    case Delim(body) => '"' !in body
  }

  predicate Blank(s: string) {
    forall k :: 0 <= k < |s| ==> IsSpace(s[k])
  }

  function Text(l: Lexeme): (r: string) {
    match l
    case Mark(c) => [c]
    case Regular(word) => word
    case Delim(body) => "\"" + body + "\""
  }

  function TokenOf(convert: Converter, l: Lexeme): (r: Token)
    requires WellFormed(l)
  {
    match l
    case Mark(c) => Token(CodeOf(c), [c], [])
    case Regular(word) => Word(convert, word)
    case Delim(body) => Delimited(convert, Quoted(Text(l), 0, true))
  }

  /** The character does not run on in the lexeme. */
  predicate Ends(l: Lexeme, c: char) {
    match l
    case Mark(_) => true
    case Regular(_) => !IsWordChar(c)
    case Delim(_) => c != '"'
  }

  function TextOf(pieces: seq<Piece>): (r: string) {
    if pieces == [] then "" else pieces[0].blanks + (Text(pieces[0].lexeme) + TextOf(pieces[1..]))
  }

  /** Lexemes that would run together have a blank in between. */
  ghost predicate Separated(pieces: seq<Piece>) {
    && (forall k :: 0 <= k < |pieces| ==> Blank(pieces[k].blanks) && WellFormed(pieces[k].lexeme))
    && (forall k :: 0 < k < |pieces| ==>
          pieces[k].blanks != "" || Ends(pieces[k - 1].lexeme, Text(pieces[k].lexeme)[0]))
  }

  ghost function TokensOf(convert: Converter, pieces: seq<Piece>): (r: seq<Token>)
    requires Separated(pieces)
  {
    if pieces == [] then [Plain(Eof)] else [Seen(TokenOf(convert, pieces[0].lexeme))] + TokensOf(convert, pieces[1..])
  }

  lemma {:induction false} WordEndIs(buffer: string, i: nat, j: nat)
    requires i <= j < |buffer| && Terminated(buffer)
    requires (forall k :: i <= k < j ==> IsWordChar(buffer[k])) && !IsWordChar(buffer[j])
    ensures WordEnd(buffer, i) == j
    decreases j - i
  {
    if i < j {
      WordEndIs(buffer, i + 1, j);
    }
  }

  lemma {:induction false} QuotedIs(buffer: string, i: nat, j: nat, text: string)
    requires i <= j < |buffer| - 1 && '"' !in buffer[i..j] && buffer[j] == '"' && buffer[j + 1] != '"'
    ensures ScanQuoted(buffer, i, text) == Quoted(text + buffer[i..j] + "\"", j + 1, true)
    decreases j - i
  {
    if i < j {
      assert buffer[i..j] == [buffer[i]] + buffer[i + 1..j];
      QuotedIs(buffer, i + 1, j, text + [buffer[i]]);
      assert text + [buffer[i]] + buffer[i + 1..j] == text + buffer[i..j];
    } else {
      assert text + buffer[i..j] == text;
    }
  }

  function Quotes(m: nat): (r: string)
    ensures |r| == m
  {
    seq(m, _ => '"')
  }

  /** In a run of quotes, each one but the last is taken twice, and the last one ends the identifier. */
  lemma {:induction false} RunIsTakenTwice(buffer: string, j: nat, m: nat, text: string)
    requires m > 0 && j + m < |buffer| && buffer[j + m] != '"' && forall k :: j <= k < j + m ==> buffer[k] == '"'
    ensures ScanQuoted(buffer, j, text) == Quoted(text + Quotes(2 * m - 1), j + m, true)
    decreases m
  {
    if m == 1 {
      assert Quotes(1) == "\"";
    } else {
      RunIsTakenTwice(buffer, j + 1, m - 1, text + "\"\"");
      assert text + "\"\"" + Quotes(2 * m - 3) == text + Quotes(2 * m - 1);
    }
  }

  /** The identifier ends with the first run of quotes, whatever comes after it. */
  lemma {:induction false} FirstRunEnds(buffer: string, i: nat, j: nat, m: nat, text: string)
    requires i <= j && m > 0 && j + m < |buffer| && '"' !in buffer[i..j] && buffer[j + m] != '"'
    requires forall k :: j <= k < j + m ==> buffer[k] == '"'
    ensures ScanQuoted(buffer, i, text) == Quoted(text + buffer[i..j] + Quotes(2 * m - 1), j + m, true)
    decreases j - i
  {
    if i < j {
      assert buffer[i..j] == [buffer[i]] + buffer[i + 1..j];
      FirstRunEnds(buffer, i + 1, j, m, text + [buffer[i]]);
      assert text + [buffer[i]] + buffer[i + 1..j] == text + buffer[i..j];
    } else {
      assert text + buffer[i..j] == text;
      RunIsTakenTwice(buffer, j, m, text);
    }
  }

  /** The first quote from `i` on, and how many there are in a row. */
  lemma {:induction false} FindRun(buffer: string, i: nat, n: nat) returns (j: nat, m: nat)
    requires i < n < |buffer| && buffer[n - 1] == '"' && buffer[n] != '"'
    ensures i <= j < n && '"' !in buffer[i..j] && m > 0 && j + m <= n && buffer[j + m] != '"'
    ensures (forall k :: j <= k < j + m ==> buffer[k] == '"') && (buffer[i] == '"' ==> j == i)
    decreases n - i
  {
    if buffer[i] != '"' {
      j, m := FindRun(buffer, i + 1, n);
      assert buffer[i..j] == [buffer[i]] + buffer[i + 1..j];
    } else if buffer[i + 1] != '"' {
      j, m := i, 1;
    } else {
      j, m := FindRun(buffer, i + 1, n);
      j, m := i, m + 1;
    }
  }

  /** A text in quotes, up to a quote with no other one behind it, is read as one identifier and letter by letter
      exactly when there is no quote inside it. */
  lemma ReadAsOneIffNoQuoteInside(buffer: string, i: nat, n: nat)
    requires i + 1 < n < |buffer| && buffer[i] == '"' && buffer[n - 1] == '"' && buffer[n] != '"'
    ensures ScanQuoted(buffer, i + 1, "\"") == Quoted(buffer[i..n], n, true) <==> '"' !in buffer[i + 1..n - 1]
  {
    var j, m := FindRun(buffer, i + 1, n);
    FirstRunEnds(buffer, i + 1, j, m, "\"");
    if j == n - 1 {
      assert m == 1 && Quotes(1) == "\"";
      assert "\"" + buffer[i + 1..n - 1] + "\"" == buffer[i..n];
    } else {
      assert buffer[i + 1..n - 1][j - i - 1] == '"';
      assert |"\"" + buffer[i + 1..j] + Quotes(2 * m - 1)| == j - i + 2 * m - 1;
    }
  }

  /** An a and a b with a doubled quote in between, in quotes and with a blank behind. */
  lemma DoubledQuoteIsNotReadAsOne()
    ensures var buffer := "\"a\"\"b\" "; ScanQuoted(buffer, 1, "\"") != Quoted(buffer[0..6], 6, true)
  {
    var buffer := "\"a\"\"b\" ";
    assert buffer[1..5][1] == '"';
    ReadAsOneIffNoQuoteInside(buffer, 0, 6);
  }

  lemma {:induction false} BlanksAreSkipped(convert: Converter, buffer: string, i: nat, j: nat)
    requires i <= j <= |buffer| && Terminated(buffer) && forall k :: i <= k < j ==> IsSpace(buffer[k])
    ensures ScanFrom(convert, buffer, i) == ScanFrom(convert, buffer, j)
    decreases j - i
  {
    if i < j {
      BlanksAreSkipped(convert, buffer, i + 1, j);
    }
  }

  lemma SliceIs(buffer: string, i: nat, a: string, b: string)
    requires i <= |buffer| && buffer[i..] == a + b
    ensures i + |a| <= |buffer| && buffer[i..i + |a|] == a && buffer[i + |a|..] == b
    ensures b != "" ==> i + |a| < |buffer| && buffer[i + |a|] == b[0]
  {
    assert buffer[i..][..|a|] == a && buffer[i..][|a|..] == b;
  }

  lemma WordIsScanned(convert: Converter, buffer: string, i: nat, n: nat)
    requires i < n < |buffer| && Terminated(buffer) && IsWord(buffer[i..n]) && !IsWordChar(buffer[n])
    ensures ScanFrom(convert, buffer, i) == Scan(Word(convert, buffer[i..n]), n)
  {
    hide Word, IsWordChar;
    assert forall k :: i <= k < n ==> buffer[k] == buffer[i..n][k - i];
    WordEndIs(buffer, i + 1, n);
    AlphaIsNoSpace(buffer[i]);
  }

  lemma AlphaIsNoSpace(c: char)
    ensures IsAlpha(c) ==> !IsSpace(c)
    ensures IsPunctuation(c) || c == '"' ==> !IsSpace(c) && !IsAlpha(c)
  {
  }

  lemma DelimIsScanned(convert: Converter, buffer: string, i: nat, body: string, n: nat)
    requires i < n < |buffer| && Terminated(buffer) && buffer[n] != '"'
    requires '"' !in body && buffer[i..n] == "\"" + body + "\""
    ensures ScanFrom(convert, buffer, i) == Scan(Delimited(convert, Quoted(buffer[i..n], 0, true)), n)
  {
    hide IsSpace, IsAlpha, IsPunctuation;
    var s := buffer[i..n];
    assert s[0] == '"' && s[|s| - 1] == '"' && s[1..|s| - 1] == body;
    assert |body| == n - i - 2;
    assert forall k :: i < k < n - 1 ==> buffer[k] == s[k - i] == body[k - i - 1];
    assert buffer[i] == '"' && buffer[n - 1] == '"' && buffer[i + 1..n - 1] == body;
    QuotedIs(buffer, i + 1, n - 1, "\"");
    AlphaIsNoSpace('"');
    QuoteIsNoMark();
  }

  lemma QuoteIsNoMark()
    ensures !IsPunctuation('"')
  {
  }

  lemma LexemeIsScanned(convert: Converter, buffer: string, i: nat, l: Lexeme, rest: string)
    requires i <= |buffer| && Terminated(buffer) && buffer[i..] == Text(l) + rest
    requires WellFormed(l) && rest != "" && Ends(l, rest[0])
    ensures ScanFrom(convert, buffer, i) == Scan(TokenOf(convert, l), i + |Text(l)|)
  {
    hide ScanFrom, IsSpace, IsAlpha, IsPunctuation, IsWordChar;
    SliceIs(buffer, i, Text(l), rest);
    var n := i + |Text(l)|;
    match l
    case Mark(c) => MarkIsScanned(convert, buffer, i, c);
    case Regular(word) => WordIsScanned(convert, buffer, i, n);
    case Delim(body) => DelimIsScanned(convert, buffer, i, body, n);
  }

  lemma MarkIsScanned(convert: Converter, buffer: string, i: nat, c: char)
    requires i < |buffer| && Terminated(buffer) && buffer[i..i + 1] == [c] && IsPunctuation(c)
    ensures ScanFrom(convert, buffer, i) == Scan(Token(CodeOf(c), [c], []), i + 1)
  {
    hide CodeOf, IsPunctuation;
    assert buffer[i] == buffer[i..i + 1][0];
    AlphaIsNoSpace(c);
  }

  /** Any layout of lexemes that do not run together is scanned to just these lexemes. */
  lemma {:induction false} PiecesAreScanned(convert: Converter, buffer: string, i: nat, pieces: seq<Piece>,
    tail: string)
    requires i <= |buffer| && Terminated(buffer) && buffer[i..] == TextOf(pieces) + tail
    requires Separated(pieces) && tail != "" && Blank(tail)
    ensures Tokens(convert, buffer, i) == TokensOf(convert, pieces)
    decreases |pieces|
  {
    hide Tokens, ScanFrom, Text, Ends, Separated, Terminated, Blank, WellFormed, TokenOf, Seen;
    TokensFrom(convert, buffer, i);
    if pieces == [] {
      assert buffer[i..] == tail;
      BlanksAreScanned(convert, buffer, i, tail, "");
      NothingIsScanned(convert, buffer);
    } else {
      var p := pieces[0];
      var rest := TextOf(pieces[1..]) + tail;
      assert buffer[i..] == p.blanks + (Text(p.lexeme) + rest);
      RestEnds(pieces, tail);
      BlanksAreScanned(convert, buffer, i, p.blanks, Text(p.lexeme) + rest);
      var j := i + |p.blanks|;
      LexemeIsScanned(convert, buffer, j, p.lexeme, rest);
      SliceIs(buffer, j, Text(p.lexeme), rest);
      CodeIsNotEnd(convert, p.lexeme);
      PiecesAreScanned(convert, buffer, j + |Text(p.lexeme)|, pieces[1..], tail);
    }
  }

  lemma TokensFrom(convert: Converter, buffer: string, i: nat)
    requires i <= |buffer| && Terminated(buffer)
    ensures var s := ScanFrom(convert, buffer, i);
            Tokens(convert, buffer, i) ==
              if s.token.code == Eof then [s.token] else [Seen(s.token)] + Tokens(convert, buffer, s.next)
  {
  }

  lemma NothingIsScanned(convert: Converter, buffer: string)
    requires Terminated(buffer)
    ensures ScanFrom(convert, buffer, |buffer|).token == Plain(Eof)
  {
  }

  lemma CodeIsNotEnd(convert: Converter, l: Lexeme)
    requires WellFormed(l)
    ensures TokenOf(convert, l).code != Eof
  {
  }

  lemma BlanksAreScanned(convert: Converter, buffer: string, i: nat, blanks: string, rest: string)
    requires i <= |buffer| && Terminated(buffer) && buffer[i..] == blanks + rest && Blank(blanks)
    ensures i + |blanks| <= |buffer| && buffer[i + |blanks|..] == rest
    ensures ScanFrom(convert, buffer, i) == ScanFrom(convert, buffer, i + |blanks|)
  {
    hide ScanFrom, IsSpace;
    SliceIs(buffer, i, blanks, rest);
    assert forall k :: i <= k < i + |blanks| ==> buffer[k] == buffer[i..i + |blanks|][k - i];
    BlanksAreSkipped(convert, buffer, i, i + |blanks|);
  }

  lemma RestEnds(pieces: seq<Piece>, tail: string)
    requires pieces != [] && Separated(pieces) && tail != "" && Blank(tail)
    ensures var rest := TextOf(pieces[1..]) + tail; rest != "" && Ends(pieces[0].lexeme, rest[0])
    ensures Separated(pieces[1..]) && Blank(pieces[0].blanks) && WellFormed(pieces[0].lexeme)
  {
    if |pieces| > 1 {
      assert pieces[1..][0] == pieces[1];
    }
  }

  // Writing a list with one blank before each token.

  function Spelling(code: Code): (r: string) {
    match code
    case ModuleGroup => "MODULEGROUP"
    case ModuleTableSet => "MODULETABLESET"
    case _ => "MODULEVERSION"
  }

  function MarkOf(code: Code): (r: char) {
    match code
    case LBrace => '{'
    case RBrace => '}'
    case Comma => ','
    case Dot => '.'
    case _ => '='
  }

  function Written(convert: Converter, t: Token): (r: Lexeme) {
    match t.code
    case Id => if IsPlain(convert, t.text) then Regular(t.text) else Delim(t.text)
    case ModuleGroup => Regular(Spelling(t.code))
    case ModuleTableSet => Regular(Spelling(t.code))
    case ModuleVersion => Regular(Spelling(t.code))
    case _ => Mark(MarkOf(t.code))
  }

  /** A name in internal format that can stand without quotes: it is a word, and not a keyword. */
  predicate IsPlain(convert: Converter, name: string) {
    IsWord(name) && convert.regular(name) == (name, true) && Reserved(name) == Id
  }

  /** A name in internal format, with or without quotes; it may not contain quotes itself. */
  predicate Writable(convert: Converter, name: string) {
    IsPlain(convert, name) || ('"' !in name && convert.delimited("\"" + name + "\"") == (name, true))
  }

  predicate KeepsKeywords(convert: Converter) {
    && convert.regular("MODULEGROUP") == ("MODULEGROUP", true)
    && convert.regular("MODULETABLESET") == ("MODULETABLESET", true)
    && convert.regular("MODULEVERSION") == ("MODULEVERSION", true)
  }

  function Pieces(convert: Converter, ts: seq<Token>): (r: seq<Piece>)
    ensures |r| == |ts| && forall k :: 0 <= k < |ts| ==> r[k] == Piece(" ", Written(convert, ts[k]))
  {
    seq(|ts|, k requires 0 <= k < |ts| => Piece(" ", Written(convert, ts[k])))
  }

  /** The token can be written: it is clean, and a name it carries is in internal format. */
  ghost predicate Printable(convert: Converter, t: Token) {
    && t.code != Eof && t.code != ScanError && t.report == []
    && if t.code == Id then Writable(convert, t.text) else t.text == ""
  }

  lemma WrittenIsRead(convert: Converter, t: Token)
    requires KeepsKeywords(convert) && Printable(convert, t)
    ensures WellFormed(Written(convert, t)) && Seen(TokenOf(convert, Written(convert, t))) == t
  {
  }

  lemma {:induction false} PiecesAreTokens(convert: Converter, ts: seq<Token>)
    requires KeepsKeywords(convert) && forall k :: 0 <= k < |ts| ==> Printable(convert, ts[k])
    ensures Separated(Pieces(convert, ts)) && TokensOf(convert, Pieces(convert, ts)) == ts + [Plain(Eof)]
  {
    hide KeepsKeywords, Printable, Written, Seen, TokenOf;
    forall k | 0 <= k < |ts|
      ensures WellFormed(Written(convert, ts[k])) && Seen(TokenOf(convert, Written(convert, ts[k]))) == ts[k]
    {
      WrittenIsRead(convert, ts[k]);
    }
    if ts != [] {
      PiecesAreTokens(convert, ts[1..]);
      assert Pieces(convert, ts)[1..] == Pieces(convert, ts[1..]);
    }
  }

  ghost predicate WritablePath(convert: Converter, p: Path) {
    && Writable(convert, p.mod)
    && (!p.One? ==> Writable(convert, p.sch)) && (p.Three? ==> Writable(convert, p.cat))
  }

  ghost predicate WritableItem(convert: Converter, item: Item) {
    item.Item? ==>
      && WritablePath(convert, item.path)
      && (item.grp.Named? ==> Writable(convert, item.grp.name))
      && (item.tgt.Named? ==> Writable(convert, item.tgt.name))
      && (item.ver.Named? ==> Writable(convert, item.ver.name))
  }

  ghost predicate AllPrintable(convert: Converter, ts: seq<Token>) {
    forall k :: 0 <= k < |ts| ==> Printable(convert, ts[k])
  }

  lemma ItemIsPrintable(convert: Converter, item: Item)
    requires WritableItem(convert, item)
    ensures AllPrintable(convert, ItemTokens(item))
  {
    hide Writable, PathTokens, QualifierTokens;
    if item.Item? {
      PathIsPrintable(convert, item.path);
      QualifierIsPrintable(convert, item.grp, ModuleGroup);
      QualifierIsPrintable(convert, item.tgt, ModuleTableSet);
      QualifierIsPrintable(convert, item.ver, ModuleVersion);
    }
  }

  lemma PathIsPrintable(convert: Converter, p: Path)
    requires WritablePath(convert, p)
    ensures AllPrintable(convert, PathTokens(p))
  {
    hide Writable;
  }

  lemma QualifierIsPrintable(convert: Converter, q: Qualifier, keyword: Code)
    requires keyword != Id && keyword != Eof && keyword != ScanError
    requires q.Named? ==> Writable(convert, q.name)
    ensures AllPrintable(convert, QualifierTokens(q, keyword))
  {
    hide Writable;
  }

  lemma {:induction false} MoreIsPrintable(convert: Converter, items: seq<Item>)
    requires forall k :: 0 <= k < |items| ==> WritableItem(convert, items[k])
    ensures AllPrintable(convert, MoreTokens(items))
  {
    hide WritableItem, ItemTokens;
    if items != [] {
      ItemIsPrintable(convert, items[0]);
      MoreIsPrintable(convert, items[1..]);
    }
  }

  /** The text of a list, each token after a blank. */
  function Print(convert: Converter, items: seq<Item>): (r: string)
    requires items != []
  {
    var ts := ListTokens(items);
    TextOf(Pieces(convert, ts[..|ts| - 1]))
  }

  /** The arguments with a blank in between. */
  function Spaced(args: seq<string>): (r: string)
    requires args != []
  {
    if |args| == 1 then args[0] else args[0] + " " + Spaced(args[1..])
  }

  /** A text that is split into arguments at any of its blanks is put together again, with a blank behind. */
  lemma {:induction false} SplitIsJoined(args: seq<string>)
    requires args != []
    ensures Joined(args) == Spaced(args) + " "
  {
    JoinedOne(args[0]);
    if |args| == 1 {
      assert args == [args[0]];
    } else {
      SplitIsJoined(args[1..]);
      JoinedBoth([args[0]], args[1..]);
      assert [args[0]] + args[1..] == args;
      assert args[0] + " " + (Spaced(args[1..]) + " ") == args[0] + " " + Spaced(args[1..]) + " ";
    }
  }

  /** A written list, split into any number of arguments at its blanks, is scanned to its own tokens. */
  lemma PrintedIsScanned(convert: Converter, items: seq<Item>, args: seq<string>)
    requires items != [] && KeepsKeywords(convert) && args != [] && Spaced(args) == Print(convert, items)
    requires forall k :: 0 <= k < |items| ==> WritableItem(convert, items[k])
    ensures Tokens(convert, Joined(args), 0) == ListTokens(items)
  {
    hide WritableItem, ItemTokens, MoreTokens, KeepsKeywords, TextOf, TokensOf, Tokens, Separated, Pieces, Spaced,
      Joined;
    var ts := ListTokens(items);
    var most := ts[..|ts| - 1];
    ItemIsPrintable(convert, items[0]);
    MoreIsPrintable(convert, items[1..]);
    assert most == [Plain(LBrace)] + ItemTokens(items[0]) + MoreTokens(items[1..]) + [Plain(RBrace)];
    assert ts == most + [Plain(Eof)];
    PiecesAreTokens(convert, most);
    SplitIsJoined(args);
    var buffer := Joined(args);
    assert buffer[0..] == TextOf(Pieces(convert, most)) + " ";
    PiecesAreScanned(convert, buffer, 0, Pieces(convert, most), " ");
  }

  /** A module name with all its parts. */
  datatype Specified = Specified(grp: string, cat: string, sch: string, mod: string, tgt: string, ver: string)

  ghost predicate WritableName(convert: Converter, n: Specified) {
    && Writable(convert, n.grp) && Writable(convert, n.cat) && Writable(convert, n.sch)
    && Writable(convert, n.mod) && Writable(convert, n.tgt) && Writable(convert, n.ver)
  }

  function ItemOf(n: Specified): (r: Item) {
    Item(Three(n.cat, n.sch, n.mod), Named(n.grp), Named(n.tgt), Named(n.ver))
  }

  /** The items of a list of names; a list without names has one empty item. */
  function ItemsOf(names: seq<Specified>): (r: seq<Item>)
    ensures r != [] && forall k :: 0 <= k < |r| ==>
      if names == [] then r[k] == Nothing else k < |names| && r[k] == ItemOf(names[k])
  {
    if names == [] then [Nothing] else seq(|names|, k requires 0 <= k < |names| => ItemOf(names[k]))
  }

  /** The name as it is expected: catalog, schema, and the other four parts with carets in between, unless the
      module name has carets already or there is nothing to add. */
  function ComposedOf(n: Specified): (r: Name) {
    Name(n.cat, n.sch,
         if '^' in n.mod || (n.grp == "" && n.tgt == "" && n.ver == "") then n.mod
         else n.grp + "^" + n.mod + "^" + n.tgt + "^" + n.ver, false)
  }

  lemma SpecifiedItemDenotes(n: Specified, d: Defaults)
    ensures Denotes(ItemOf(n), d) == [ComposedOf(n)]
  {
  }

  lemma {:induction false} SpecifiedDenote(names: seq<Specified>, d: Defaults)
    ensures DenotesAll(ItemsOf(names), d) == seq(|names|, k requires 0 <= k < |names| => ComposedOf(names[k]))
  {
    hide ComposedOf;
    if names == [] {
      assert DenotesAll([Nothing], d) == DenotesAll([], d) + Denotes(Nothing, d);
    } else {
      var rest := names[..|names| - 1];
      SpecifiedItemDenotes(names[|names| - 1], d);
      SpecifiedDenote(rest, d);
      if rest == [] {
        assert ItemsOf(names)[..0] == [];
      } else {
        assert ItemsOf(names)[..|names| - 1] == ItemsOf(rest);
      }
    }
  }

  /** Asking for a name by its parts; qualifiers are left out of a name that has some already, or has none. */
  predicate Asks(asked: string, n: Specified) {
    asked == n.cat + "." + n.sch + "." +
             if '^' in n.mod || n.grp + n.tgt + n.ver == "" then n.mod
             else n.grp + "^" + n.mod + "^" + n.tgt + "^" + n.ver
  }

  lemma AsksForComposed(asked: string, n: Specified)
    ensures var m := ComposedOf(n); Asks(asked, n) <==> asked == m.catalog + "." + m.schema + "." + m.mod
  {
  }

  /** Writing fully specified names and giving the text to the parser, in any number of arguments: nothing is
      reported, and the names come back in order whatever the defaults are. */
  method WriteAndRead(names: seq<Specified>, args: seq<string>, mxCUM: CompileUserModule, convert: Converter,
                      defaults: Defaults)
    returns (parser: ExtQualModuleNames)
    requires KeepsKeywords(convert) && args != [] && Spaced(args) == Print(convert, ItemsOf(names))
    requires forall k :: 0 <= k < |names| ==> WritableName(convert, names[k])
    modifies mxCUM
    ensures mxCUM.diags == old(mxCUM.diags) && mxCUM.returnCode == old(mxCUM.returnCode) && fresh(parser)
    ensures |parser.modules| == |names| && forall k :: 0 <= k < |names| ==> parser.modules[k] == ComposedOf(names[k])
  {
    hide KeepsKeywords, Print, Spaced, ListTokens, Tokens, DenotesAll, Writable, Joined, Terminated, TakeList;
    var items := ItemsOf(names);
    parser := new ExtQualModuleNames(args, mxCUM, convert, defaults);
    PrintedIsScanned(convert, items, args);
    parser.ProcessExtQualModuleNames();
    SpecifiedDenote(names, defaults);
  }

  /** Then a name is found exactly if it is the catalog, the schema and the composed name of one of those written. */
  method WriteAndFind(names: seq<Specified>, args: seq<string>, mxCUM: CompileUserModule, convert: Converter,
                      defaults: Defaults, asked: string)
    returns (found: bool)
    requires KeepsKeywords(convert) && args != [] && Spaced(args) == Print(convert, ItemsOf(names))
    requires forall k :: 0 <= k < |names| ==> WritableName(convert, names[k])
    modifies mxCUM
    ensures found <==> exists k :: 0 <= k < |names| && Asks(asked, names[k])
  {
    hide KeepsKeywords, Print, Spaced, WritableName, Asks;
    var parser := WriteAndRead(names, args, mxCUM, convert, defaults);
    ghost var modules := parser.modules;
    forall k | 0 <= k < |names|
      ensures Asks(asked, names[k]) <==>
              asked == modules[k].catalog + "." + modules[k].schema + "." + modules[k].mod
    {
      AsksForComposed(asked, names[k]);
    }
    found := parser.Contains(asked);
  }

  /** And nothing is lost: names whose parts have no carets are read back as different names if they differ. */
  lemma ReadBackIsUnique(n: Specified, n': Specified)
    requires '^' !in n.grp && '^' !in n.mod && '^' !in n.tgt && '^' !in n.ver
    requires '^' !in n'.grp && '^' !in n'.mod && '^' !in n'.tgt && '^' !in n'.ver
    requires ComposedOf(n) == ComposedOf(n')
    ensures n == n'
  {
    hide Qualify, ComposedOf;
    ComposedIsQualified(n);
    ComposedIsQualified(n');
    QualifiedIsUnique(n.grp, n.mod, n.tgt, n.ver, n'.grp, n'.mod, n'.tgt, n'.ver);
  }

  lemma ComposedIsQualified(n: Specified)
    ensures ComposedOf(n) == Name(n.cat, n.sch, Qualify(n.grp, n.mod, n.tgt, n.ver), false)
  {
  }
}
