/** Tokens of the module name list on the command line, and what scanning a text yields. */
module ModuleTokens {

  datatype Code =
    | Comma | Dot | Equal | LBrace | RBrace
    | Id | ModuleGroup | ModuleTableSet | ModuleVersion | Eof | ScanError

  /** `report` are the errors reported while the token was scanned. */
  datatype Token = Token(code: Code, text: string, report: seq<int>)

  /** How identifiers are brought into internal format; the second result says whether that worked. */
  datatype Converter = Converter(regular: string -> (string, bool), delimited: string -> (string, bool))

  const BAD_REGULAR := -2215
  const BAD_DELIMITED := -2209
  const UNTERMINATED := -2210
  const BAD_CHARACTER := -2211

  predicate IsSpace(c: char) {
    c == ' ' || '\t' <= c <= '\r'
  }

  predicate IsAlpha(c: char) {
    'a' <= c <= 'z' || 'A' <= c <= 'Z'
  }

  predicate IsWordChar(c: char) {
    IsAlpha(c) || '0' <= c <= '9' || c == '_'
  }

  predicate IsPunctuation(c: char) {
    c == '{' || c == '}' || c == ',' || c == '.' || c == '='
  }

  function CodeOf(c: char): (r: Code)
    requires IsPunctuation(c)
  {
    if c == '{' then LBrace else if c == '}' then RBrace else if c == ',' then Comma
    else if c == '.' then Dot else Equal
  }

  function Reserved(id: string): (r: Code) {
    if id == "MODULEGROUP" then ModuleGroup
    else if id == "MODULETABLESET" then ModuleTableSet
    else if id == "MODULEVERSION" then ModuleVersion
    else Id
  }

  /** The text is empty or ends with a blank. */
  predicate Terminated(buffer: string) {
    buffer == [] || IsSpace(buffer[|buffer| - 1])
  }

  function WordEnd(buffer: string, i: nat): (r: nat)
    requires i <= |buffer| && Terminated(buffer)
    ensures i <= r <= |buffer| && (i < |buffer| ==> r < |buffer| && !IsWordChar(buffer[r]))
    ensures forall k :: i <= k < r ==> IsWordChar(buffer[k])
    decreases |buffer| - i
  {
    if i == |buffer| || !IsWordChar(buffer[i]) then i else WordEnd(buffer, i + 1)
  }

  datatype Quoted = Quoted(text: string, next: nat, closed: bool)

  /** A quoted identifier after its opening quote. A quote followed by another one is taken twice and
      left to be read again; the first quote not followed by another one ends the identifier. */
  function ScanQuoted(buffer: string, i: nat, text: string): (r: Quoted)
    requires i <= |buffer|
    ensures i <= r.next <= |buffer|
    decreases |buffer| - i
  {
    if i == |buffer| then Quoted(text, i, false)
    else if buffer[i] != '"' then ScanQuoted(buffer, i + 1, text + [buffer[i]])
    else if i + 1 < |buffer| && buffer[i + 1] == '"' then ScanQuoted(buffer, i + 1, text + "\"\"")
    else Quoted(text + "\"", i + 1, true)
  }

  datatype Scan = Scan(token: Token, next: nat)

  function Word(convert: Converter, word: string): (r: Token) {
    var (id, good) := convert.regular(word);
    Token(Reserved(id), id, if good then [] else [BAD_REGULAR])
  }

  function Delimited(convert: Converter, q: Quoted): (r: Token) {
    if q.closed
    then var (id, good) := convert.delimited(q.text); Token(Id, id, if good then [] else [BAD_DELIMITED])
    else Token(Id, q.text, [UNTERMINATED])
  }

  /** The next token. */
  function ScanFrom(convert: Converter, buffer: string, i: nat): (r: Scan)
    requires i <= |buffer| && Terminated(buffer)
    ensures i <= r.next <= |buffer| && (r.token.code != Eof ==> i < r.next)
    ensures r.token.code == Eof ==> r.token == Token(Eof, "", []) && r.next == |buffer|
    decreases |buffer| - i
  {
    if i == |buffer| then Scan(Token(Eof, "", []), i)
    else if IsSpace(buffer[i]) then ScanFrom(convert, buffer, i + 1)
    else if IsAlpha(buffer[i]) then
      Scan(Word(convert, buffer[i..WordEnd(buffer, i + 1)]), WordEnd(buffer, i + 1))
    else if IsPunctuation(buffer[i]) then Scan(Token(CodeOf(buffer[i]), [buffer[i]], []), i + 1)
    else if buffer[i] == '"' then
      var q := ScanQuoted(buffer, i + 1, "\"");
      Scan(Delimited(convert, q), q.next)
    else Scan(Token(ScanError, [buffer[i]], [BAD_CHARACTER]), i + 2)
  }

  /** What the parser sees of a token: the text counts for identifiers only. */
  function Seen(t: Token): (r: Token) {
    if t.code == Id then t else t.(text := "")
  }

  /** All tokens from position `i` on. */
  function Tokens(convert: Converter, buffer: string, i: nat): (r: seq<Token>)
    requires i <= |buffer| && Terminated(buffer)
    ensures r != [] && r[|r| - 1] == Token(Eof, "", []) && forall k :: 0 <= k < |r| - 1 ==> r[k].code != Eof
    decreases |buffer| - i
  {
    var s := ScanFrom(convert, buffer, i);
    if s.token.code == Eof then [s.token] else [Seen(s.token)] + Tokens(convert, buffer, s.next)
  }

  /** The arguments of a command line from `start` on, each followed by a blank. */
  function Joined(args: seq<string>): (r: string)
    ensures Terminated(r)
  {
    if args == [] then "" else Joined(args[..|args| - 1]) + args[|args| - 1] + " "
  }

  lemma JoinedOne(arg: string)
    ensures Joined([arg]) == arg + " "
  {
    assert Joined([]) == "" && [arg][..0] == [];
  }

  /** The arguments stay in order. */
  lemma {:induction false} JoinedBoth(a: seq<string>, b: seq<string>)
    ensures Joined(a + b) == Joined(a) + Joined(b)
  {
    if b == [] {
      assert a + b == a;
    } else {
      JoinedBoth(a, b[..|b| - 1]);
      assert (a + b)[..|a + b| - 1] == a + b[..|b| - 1];
    }
  }
}
