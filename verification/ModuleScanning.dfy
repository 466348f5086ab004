/** What the scanner makes of every kind of text, with characters and numbers spelled out. */
module ModuleScanning {
  import opened ModuleTokens
  import opened ModulePrinting

  lemma BlankIsSkipped(convert: Converter, buffer: string, i: nat)
    requires i < |buffer| && Terminated(buffer)
    requires buffer[i] == ' ' || 9 <= buffer[i] as int <= 13
    ensures ScanFrom(convert, buffer, i) == ScanFrom(convert, buffer, i + 1)
  {
  }

  /** A letter and the letters, digits and underscores behind it are converted as one word. The token has the
      text that comes out, and is a keyword exactly if that is one. */
  lemma WordIsConverted(convert: Converter, buffer: string, i: nat, n: nat)
    requires i < n < |buffer| && Terminated(buffer)
    requires 'a' <= buffer[i] <= 'z' || 'A' <= buffer[i] <= 'Z'
    requires forall k :: i < k < n ==>
      'a' <= buffer[k] <= 'z' || 'A' <= buffer[k] <= 'Z' || '0' <= buffer[k] <= '9' || buffer[k] == '_'
    requires !('a' <= buffer[n] <= 'z' || 'A' <= buffer[n] <= 'Z' || '0' <= buffer[n] <= '9' || buffer[n] == '_')
    ensures
      var s := ScanFrom(convert, buffer, i);
      var (id, good) := convert.regular(buffer[i..n]);
      && s.next == n && s.token.text == id && s.token.report == (if good then [] else [-2215])
      && (s.token.code == ModuleGroup <==> id == "MODULEGROUP")
      && (s.token.code == ModuleTableSet <==> id == "MODULETABLESET")
      && (s.token.code == ModuleVersion <==> id == "MODULEVERSION")
      && (s.token.code == Id <==> id != "MODULEGROUP" && id != "MODULETABLESET" && id != "MODULEVERSION")
  {
    WordEndIs(buffer, i + 1, n);
  }

  lemma MarkIsRead(convert: Converter, buffer: string, i: nat)
    requires i < |buffer| && Terminated(buffer)
    ensures buffer[i] == '{' ==> ScanFrom(convert, buffer, i) == Scan(Token(LBrace, "{", []), i + 1)
    ensures buffer[i] == '}' ==> ScanFrom(convert, buffer, i) == Scan(Token(RBrace, "}", []), i + 1)
    ensures buffer[i] == ',' ==> ScanFrom(convert, buffer, i) == Scan(Token(Comma, ",", []), i + 1)
    ensures buffer[i] == '.' ==> ScanFrom(convert, buffer, i) == Scan(Token(Dot, ".", []), i + 1)
    ensures buffer[i] == '=' ==> ScanFrom(convert, buffer, i) == Scan(Token(Equal, "=", []), i + 1)
  {
  }

  /** A text in quotes without quotes inside is converted as a whole, quotes included. */
  lemma QuotedIsConverted(convert: Converter, buffer: string, i: nat, n: nat)
    requires i + 1 < n < |buffer| && Terminated(buffer) && '"' !in buffer[i + 1..n - 1]
    requires buffer[i] == '"' && buffer[n - 1] == '"' && buffer[n] != '"'
    ensures
      var (id, good) := convert.delimited(buffer[i..n]);
      ScanFrom(convert, buffer, i) == Scan(Token(Id, id, if good then [] else [-2209]), n)
  {
    assert buffer[i..n] == "\"" + buffer[i + 1..n - 1] + "\"";
    DelimIsScanned(convert, buffer, i, buffer[i + 1..n - 1], n);
  }

  lemma {:induction false} NoQuoteLeft(buffer: string, i: nat, text: string)
    requires i <= |buffer| && '"' !in buffer[i..]
    ensures ScanQuoted(buffer, i, text) == Quoted(text + buffer[i..], |buffer|, false)
    decreases |buffer| - i
  {
    if i < |buffer| {
      assert buffer[i..] == [buffer[i]] + buffer[i + 1..];
      NoQuoteLeft(buffer, i + 1, text + [buffer[i]]);
      assert text + [buffer[i]] + buffer[i + 1..] == text + buffer[i..];
    } else {
      assert text + buffer[i..] == text;
    }
  }

  /** Without a closing quote the rest of the text is taken, and that is reported. */
  lemma UnterminatedIsReported(convert: Converter, buffer: string, i: nat)
    requires i < |buffer| && Terminated(buffer) && buffer[i] == '"' && '"' !in buffer[i + 1..]
    ensures ScanFrom(convert, buffer, i) == Scan(Token(Id, buffer[i..], [-2210]), |buffer|)
  {
    NoQuoteLeft(buffer, i + 1, "\"");
    assert "\"" + buffer[i + 1..] == buffer[i..];
  }

  /** Any other character is reported, and the one behind it is passed over, too. */
  lemma OtherIsReported(convert: Converter, buffer: string, i: nat)
    requires i < |buffer| && Terminated(buffer)
    requires buffer[i] != ' ' && !(9 <= buffer[i] as int <= 13) && buffer[i] != '"'
    requires !('a' <= buffer[i] <= 'z' || 'A' <= buffer[i] <= 'Z')
    requires buffer[i] != '{' && buffer[i] != '}' && buffer[i] != ',' && buffer[i] != '.' && buffer[i] != '='
    ensures ScanFrom(convert, buffer, i) == Scan(Token(ScanError, [buffer[i]], [-2211]), i + 2)
  {
  }
}
