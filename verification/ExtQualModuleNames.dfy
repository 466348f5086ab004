/** The scanner and parser of module name lists, as they work through the command line. */
module ExtQualModuleNaming {
  import opened ModuleTokens
  import G = ModuleGrammar
  import opened ModuleNames
  import opened ModuleRecovery
  import opened ReturnCodes

  /** `base` and `baseCode` are the reports and the exit code at the start of the list. */
  class ExtQualModuleNames {
    const mxCUM: CompileUserModule
    const convert: Converter
    const defaults: Defaults
    const buffer: string
    var bp: nat
    var currentTokenCode: Code
    var currentToken: string
    var modules: seq<Name>
    ghost var base: seq<int>
    ghost var baseCode: ExitCode

    constructor (args: seq<string>, mxCUM: CompileUserModule, convert: Converter, defaults: Defaults)
      ensures Ready() && bp == 0 && buffer == Joined(args) && modules == []
      ensures this.mxCUM == mxCUM && this.convert == convert && this.defaults == defaults
    {
      this.mxCUM, this.convert, this.defaults := mxCUM, convert, defaults;
      buffer, bp, currentTokenCode, currentToken, modules := Joined(args), 0, Eof, "", [];
      base, baseCode := mxCUM.diags, mxCUM.returnCode;
    }

    /** The position is in the buffer, and every report since the start has made the exit code a failure. */
    ghost predicate Ready()
      reads this`bp, this`currentTokenCode, this`currentToken, this`base, this`baseCode, mxCUM
    {
      && bp <= |buffer| && Terminated(buffer) && base <= mxCUM.diags
      && mxCUM.returnCode == if Quiet() then baseCode else Fail
    }

    /** A token has been scanned; the end is only seen at the end. */
    ghost predicate Valid()
      reads this`bp, this`currentTokenCode, this`currentToken, this`base, this`baseCode, mxCUM
    {
      Ready() && (currentTokenCode == Eof ==> bp == |buffer| && currentToken == "")
    }

    /** Nothing was reported since the start. */
    ghost predicate Quiet()
      reads this`bp, this`currentTokenCode, this`currentToken, this`base, this`baseCode, mxCUM
    {
      mxCUM.diags == base
    }

    /** The tokens to come, starting with the current one. */
    ghost function Ahead(): (r: seq<Token>)
      reads this`bp, this`currentTokenCode, this`currentToken, this`base, this`baseCode, mxCUM
      requires Valid()
      ensures r != [] && r[0].code == currentTokenCode && (currentTokenCode == Id ==> r[0].text == currentToken)
      ensures |r| == 1 <==> currentTokenCode == Eof
    {
      var t := Token(currentTokenCode, currentToken, []);
      if currentTokenCode == Eof then [t] else [Seen(t)] + Tokens(convert, buffer, bp)
    }

    /** The tokens to come, and all reports. */
    ghost function Here(): (r: Place)
      reads this`bp, this`currentTokenCode, this`currentToken, this`base, this`baseCode, mxCUM
      requires Valid()
      ensures r.ts != [] && r.ts == Ahead() && r.log == mxCUM.diags
    {
      Place(Ahead(), mxCUM.diags)
    }

    method Report(sqlcode: int)
      requires Ready()
      modifies mxCUM
      ensures Ready() && !Quiet() && mxCUM.diags == old(mxCUM.diags) + [sqlcode]
    {
      mxCUM.ReportFailure(sqlcode);
    }

    method CheckReserved() returns (code: Code)
      ensures code == Reserved(currentToken)
    {
      if currentToken == "MODULEGROUP" { return ModuleGroup; }
      if currentToken == "MODULETABLESET" { return ModuleTableSet; }
      if currentToken == "MODULEVERSION" { return ModuleVersion; }
      code := Id;
    }

    /** Scans the next token. No position outside the buffer is read or peeked at: the last character is a
        blank, so a token cannot end there. */
    method Scanner() returns (code: Code)
      requires Ready()
      modifies this`bp, this`currentToken, mxCUM
      ensures Ready()
      ensures var s := ScanFrom(convert, buffer, old(bp));
              && code == s.token.code && currentToken == s.token.text && bp == s.next
              && mxCUM.diags == old(mxCUM.diags) + s.token.report
    {
      hide Word, Delimited, ScanQuoted, WordEnd, CodeOf;
      currentToken := "";
      while bp < |buffer|
        invariant Ready() && currentToken == "" && mxCUM.diags == old(mxCUM.diags)
        invariant ScanFrom(convert, buffer, bp) == ScanFrom(convert, buffer, old(bp))
        decreases |buffer| - bp
      {
        var cc := buffer[bp];
        bp := bp + 1;
        if IsSpace(cc) {
          continue;
        } else if IsAlpha(cc) {
          code := ScanWord();
          return;
        }
        currentToken := [cc];
        if IsPunctuation(cc) {
          return CodeOf(cc);
        } else if cc == '"' {
          code := ScanDelimited();
          return;
        } else {
          bp := bp + 1;
          Report(BAD_CHARACTER);
          return ScanError;
        }
      }
      code := Eof;
    }

    /** Reads on in an identifier whose first character has been read. */
    method ScanWord() returns (code: Code)
      requires Ready() && 0 < bp && IsAlpha(buffer[bp - 1])
      modifies this`bp, this`currentToken, mxCUM
      ensures Ready()
      ensures var t := Word(convert, buffer[old(bp) - 1..WordEnd(buffer, old(bp))]);
              && code == t.code && currentToken == t.text && bp == WordEnd(buffer, old(bp))
              && mxCUM.diags == old(mxCUM.diags) + t.report
    {
      currentToken := [buffer[bp - 1]];
      while IsWordChar(buffer[bp])
        invariant old(bp) <= bp < |buffer| && Ready() && mxCUM.diags == old(mxCUM.diags)
        invariant currentToken == buffer[old(bp) - 1..bp]
        invariant WordEnd(buffer, bp) == WordEnd(buffer, old(bp))
        decreases |buffer| - bp
      {
        assert buffer[old(bp) - 1..bp + 1] == buffer[old(bp) - 1..bp] + [buffer[bp]];
        currentToken := currentToken + [buffer[bp]];
        bp := bp + 1;
      }
      assert bp == WordEnd(buffer, bp);
      var (id, good) := convert.regular(currentToken);
      if !good {
        Report(BAD_REGULAR);
      }
      currentToken := id;
      code := CheckReserved();
    }

    /** Reads on in a quoted identifier whose opening quote has been read. */
    method ScanDelimited() returns (code: Code)
      requires Ready() && currentToken == "\""
      modifies this`bp, this`currentToken, mxCUM
      ensures Ready()
      ensures var q := ScanQuoted(buffer, old(bp), "\""); var t := Delimited(convert, q);
              && code == t.code && currentToken == t.text && bp == q.next
              && mxCUM.diags == old(mxCUM.diags) + t.report
    {
      while bp < |buffer|
        invariant Ready() && mxCUM.diags == old(mxCUM.diags)
        invariant ScanQuoted(buffer, bp, currentToken) == ScanQuoted(buffer, old(bp), "\"")
        decreases |buffer| - bp
      {
        var c1 := buffer[bp];
        bp := bp + 1;
        if c1 == '"' {
          if buffer[bp] == '"' {
            currentToken := currentToken + [c1, buffer[bp]];
          } else {
            currentToken := currentToken + [c1];
            var (id, good) := convert.delimited(currentToken);
            if !good {
              Report(BAD_DELIMITED);
            }
            currentToken := id;
            return Id;
          }
        } else {
          currentToken := currentToken + [c1];
        }
      }
      Report(UNTERMINATED);
      code := Id;
    }

    method Complain(sqlcode: int)
      requires Valid()
      modifies mxCUM
      ensures Valid() && Here() == old(Here()).(log := old(Here()).log + [sqlcode])
    {
      Report(sqlcode);
    }

    /** Takes the token expected and scans the next one; any other token is reported and stays. */
    method Match(t: Code)
      requires Valid()
      modifies this`bp, this`currentTokenCode, this`currentToken, mxCUM
      ensures Valid() && Here() == Take(old(Here()), t)
    {
      if currentTokenCode == t {
        currentTokenCode := Scanner();
      } else {
        Complain(UNEXPECTED);
      }
    }

    /** Parses a module name with up to two parts before it. */
    method ParseModule() returns (cat: string, sch: string, mod: string)
      requires Valid()
      modifies this`bp, this`currentTokenCode, this`currentToken, mxCUM
      ensures Valid() && (Parts(cat, sch, mod), Here()) == TakePath(old(Here()), defaults)
    {
      hide Valid, Ahead, Here, Take;
      cat, sch, mod := "", "", "";
      if currentTokenCode == Id {
        var id1 := currentToken;
        Match(Id);
        if currentTokenCode == Dot {
          Match(Dot);
          if currentTokenCode == Id {
            var id2 := currentToken;
            Match(Id);
            if currentTokenCode == Dot {
              Match(Dot);
              if currentTokenCode == Id {
                cat, sch, mod := id1, id2, currentToken;
                Match(Id);
              } else {
                Complain(MISSING_NAME);
              }
            } else {
              sch, mod, cat := id1, id2, defaults.cat;
            }
          } else {
            Complain(MISSING_NAME);
          }
        } else {
          mod, sch, cat := id1, defaults.sch, defaults.cat;
        }
      }
    }

    /** Parses the qualifiers; what is not named keeps its default. */
    method ParseQualifiers() returns (grp: string, tgt: string, ver: string)
      requires Valid()
      modifies this`bp, this`currentTokenCode, this`currentToken, mxCUM
      ensures Valid() && (Marks(grp, tgt, ver), Here()) == TakeQualifiers(old(Here()), defaults)
    {
      hide Valid, Ahead, Here, TakeQualifier;
      grp := ParseQualifier(ModuleGroup, defaults.grp);
      tgt := ParseQualifier(ModuleTableSet, defaults.tgt);
      ver := ParseQualifier(ModuleVersion, defaults.ver);
    }

    method ParseQualifier(keyword: Code, byDefault: string) returns (name: string)
      requires Valid()
      modifies this`bp, this`currentTokenCode, this`currentToken, mxCUM
      ensures Valid() && (name, Here()) == TakeQualifier(old(Here()), keyword, byDefault)
    {
      hide Valid, Ahead, Here, Take;
      name := byDefault;
      if currentTokenCode == keyword {
        Match(keyword);
        Match(Equal);
        if currentTokenCode == Id {
          name := currentToken;
          Match(Id);
        }
      }
    }

    /** Parses one item and appends the name it denotes; an item may be empty. */
    method ParseModuleName()
      requires Valid()
      modifies this`bp, this`currentTokenCode, this`currentToken, this`modules, mxCUM
      ensures Valid()
      ensures var i := TakeItem(old(Here()), defaults); Here() == i.1 && modules == old(modules) + i.0
    {
      hide Valid, Ahead, Here, TakePath, TakeQualifiers;
      if currentTokenCode == Id {
        var cat, sch, mod := ParseModule();
        var grp, tgt, ver := ParseQualifiers();
        modules := modules + [Compose(grp, cat, sch, mod, tgt, ver)];
      }
    }

    method ParseModuleNameList()
      requires Valid()
      modifies this`bp, this`currentTokenCode, this`currentToken, this`modules, mxCUM
      ensures Valid() && (modules, Here()) == TakeItems(old(Here()), defaults, old(modules))
    {
      hide Valid, Ahead, Here, Take, TakeItem;
      ParseModuleName();
      while currentTokenCode == Comma
        invariant Valid()
        invariant TakeMore(Here(), defaults, modules) == TakeItems(old(Here()), defaults, old(modules))
        decreases |Here().ts|
      {
        Match(Comma);
        ParseModuleName();
      }
    }

    method ParseExternallyQualifiedModuleNames()
      requires Valid()
      modifies this`bp, this`currentTokenCode, this`currentToken, this`modules, mxCUM
      ensures Valid() && (modules, Here()) == TakeList(old(Here()), defaults, old(modules))
    {
      hide Valid, Ahead, Here, Take, TakeItems;
      Match(LBrace);
      ParseModuleNameList();
      Match(RBrace);
      Match(Eof);
    }

    /** The whole list. Reports and names are those of the parser over tokens. Something is reported exactly when
        the command line is not a list the grammar allows; otherwise the names are those the items denote. */
    method ProcessExtQualModuleNames()
      requires Ready() && modules == []
      modifies this, mxCUM
      ensures var ts := Tokens(convert, buffer, old(bp));
              var l := TakeList(Place(Cleared(ts), old(mxCUM.diags) + ts[0].report), defaults, []);
              old(mxCUM.diags) <= mxCUM.diags == l.1.log && modules == l.0
      ensures var ts := Tokens(convert, buffer, old(bp)); var quiet := mxCUM.diags == old(mxCUM.diags);
              && (quiet <==> exists items :: items != [] && ts == G.ListTokens(items))
              && (forall items :: items != [] && ts == G.ListTokens(items) ==> modules == DenotesAll(items, defaults))
              && mxCUM.returnCode == if quiet then old(mxCUM.returnCode) else Fail
    {
      hide Ahead, Here, G.ParseList, G.ListTokens, DenotesAll, ScanFrom, Tokens, TakeList;
      ghost var ts := Tokens(convert, buffer, bp);
      G.TokensAreStream(convert, buffer, bp);
      G.OnlyReading(ts);
      Start();
      ListAgrees(Here(), defaults);
      ParseExternallyQualifiedModuleNames();
    }

    /** Scans the first token. */
    method Start()
      requires Ready()
      modifies this`bp, this`currentTokenCode, this`currentToken, this`base, this`baseCode, mxCUM
      ensures Valid() && base == old(mxCUM.diags) && baseCode == old(mxCUM.returnCode)
      ensures var ts := Tokens(convert, buffer, old(bp));
              Here() == Place(Cleared(ts), old(mxCUM.diags) + ts[0].report)
    {
      base, baseCode := mxCUM.diags, mxCUM.returnCode;
      currentTokenCode := Scanner();
    }

    /** Whether a module is in the list, by its full name; the first one of that name is marked. */
    method Contains(moduleName: string) returns (found: bool)
      modifies this`modules
      ensures found <==>
                exists k ::
                  && 0 <= k < |old(modules)|
                  && moduleName == old(modules)[k].catalog + "." + old(modules)[k].schema + "." + old(modules)[k].mod
      ensures !found ==> modules == old(modules)
      ensures found ==>
                exists k ::
                  && 0 <= k < |old(modules)|
                  && moduleName == old(modules)[k].catalog + "." + old(modules)[k].schema + "." + old(modules)[k].mod
                  && (forall j :: 0 <= j < k ==> FullName(old(modules)[j]) != moduleName)
                  && modules == old(modules)[k := old(modules)[k].(found := true)]
    {
      for x := 0 to |modules|
        invariant modules == old(modules)
        invariant forall j :: 0 <= j < x ==> FullName(modules[j]) != moduleName
      {
        if FullName(modules[x]) == moduleName {
          modules := modules[x := modules[x].(found := true)];
          return true;
        }
      }
      found := false;
    }
  }
}
