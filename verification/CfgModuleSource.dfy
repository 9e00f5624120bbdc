/** The analysis of `#[cfg(test)] mod NAME;`, for every name (scripts/coverage_rust_ledger.py). */
module CfgModuleSource {
  import opened Results
  import opened RustLexemes
  import opened RustTokenizer
  import opened RustPieces
  import opened Delimiters
  import opened DelimiterTable
  import opened CfgSpans
  import opened CfgOutcome
  import opened CfgTexts
  import opened CfgAnalysis
  import opened CfgSources

  function ModPieces(name: string): (r: Pieces) {
    Attributed(More(Blank(' '), More(Name("mod"), More(Blank(' '), More(Name(name), More(Sign(';'), Done))))))
  }

  function ModTokens(name: string): (r: seq<Token>)
    ensures |r| == 10 && r[7] == Token("mod", 1) && r[8] == Token(name, 1) && r[9] == Token(";", 1)
    ensures forall p :: 0 <= p < 7 ==> r[p] == AttributeTokens(1)[p]
  {
    AttributeTokens(1) + [Token("mod", 1), Token(name, 1), Token(";", 1)]
  }

  const MODULE := Span(ItemSpan, 0, 9, Some(8))

  /** The source in full. */
  lemma ModText(name: string)
    ensures Spelled(ModPieces(name)) == "#[cfg(test)]" + " mod " + name + ";"
  {
    var tail := More(Blank(' '), More(Name("mod"), More(Blank(' '), More(Name(name), More(Sign(';'), Done)))));
    assert Spelled(tail) == " mod " + name + ";" by {
      var a := More(Name(name), More(Sign(';'), Done));
      assert Spelled(More(Sign(';'), Done)) == ";" + Spelled(Done) == ";";
      assert Spelled(a) == name + ";";
      assert Spelled(More(Name("mod"), More(Blank(' '), a))) == "mod" + (" " + Spelled(a));
    }
    AttributeText(tail);
  }

  lemma SpelledMore(p: Piece, rest: Pieces)
    ensures Spelled(More(p, rest)) == Spell(p) + Spelled(rest)
  {
  }

  lemma TestText(rest: Pieces)
    ensures Spelled(More(Sign('('), More(Name("test"), More(Sign(')'), More(Sign(']'), rest))))) == "(test)]" + Spelled(rest)
  {
    hide Spelled;
    var t := Spelled(rest);
    var a := More(Sign(')'), More(Sign(']'), rest));
    SpelledMore(Sign(']'), rest);
    SpelledMore(Sign(')'), a.rest);
    assert Spelled(a) == ")]" + t;
    SpelledMore(Name("test"), a);
    SpelledMore(Sign('('), More(Name("test"), a));
  }

  lemma AttributeText(rest: Pieces)
    ensures Spelled(Attributed(rest)) == "#[cfg(test)]" + Spelled(rest)
  {
    hide Spelled;
    var b := More(Sign('('), More(Name("test"), More(Sign(')'), More(Sign(']'), rest))));
    TestText(rest);
    var c := More(Sign('['), More(Name("cfg"), b));
    SpelledMore(Name("cfg"), b);
    SpelledMore(Sign('['), c.rest);
    SpelledMore(Sign('#'), c);
    AttributeLiteral();
    var u := Spelled(b);
    assert "#" + ("[" + ("cfg" + u)) == "#[cfg" + u;
  }

  lemma AttributeLiteral()
    ensures "#[cfg(test)]" == "#[cfg" + "(test)]"
  {
  }

  lemma ModReads(cls: Classes, name: string)
    requires Ordinary(cls) && IsPlain(cls, Name(name))
    ensures Readable(cls, ModPieces(name)) && Tokens(ModPieces(name), 1) == ModTokens(name)
  {
    hide Readable, Tokens, Ordinary, IsPlain, Attributed, AttributeTokens;
    AddNothing(cls, 1);
    var a := More(Sign(';'), Done);
    AddSign(cls, ';', Done, 1);
    var b := More(Name(name), a);
    AddName(cls, name, a, 1);
    var c := More(Blank(' '), b);
    AddBlank(cls, ' ', b, 1);
    var d := More(Name("mod"), c);
    LettersArePlain(cls, "mod");
    AddName(cls, "mod", c, 1);
    AddBlank(cls, ' ', d, 1);
    AddAttribute(cls, More(Blank(' '), d), 1);
  }

  lemma NameIsNoMark(cls: Classes, name: string)
    requires Ordinary(cls) && IsPlain(cls, Name(name))
    ensures name != [] && !IsPunctuation(name[0])
  {
  }

  lemma ModBalanced(name: string)
    requires name != [] && !IsPunctuation(name[0])
    ensures Balanced(ModTokens(name))
  {
    hide Matched, Yield, AttributeTokens;
    NoForest();
    var a := Plain(Token(";", 1), Empty);
    AddPlain(";", 1, Empty);
    var b := Plain(Token(name, 1), a);
    AddPlain(name, 1, a);
    var c := Plain(Token("mod", 1), b);
    AddPlain("mod", 1, b);
    AttributeForestYields(1, c);
    assert Yield(AttributeForest(1, c)) == ModTokens(name);
  }

  /** The texts of the tokens. */
  lemma ModSays(name: string)
    ensures AttributeHere(ModTokens(name), 0)
  {
    var t, a := ModTokens(name), AttributeTokens(1);
    assert t[0] == a[0] && t[1] == a[1] && t[2] == a[2] && t[3] == a[3] && t[4] == a[4] && t[5] == a[5] && t[6] == a[6];
  }

  /** The tokens behind the attribute. */
  ghost predicate ModTail(tokens: seq<Token>, name: string) {
    && |tokens| == 10 && AttributeHere(tokens, 0) && name != [] && !IsPunctuation(name[0])
    && tokens[7].text == "mod" && tokens[8].text == name && tokens[9].text == ";"
    && forall p :: 0 <= p < 10 ==> tokens[p].line == 1
  }

  lemma NotNamed(cls: Classes, tokens: seq<Token>, name: string, close: map<nat, nat>, m: nat)
    requires ModTail(tokens, name)
    ensures !NamedAt(cls, tokens, close, 0, m)
  {
    hide IsName, AttributeHere;
    if LeadsSomehow(tokens, close, 7, m) {
      var a: nat, v: nat :| LeadsTo(tokens, close, 7, a, v, m);
      assert a == 7;
      assert m == 7;
    }
  }

  lemma StopsBehind(tokens: seq<Token>, name: string)
    requires ModTail(tokens, name)
    ensures FirstStopAt(tokens, 7, 9)
  {
    hide AttributeHere;
    assert !Says(tokens, 7, "{") && !Says(tokens, 7, ";") && !Says(tokens, 7, "(") && !Says(tokens, 7, ")");
    assert !Says(tokens, 7, "[") && !Says(tokens, 7, "]");
    NameSaysNoMark(tokens, name);
    assert Excess(tokens, "(", ")", 7, 8) == 0 && Excess(tokens, "[", "]", 7, 8) == 0;
    assert Excess(tokens, "(", ")", 7, 9) == 0 && Excess(tokens, "[", "]", 7, 9) == 0;
  }

  lemma NameSaysNoMark(tokens: seq<Token>, name: string)
    requires ModTail(tokens, name)
    ensures !Says(tokens, 8, "{") && !Says(tokens, 8, ";") && !Says(tokens, 8, "(") && !Says(tokens, 8, ")")
    ensures !Says(tokens, 8, "[") && !Says(tokens, 8, "]") && !Says(tokens, 8, "#") && !Says(tokens, 8, ":")
  {
    hide AttributeHere;
  }

  lemma ModIsCovered(cls: Classes, tokens: seq<Token>, name: string, table: Table)
    requires ModTail(tokens, name) && WellMatched(tokens, table)
    ensures Covered(cls, tokens, table, 0, Ok(MODULE))
  {
    hide NamedAt, AttributeHere, IsMatching, IsLineIndex;
    forall m: nat
      ensures !NamedAt(cls, tokens, table.close, 0, m)
    {
      NotNamed(cls, tokens, name, table.close, m);
    }
    assert 0 !in table.enclosing;
    StopsBehind(tokens, name);
    assert ModAt(tokens, 7, 9, 7);
    assert ModuleTo(tokens, 0, 9, 7, Ok(MODULE));
    assert ItemTo(tokens, table, 0, 9, Ok(MODULE));
  }

  lemma ModIsFound(cls: Classes, tokens: seq<Token>, name: string, table: Table)
    requires ModTail(tokens, name) && WellMatched(tokens, table)
    ensures Finds(cls, tokens, table, [MODULE], {1}, {name})
  {
    hide Covered, AttributeHere, WellMatched;
    ModIsCovered(cls, tokens, name, table);
    assert [MODULE][..0] == [];
    assert CoveredBefore(cls, tokens, table, [], 0);
    assert CoveredBefore(cls, tokens, table, [MODULE], 10);
    var spans := [MODULE];
    forall l: nat
      ensures LineTaken(tokens, spans, l) <==> l == 1
    {
      assert TakesLine(tokens, MODULE, l) <==> l == 1;
      assert spans[0] == MODULE;
    }
    assert DeclaresModule(tokens, MODULE, 7);
    forall k: nat
      ensures DeclaresModule(tokens, MODULE, k) <==> k == 7
    {
    }
    forall other: string
      ensures ModuleDeclared(tokens, spans, other) <==> other == name
    {
      assert spans[0] == MODULE && tokens[7 + 1].text == name;
    }
  }

  /**
   * The source `#[cfg(test)] mod NAME;` reads as ten balanced tokens, and whatever table matches them,
   * the analysis finds its one line and its one module.
   */
  lemma ModuleIsDeclared(cls: Classes, name: string, table: Table)
    requires Ordinary(cls) && IsPlain(cls, Name(name))
    ensures Reads(cls, Spelled(ModPieces(name)), ModTokens(name)) && Balanced(ModTokens(name))
    ensures WellMatched(ModTokens(name), table) ==> Finds(cls, ModTokens(name), table, [MODULE], {1}, {name})
  {
    hide Ordinary, Readable, IsPlain, ModPieces, Tokens, Spelled, Reads, Balanced, WellMatched, Finds, AttributeHere, AttributeTokens;
    ModReads(cls, name);
    PiecesRead(cls, ModPieces(name));
    NameIsNoMark(cls, name);
    ModBalanced(name);
    ModSays(name);
    ModTailStands(name);
    if WellMatched(ModTokens(name), table) {
      ModIsFound(cls, ModTokens(name), name, table);
    }
  }

  lemma ModTailStands(name: string)
    requires name != [] && !IsPunctuation(name[0]) && AttributeHere(ModTokens(name), 0)
    ensures ModTail(ModTokens(name), name)
  {
    hide AttributeHere;
    assert forall p :: 0 <= p < 7 ==> AttributeTokens(1)[p].line == 1;
  }

  /** Names may begin with an underscore and hold one. */
  lemma UnderscoreIsPlain(cls: Classes)
    requires Ordinary(cls) && '_' !in cls.spaces
    ensures IsPlain(cls, Name("_")) && IsPlain(cls, Name("a_"))
  {
    assert "a_"[1] == '_';
  }
}
