/** The test-code analysis of one Rust source file, end to end (scripts/coverage_rust_ledger.py). */
module CfgAnalysis {
  import opened Results
  import opened RustLexemes
  import opened RustTokenizer
  import opened Delimiters
  import opened DelimiterTable
  import opened CfgSpans
  import opened CfgOutcome
  import opened CfgScan
  import opened CfgUnique
  import opened CfgTexts
  import opened CfgTextsAgree

  datatype AnalysisError = Unlexed(lexing: LexError) | Unbalanced(line: nat) | Ambiguous(scanning: ScanError)

  /** Lines of test code, and names of modules that are test code in another file. */
  datatype Findings = Findings(excluded: set<nat>, modules: set<string>)

  /** `tokens` are what some lexing of the source leaves. */
  ghost predicate Reads(cls: Classes, source: string, tokens: seq<Token>) {
    exists lx :: ReadAs(cls, source, lx, tokens)
  }

  ghost predicate ReadAs(cls: Classes, source: string, lx: seq<Lexeme>, tokens: seq<Token>) {
    && IsLexing(cls, source, 0, lx)
    && (forall k :: 0 <= k < |lx| ==> lx[k].start <= lx[k].end <= |source|)
    && tokens == TokensOf(source, lx)
  }

  lemma {:induction false} DeclaredInRange(s: Stream, spans: seq<Span>, i: nat)
    requires Valid(s) && Scanned(s, spans, i)
    ensures forall p :: p in AllDeclared(spans) ==> p < |s.y|
    decreases |spans|
  {
    hide Paired, Placed, Indexed, Attribute, Outcome;
    if spans != [] {
      var x := spans[|spans| - 1];
      DeclaredInRange(s, spans[..|spans| - 1], x.start);
      if x.declares.Some? {
        DeclaredBounds(s, x.start, x);
      }
    }
  }

  lemma DeclaredBounds(s: Stream, p: nat, x: Span)
    requires Valid(s) && Attribute(s.y, p) && Outcome(s, p, Ok(x)) && x.declares.Some?
    ensures x.declares.value < |s.y|
  {
    hide Valid, Attribute, Stops, NamePosition, EndsAt;
    assert ItemOutcome(s, p, Ok(x));
  }

  /** The findings are what the spans of all attributes say, and there are no other such spans. */
  ghost predicate Found(s: Stream, tokens: seq<Token>, spans: seq<Span>, found: Findings)
    requires Valid(s)
  {
    && Scanned(s, spans, |s.y|) && InRange(s, spans) && found.excluded == AllExcluded(s, spans)
    && (forall p :: p in AllDeclared(spans) ==> p < |tokens|)
    && found.modules == (set p | p in AllDeclared(spans) :: tokens[p].text)
    && forall other :: Scanned(s, other, |s.y|) ==> other == spans
  }

  /** The attribute at `p` is the first that covers nothing definite. */
  ghost predicate FirstFault(s: Stream, spans: seq<Span>, p: nat, error: ScanError)
    requires Valid(s)
  {
    && Attribute(s.y, p) && p < |s.line| && Scanned(s, spans, p)
    && error.line == s.line[p] && Outcome(s, p, Err(error.fault))
  }

  /** The scan over matched tokens. */
  method AnalyseTokens(cls: Classes, tokens: seq<Token>, table: Table)
    returns (r: Result<Findings, ScanError>, ghost spans: seq<Span>)
    requires WellMatched(tokens, table) && LinesAscend(tokens)
    ensures Valid(View(cls, tokens, table))
    ensures r.Ok? <==> exists all :: Scanned(View(cls, tokens, table), all, |tokens|)
    ensures r.Ok? ==> Found(View(cls, tokens, table), tokens, spans, r.value)
    ensures r.Err? ==> exists p: nat :: FirstFault(View(cls, tokens, table), spans, p, r.error)
  {
    hide WellMatched, Valid, Scanned, Outcome, Attribute, SymbolOf, IsName;
    ViewIsValid(cls, tokens, table);
    var s := View(cls, tokens, table);
    var scanned;
    scanned, spans := Scan(s);
    if scanned.Err? {
      ghost var p: nat :| Attribute(s.y, p) && p < |s.line| && Scanned(s, spans, p)
                          && scanned.error.line == s.line[p] && Outcome(s, p, Err(scanned.error.fault));
      assert FirstFault(s, spans, p, scanned.error);
      forall all
        ensures !Scanned(s, all, |s.y|)
      {
        FaultBlocks(s, spans, p, scanned.error.fault, all);
      }
      return Err(scanned.error), spans;
    }
    DeclaredInRange(s, spans, |s.y|);
    forall other | Scanned(s, other, |s.y|)
      ensures other == spans
    {
      ScannedIsUnique(s, other, spans, |s.y|);
    }
    r := Ok(Findings(scanned.value.excluded, set p | p in scanned.value.modules :: tokens[p].text));
  }

  /** What the scan finds is what the tokens' texts and lines say. */
  lemma FoundInTexts(cls: Classes, tokens: seq<Token>, table: Table, spans: seq<Span>, found: Findings)
    requires WellMatched(tokens, table) && Valid(View(cls, tokens, table)) && Found(View(cls, tokens, table), tokens, spans, found)
    ensures Finds(cls, tokens, table, spans, found.excluded, found.modules)
  {
    hide WellMatched, Valid, View, Scanned, Finds, InRange, Sees, AllExcluded, AllDeclared;
    ViewIsSeen(cls, tokens, table);
    FindingsAgree(cls, tokens, View(cls, tokens, table), spans, found.excluded, found.modules);
  }

  lemma ViewIsSeen(cls: Classes, tokens: seq<Token>, table: Table)
    requires Valid(View(cls, tokens, table))
    ensures Sees(cls, tokens, View(cls, tokens, table))
    ensures View(cls, tokens, table).table == table && |View(cls, tokens, table).y| == |tokens|
  {
    hide Valid, Marks, Signs, Words, IsName, SymbolOf;
    ViewSpells(cls, tokens, table);
  }

  lemma ScansInTexts(cls: Classes, tokens: seq<Token>, table: Table)
    requires Valid(View(cls, tokens, table))
    ensures forall spans :: CoveredBefore(cls, tokens, table, spans, |tokens|) <==> Scanned(View(cls, tokens, table), spans, |tokens|)
    ensures (exists all :: CoveredBefore(cls, tokens, table, all, |tokens|))
       <==> exists all :: Scanned(View(cls, tokens, table), all, |tokens|)
  {
    hide Valid, View, Scanned, CoveredBefore, Sees;
    ViewIsSeen(cls, tokens, table);
    forall spans
      ensures CoveredBefore(cls, tokens, table, spans, |tokens|) <==> Scanned(View(cls, tokens, table), spans, |tokens|)
    {
      ScansAgree(cls, tokens, View(cls, tokens, table), spans, |tokens|);
    }
  }

  /** The attribute at `p` is the first that covers nothing definite, over the tokens. */
  ghost predicate FirstUncovered(cls: Classes, tokens: seq<Token>, table: Table, spans: seq<Span>, p: nat, error: ScanError) {
    && AttributeHere(tokens, p) && p < |tokens| && CoveredBefore(cls, tokens, table, spans, p)
    && error.line == tokens[p].line && Covered(cls, tokens, table, p, Err(error.fault))
  }

  lemma FaultInTexts(cls: Classes, tokens: seq<Token>, table: Table, spans: seq<Span>, p: nat, error: ScanError)
    requires Valid(View(cls, tokens, table)) && FirstFault(View(cls, tokens, table), spans, p, error)
    ensures FirstUncovered(cls, tokens, table, spans, p, error)
  {
    hide Valid, View, Scanned, CoveredBefore, Sees, Attribute, AttributeHere, Outcome, Covered;
    ViewIsSeen(cls, tokens, table);
    var s := View(cls, tokens, table);
    ScansAgree(cls, tokens, s, spans, p);
    AttributesAgreeIn(cls, tokens, s, p);
    SeesLine(cls, tokens, s, p);
    CoversAgree(cls, tokens, s, p, Err(error.fault));
  }

  lemma FoundIsOnly(cls: Classes, tokens: seq<Token>, table: Table, spans: seq<Span>, found: Findings)
    requires Valid(View(cls, tokens, table)) && Found(View(cls, tokens, table), tokens, spans, found)
    ensures forall all :: Scanned(View(cls, tokens, table), all, |tokens|) ==> all == spans
  {
    hide Valid, Scanned;
  }

  lemma SeesLine(cls: Classes, tokens: seq<Token>, s: Stream, p: nat)
    requires Sees(cls, tokens, s) && p < |s.line|
    ensures p < |tokens| == |s.y| && s.line[p] == tokens[p].line
  {
  }

  method CfgTestAnalysis(cls: Classes, source: string)
    returns (r: Result<Findings, AnalysisError>, ghost tokens: seq<Token>, ghost table: Table, ghost spans: seq<Span>)
    ensures r.Err? && r.error.Unlexed? <==> forall any :: !Reads(cls, source, any)
    ensures !(r.Err? && r.error.Unlexed?) ==> Reads(cls, source, tokens) && forall any :: Reads(cls, source, any) ==> any == tokens
    ensures r.Err? && r.error.Unbalanced? <==> Reads(cls, source, tokens) && !Balanced(tokens)
    ensures r.Err? && r.error.Unbalanced? ==> exists p: nat :: Unmatched(tokens, p) && r.error.line == tokens[p].line
    ensures r.Ok? || r.error.Ambiguous? ==> WellMatched(tokens, table) && Valid(View(cls, tokens, table))
    ensures r.Ok? || r.error.Ambiguous? ==> (r.Ok? <==> exists all :: CoveredBefore(cls, tokens, table, all, |tokens|))
    ensures r.Ok? ==> Finds(cls, tokens, table, spans, r.value.excluded, r.value.modules)
    ensures r.Ok? ==> forall all :: CoveredBefore(cls, tokens, table, all, |tokens|) ==> all == spans
    ensures r.Err? && r.error.Ambiguous? ==> exists p: nat :: FirstUncovered(cls, tokens, table, spans, p, r.error.scanning)
    ensures r.Ok? ==> Found(View(cls, tokens, table), tokens, spans, r.value)
  {
    hide IsLexing, TokensOf, Balanced, Unmatched, WellMatched, Valid, View, Found, FirstFault, LinesAscend, Scanned, CoveredBefore,
         Finds, FirstUncovered;
    var lexed, lx := Tokenize(cls, source);
    tokens, table, spans := [], Table(map[], map[], map[]), [];
    if lexed.Err? {
      assert forall any :: !Reads(cls, source, any);
      return Err(Unlexed(lexed.error)), tokens, table, spans;
    }
    tokens := lexed.value;
    assert ReadAs(cls, source, lx, tokens);
    assert Reads(cls, source, tokens);
    var matched := MatchDelimiters(lexed.value);
    if matched.Err? {
      return Err(Unbalanced(matched.error)), tokens, table, spans;
    }
    table := matched.value;
    var analysed;
    analysed, spans := AnalyseTokens(cls, lexed.value, matched.value);
    r := if analysed.Ok? then Ok(analysed.value) else Err(Ambiguous(analysed.error));
    ScansInTexts(cls, tokens, table);
    if analysed.Ok? {
      FoundInTexts(cls, tokens, table, spans, analysed.value);
      FoundIsOnly(cls, tokens, table, spans, analysed.value);
    } else {
      ghost var p: nat :| FirstFault(View(cls, tokens, table), spans, p, analysed.error);
      FaultInTexts(cls, tokens, table, spans, p, analysed.error);
    }
  }
}
