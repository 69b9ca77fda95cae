/** Requirements as text: what a clause's text means, and that an interval written out and
    read back is the same interval. */
module RequirementText {
  import opened Wrappers
  import opened Text
  import opened Versions
  import opened Requirements
  import opened Intervals
  import opened Ceilings

  // --- partial versions ---

  function Numerals(v: Version): seq<string> { [Itoa(v.major), Itoa(v.minor), Itoa(v.patch)] }

  /** A partial version as a clause writes it: "1", "1.2", "1.2-alpha", "1.2.3-alpha". */
  function PartialText(p: Partial): string
    requires p.written <= 3
  {
    Glue(Join(Numerals(p.completed)[..p.written], '.'), '-', Written(p.completed.prerelease))
  }

  lemma NumeralChars(parts: seq<string>)
    requires forall part | part in parts :: IsNumeral(part)
    ensures forall c | c in Join(parts, '.') :: c == '.' || IsDigit(c)
  {
    forall c | c in Join(parts, '.') ensures c == '.' || IsDigit(c) {
      JoinChars(parts, '.', c);
    }
  }

  lemma PaddedNumerals(p: Partial)
    requires WellFormedPartial(p)
    ensures Padded(Numerals(p.completed)[..p.written]) == Numerals(p.completed)
  {
    assert Itoa(0) == "0";
  }

  lemma PartialTextPieces(p: Partial)
    requires WellFormedPartial(p)
    ensures '+' !in PartialText(p)
    ensures Cut(PartialText(p), '-') == (Join(Numerals(p.completed)[..p.written], '.'), Written(p.completed.prerelease))
    ensures Split(Join(Numerals(p.completed)[..p.written], '.'), '.') == Numerals(p.completed)[..p.written]
  {
    var parts := Numerals(p.completed)[..p.written];
    SplitJoin(parts, '.');
    if p.completed.IsPrerelease() { ValidIdentifiersChars(p.completed.prerelease, true); }
    GluedPieces(parts, Written(p.completed.prerelease));
  }

  lemma GluedPieces(parts: seq<string>, prerelease: Option<string>)
    requires forall part | part in parts :: IsNumeral(part)
    requires prerelease.Some? ==> '+' !in prerelease.value
    ensures '+' !in Glue(Join(parts, '.'), '-', prerelease)
    ensures Cut(Glue(Join(parts, '.'), '-', prerelease), '-') == (Join(parts, '.'), prerelease)
  {
    NumeralChars(parts);
    CutGlue(Join(parts, '.'), '-', prerelease);
  }

  lemma CompletedText(p: Partial)
    requires WellFormedPartial(p)
    ensures Glue(Join(Padded(Numerals(p.completed)[..p.written]), '.'), '-', Written(p.completed.prerelease))
            == p.completed.String()
  {
    PaddedNumerals(p);
    CoreIsJoined(p.completed);
    StringIsGlued(p.completed);
  }

  lemma PartialOfText(p: Partial)
    requires WellFormedPartial(p)
    ensures PartialOf(PartialText(p)) == Some(p)
  {
    PartialTextPieces(p);
    PartialTextStart(p);
    CompletedText(p);
    VersionOfString(p.completed);
  }

  lemma PartialTextStart(p: Partial)
    requires WellFormedPartial(p)
    ensures PartialText(p) != "" && IsDigit(PartialText(p)[0])
  {
    var parts := Numerals(p.completed)[..p.written];
    assert parts[0] == Itoa(p.completed.major);
    assert IsDigit(Join(parts, '.')[0]);
  }

  lemma JoinedNumerals(parts: seq<string>, v: Version)
    requires |parts| == 3 && (forall part | part in parts :: '.' !in part)
    requires Join(parts, '.') == v.Core()
    ensures parts == Numerals(v)
  {
    CoreIsJoined(v);
    JoinInjective(parts, Numerals(v), '.');
  }

  lemma JoinInjective(parts: seq<string>, others: seq<string>, sep: char)
    requires parts != [] && others != [] && Join(parts, sep) == Join(others, sep)
    requires forall part | part in parts + others :: sep !in part
    ensures parts == others
  {
    SplitJoin(parts, sep);
    SplitJoin(others, sep);
  }

  lemma PlusFreeHasNoMetadata(v: Version)
    requires '+' !in v.String()
    ensures v.buildMetadata == ""
  {
    StringIsGlued(v);
    var rest := Glue(v.Core(), '-', Written(v.prerelease));
    assert v.buildMetadata != "" ==> '+' in Glue(rest, '+', Written(v.buildMetadata));
  }

  lemma JoinPaddedChars(components: seq<string>, c: char)
    requires 1 <= |components| <= 3
    requires c in Join(Padded(components), '.') && c != '.' && c != '0'
    ensures c in Join(components, '.')
  {
    JoinChars(Padded(components), '.', c);
    var part :| part in Padded(components) && c in part;
    assert part in components;
    JoinHolds(components, '.', part, c);
  }

  lemma {:induction false} JoinHolds(parts: seq<string>, sep: char, part: string, c: char)
    requires part in parts && c in part
    ensures c in Join(parts, sep)
  {
    if |parts| > 1 && part != parts[0] {
      JoinHolds(parts[1..], sep, part, c);
    }
  }

  lemma TextOfPartial(text: string)
    requires PartialOf(text).Some?
    ensures WellFormedPartial(PartialOf(text).value)
    ensures PartialText(PartialOf(text).value) == text
  {
    var p := PartialOf(text).value;
    var (numeric, prerelease) := Cut(text, '-');
    var components := Split(numeric, '.');
    CompletedIsPlain(numeric, prerelease);
    StringOfVersionOf(Glue(Join(Padded(components), '.'), '-', prerelease));
    PlusFreeHasNoMetadata(p.completed);
    CompletedPieces(Padded(components), prerelease, p.completed);
    assert components == Numerals(p.completed)[..p.written];
    PaddingIsZero(p.completed, p.written);
  }

  /** The pieces of a completed text are those of the version it writes. */
  lemma CompletedPieces(padded: seq<string>, prerelease: Option<string>, v: Version)
    requires |padded| == 3 && (forall part | part in padded :: '.' !in part)
    requires '-' !in Join(padded, '.') && v.buildMetadata == ""
    requires Glue(Join(padded, '.'), '-', prerelease) == v.String()
    ensures padded == Numerals(v) && prerelease == Written(v.prerelease)
  {
    StringIsGlued(v);
    CoreIsJoined(v);
    CutGlue(Join(padded, '.'), '-', prerelease);
    CutGlue(v.Core(), '-', Written(v.prerelease));
    JoinedNumerals(padded, v);
  }

  lemma CompletedIsPlain(numeric: string, prerelease: Option<string>)
    requires '-' !in numeric && '+' !in Glue(numeric, '-', prerelease)
    requires |Split(numeric, '.')| <= 3
    ensures '-' !in Join(Padded(Split(numeric, '.')), '.')
    ensures '+' !in Glue(Join(Padded(Split(numeric, '.')), '.'), '-', prerelease)
  {
    var components := Split(numeric, '.');
    var joined := Join(Padded(components), '.');
    if '-' in joined { JoinPaddedChars(components, '-'); }
    if '+' in joined { JoinPaddedChars(components, '+'); }
    if prerelease.Some? {
      assert forall c | c in prerelease.value :: c in Glue(numeric, '-', prerelease);
    }
  }

  lemma PaddingIsZero(v: Version, written: nat)
    requires 1 <= written <= 3
    requires Padded(Numerals(v)[..written]) == Numerals(v)
    ensures written < 3 ==> v.patch == 0
    ensures written < 2 ==> v.minor == 0
  {
    var padded := Padded(Numerals(v)[..written]);
    NatOfItoa(0);
    NatOfItoa(v.patch);
    NatOfItoa(v.minor);
    assert Itoa(0) == "0";
    assert written < 3 ==> padded[2] == "0" == Itoa(v.patch);
    assert written < 2 ==> padded[1] == "0" == Itoa(v.minor);
  }

  /** A partial version is read from exactly the texts that write it. */
  lemma PartialParserInvertsPrinter(text: string, p: Partial)
    ensures PartialOf(text) == Some(p) <==> WellFormedPartial(p) && PartialText(p) == text
  {
    if PartialOf(text).Some? { TextOfPartial(text); }
    if WellFormedPartial(p) { PartialOfText(p); }
  }

  // --- clauses ---

  lemma PartialTextEnds(p: Partial)
    requires WellFormedPartial(p)
    ensures PartialText(p) != "" && !IsSpace(PartialText(p)[|PartialText(p)| - 1])
    ensures ',' !in PartialText(p)
  {
    var parts := Numerals(p.completed)[..p.written];
    NumeralChars(parts);
    PartialTextStart(p);
    if p.completed.IsPrerelease() { ValidIdentifiersChars(p.completed.prerelease, true); }
    var text := PartialText(p);
    assert forall c | c in text :: c == '.' || IdentifierChar(c);
    assert text[|text| - 1] in text;
  }

  lemma LeadingIs(op: string, text: string)
    requires op in COMPARATORS
    requires text != "" && IsDigit(text[0])
    ensures LeadingCandidate(COMPARATORS, op + text) == op
  {
    var k :| 0 <= k < |COMPARATORS| && COMPARATORS[k] == op;
    var whole := op + text;
    assert op <= whole;
    assert whole[0] == op[0] && whole[|op|] == text[0];
    forall i | 0 <= i < k ensures !(COMPARATORS[i] <= whole) {
      assert COMPARATORS[i] == ">=" || COMPARATORS[i] == "<=" ==> |op| == 1 ==> whole[1] != '=';
      assert COMPARATORS[i][0] != whole[0] || (|COMPARATORS[i]| == 2 && |op| == 1);
    }
    LeadingCandidateSkips(COMPARATORS, k, whole);
  }

  lemma LeadingIsNone(text: string)
    requires text != "" && IsDigit(text[0])
    ensures LeadingCandidate(COMPARATORS, text) == ""
  {
    LeadingCandidateSkips(COMPARATORS, |COMPARATORS|, text);
  }

  lemma RemainderIsWhole(op: string, text: string, p: Partial)
    requires Trimmed(text) && text != "" && IsDigit(text[0])
    requires PartialOf(text) == Some(p)
    ensures Remainder(op, op + text) == Compared(op, p)
  {
    assert (op + text)[|op|..] == text;
  }

  lemma OperatorKeepsTrimmed(op: string, text: string)
    requires op in COMPARATORS || op == ""
    requires text != "" && IsDigit(text[0]) && !IsSpace(text[|text| - 1]) && ',' !in text
    ensures Trimmed(op + text) && op + text != "" && op + text != "*"
    ensures ',' !in op + text
  {
    var whole := op + text;
    assert whole[|whole| - 1] == text[|text| - 1];
    assert whole[0] == if op == "" then text[0] else op[0];
    assert forall c | c in op :: c in "<>=^~";
  }

  /** A comparator, or none, followed by a partial version reads as that comparison. */
  lemma WrittenClause(op: string, p: Partial)
    requires op in COMPARATORS || op == ""
    requires WellFormedPartial(p)
    ensures Trimmed(op + PartialText(p)) && op + PartialText(p) != ""
    ensures ',' !in op + PartialText(p)
    ensures ClauseOf(op + PartialText(p)) == Compared(op, p)
  {
    var text := PartialText(p);
    PartialTextStart(p);
    PartialTextEnds(p);
    OperatorKeepsTrimmed(op, text);
    PartialOfText(p);
    RemainderIsWhole(op, text, p);
    if op == "" {
      assert op + text == text;
      LeadingIsNone(text);
    } else {
      LeadingIs(op, text);
    }
  }

  lemma {:induction false} LeadingCandidateListed(candidates: seq<string>, text: string)
    ensures LeadingCandidate(candidates, text) == "" || LeadingCandidate(candidates, text) in candidates
  {
    if candidates != [] && !(candidates[0] <= text) {
      LeadingCandidateListed(candidates[1..], text);
    }
  }

  /** The clause is a comparator, or none, and a partial version, with any space around them. */
  predicate ClauseReads(clause: string, op: string, p: Partial) {
    var trimmed := TrimSpace(clause);
    && trimmed != "" && trimmed != "*"
    && op == LeadingCandidate(COMPARATORS, trimmed) && op <= trimmed
    && WellFormedPartial(p) && TrimSpace(trimmed[|op|..]) == PartialText(p)
  }

  lemma ClauseReadsAs(clause: string, op: string, p: Partial)
    requires ClauseReads(clause, op, p)
    ensures op in COMPARATORS || op == ""
    ensures ClauseOf(clause) == Compared(op, p)
  {
    var trimmed := TrimSpace(clause);
    LeadingCandidateListed(COMPARATORS, trimmed);
    PartialTextStart(p);
    PartialOfText(p);
  }

  lemma LeadingCandidateLeads(candidates: seq<string>, text: string)
    ensures LeadingCandidate(candidates, text) <= text
  {
  }

  /** Every clause but '*' that is not malformed reads so, whether or not its ceiling exists. */
  lemma ReadClause(clause: string) returns (op: string, p: Partial)
    requires ClauseOf(clause) != Err(Malformed) && TrimSpace(clause) != "*"
    ensures ClauseReads(clause, op, p)
  {
    var trimmed := TrimSpace(clause);
    op := LeadingCandidate(COMPARATORS, trimmed);
    LeadingCandidateLeads(COMPARATORS, trimmed);
    var rest := TrimSpace(trimmed[|op|..]);
    p := PartialOf(rest).value;
    TextOfPartial(rest);
  }

  /** Which texts are clauses at all. */
  lemma MalformedExactlyWhen(clause: string)
    ensures ClauseOf(clause) == Err(Malformed) <==>
            TrimSpace(clause) != "*" && forall op, p :: !ClauseReads(clause, op, p)
  {
    if ClauseOf(clause) != Err(Malformed) && TrimSpace(clause) != "*" {
      var op, p := ReadClause(clause);
    }
    forall op, p | ClauseReads(clause, op, p) ensures ClauseOf(clause) != Err(Malformed) {
      ClauseReadsAs(clause, op, p);
    }
  }

  lemma ComparedIsWellFormed(op: string, p: Partial)
    requires WellFormedPartial(p) && Compared(op, p).Ok?
    ensures WellFormedBounds(Compared(op, p).value)
    ensures !IsEmpty(Compared(op, p).value.lower, Compared(op, p).value.upper)
  {
    CompareIsIdentity(p.completed, p.completed);
    var k := CaretComponentExists(p);
    CaretCeilingIsNext(p, k);
    HalfOpenIsAgreement(p.completed, k, p.completed);
    var w := if p.written == 1 then 0 else 1;
    WrittenCeilingIsNext(p, w);
    HalfOpenIsAgreement(p.completed, w, p.completed);
  }

  lemma ClauseIsWellFormed(clause: string)
    requires ClauseOf(clause).Ok?
    ensures WellFormedBounds(ClauseOf(clause).value)
    ensures !IsEmpty(ClauseOf(clause).value.lower, ClauseOf(clause).value.upper)
  {
    if TrimSpace(clause) != "*" {
      var op, p := ReadClause(clause);
      ClauseReadsAs(clause, op, p);
      ComparedIsWellFormed(op, p);
    }
  }

  lemma SingleClause(clause: string)
    requires Trimmed(clause) && clause != "" && ',' !in clause
    ensures FoldClauses(Split(clause, ','), Interval(None, None)) == ClauseOf(clause)
  {
    IndexOfAbsent(clause, ',');
    assert Split(clause, ',') == [clause];
    assert [clause][1..] == [];
    if ClauseOf(clause).Ok? {
      assert Narrowed(Interval(None, None), ClauseOf(clause).value) == ClauseOf(clause).value;
      assert FoldClauses([], ClauseOf(clause).value) == Ok(ClauseOf(clause).value);
    }
  }

  /** A text without commas is a requirement exactly when it is a clause, with its bounds. */
  lemma ClauseAlone(clause: string)
    requires ',' !in clause
    ensures RequirementOf(clause) ==
              match ClauseOf(clause)
              case Err(e) => Err(BadClause(e))
              case Ok(i) => Ok(Requirement(TrimSpace(clause), i.lower, i.upper))
  {
    var trimmed := TrimSpace(clause);
    TrimKeeps(clause, ',');
    if trimmed != "" {
      SameClause(clause);
      SingleClause(trimmed);
      if ClauseOf(trimmed).Ok? { ClauseIsWellFormed(trimmed); }
    }
  }

  lemma SameClause(clause: string)
    ensures ClauseOf(TrimSpace(clause)) == ClauseOf(clause)
  {
  }

  /** The caret, the bare clause, the tilde and the partial '=', from any text of them to what
      it accepts: the floor, everything above it that agrees through the kept component, and
      of prereleases only those of a prerelease floor's own core. */
  lemma CeilingClauseMeaning(clause: string, op: string, p: Partial, k: nat, v: Version)
    requires ClauseReads(clause, op, p) && Keeps(op, p, k)
    ensures k < 3
    ensures ClauseOf(clause) == Err(NoCeiling) <==> Component(p.completed, k) == MAX_COMPONENT
    ensures Component(p.completed, k) != MAX_COMPONENT ==>
              && ClauseOf(clause).Ok?
              && var i := ClauseOf(clause).value;
                 WellFormedBounds(i) && (Requirement(TrimSpace(clause), i.lower, i.upper).Satisfies(v) <==>
                   Admits(p.completed, k, v))
    ensures ',' !in clause && Component(p.completed, k) != MAX_COMPONENT ==>
              RequirementOf(clause).Ok? && (RequirementOf(clause).value.Satisfies(v) <==> Admits(p.completed, k, v))
  {
    ClauseReadsAs(clause, op, p);
    CeilingClauseAccepts(op, p, k, TrimSpace(clause), v);
    if ',' !in clause { ClauseAlone(clause); }
  }

  /** What a comparator asks of how a version compares. */
  predicate Meets(op: string, comparison: int) {
    || (op == ">=" && comparison >= 0) || (op == ">" && comparison > 0)
    || (op == "<=" && comparison <= 0) || (op == "<" && comparison < 0)
    || (op == "=" && comparison == 0)
  }

  /** The comparator bounds with the version itself, and with no ceiling. */
  predicate BoundsItself(op: string, p: Partial) {
    op == ">=" || op == ">" || op == "<=" || op == "<" || (op == "=" && p.written == 3)
  }

  lemma ComparedMeans(op: string, p: Partial, text: string, v: Version)
    requires WellFormedPartial(p) && BoundsItself(op, p)
    ensures Compared(op, p).Ok? && WellFormedBounds(Compared(op, p).value)
    ensures var i := Compared(op, p).value;
            Requirement(text, i.lower, i.upper).Satisfies(v) <==>
              && Meets(op, v.Compare(p.completed))
              && (v.IsPrerelease() ==> p.completed.IsPrerelease() && p.completed.SameCore(v))
  {
  }

  /** A comparator that bounds, before however few components, from any text of it to what it
      accepts: what compares so with the version written, and of prereleases only those of a
      prerelease's own core. */
  lemma ComparisonClauseMeaning(clause: string, op: string, p: Partial, v: Version)
    requires ClauseReads(clause, op, p) && BoundsItself(op, p)
    ensures ClauseOf(clause).Ok? && WellFormedBounds(ClauseOf(clause).value)
    ensures var i, accepted := ClauseOf(clause).value,
                Meets(op, v.Compare(p.completed))
                && (v.IsPrerelease() ==> p.completed.IsPrerelease() && p.completed.SameCore(v));
            && (Requirement(TrimSpace(clause), i.lower, i.upper).Satisfies(v) <==> accepted)
            && (',' !in clause ==>
                 RequirementOf(clause).Ok? && (RequirementOf(clause).value.Satisfies(v) <==> accepted))
  {
    ClauseReadsAs(clause, op, p);
    ComparedMeans(op, p, TrimSpace(clause), v);
    if ',' !in clause { ClauseAlone(clause); }
  }

  /** A star bounds nothing, and so accepts exactly the releases. */
  lemma StarMeaning(clause: string, v: Version)
    requires TrimSpace(clause) == "*"
    ensures ClauseOf(clause) == Ok(Interval(None, None))
    ensures Requirement("*", None, None).Satisfies(v) <==> !v.IsPrerelease()
  {
  }

  /** Every comparator, on every partial version, either bounds or keeps a component. */
  lemma EveryClauseHasAMeaning(op: string, p: Partial)
    requires WellFormedPartial(p) && (op in COMPARATORS || op == "")
    ensures BoundsItself(op, p) || exists k :: Keeps(op, p, k)
  {
    if op == "^" || op == "" {
      var k := CaretComponentExists(p);
      assert Keeps(op, p, k);
    } else if op == "~" || (op == "=" && p.written < 3) {
      assert Keeps(op, p, if p.written == 1 then 0 else 1);
    }
  }

  /** The only clauses without a ceiling keep a component that has no successor. */
  lemma NoCeilingMeans(clause: string) returns (op: string, p: Partial, k: nat)
    requires ClauseOf(clause) == Err(NoCeiling)
    ensures ClauseReads(clause, op, p) && Keeps(op, p, k)
    ensures k < 3 && Component(p.completed, k) == MAX_COMPONENT
  {
    op, p := ReadClause(clause);
    ClauseReadsAs(clause, op, p);
    k := KeptComponent(op, p);
    CeilingClauseAccepts(op, p, k, "", p.completed);
  }

  lemma KeptComponent(op: string, p: Partial) returns (k: nat)
    requires WellFormedPartial(p) && (op in COMPARATORS || op == "") && Compared(op, p) == Err(NoCeiling)
    ensures Keeps(op, p, k)
  {
    if op == "^" || op == "" {
      k := CaretComponentExists(p);
    } else {
      k := if p.written == 1 then 0 else 1;
    }
  }

  lemma FullPartialText(v: Version)
    requires v.WellFormed() && v.buildMetadata == ""
    ensures WellFormedPartial(Partial(v, 3))
    ensures PartialText(Partial(v, 3)) == v.String()
  {
    CoreIsJoined(v);
    StringIsGlued(v);
    assert Numerals(v)[..3] == Numerals(v);
  }

  lemma OperatorVersion(op: string, v: Version)
    requires op in COMPARATORS
    requires v.WellFormed() && v.buildMetadata == ""
    ensures Trimmed(op + v.String()) && op + v.String() != "" && ',' !in op + v.String()
    ensures ClauseOf(op + v.String()) == Compared(op, Partial(v, 3))
  {
    FullPartialText(v);
    WrittenClause(op, Partial(v, 3));
  }

  lemma SpacedClause(clause: string)
    requires Trimmed(clause) && clause != ""
    ensures ClauseOf(" " + clause) == ClauseOf(clause)
  {
    assert (" " + clause)[1..] == clause;
    assert TrimLeft(" " + clause) == TrimLeft(clause);
  }

  lemma SplitUnseparated(text: string, sep: char)
    requires sep !in text
    ensures Split(text, sep) == [text]
  {
    IndexOfAbsent(text, sep);
  }

  lemma SplitTwo(first: string, second: string)
    requires Trimmed(first) && first != "" && ',' !in first
    requires Trimmed(second) && second != "" && ',' !in second
    ensures Trimmed(first + ", " + second)
    ensures Split(first + ", " + second, ',') == [first, " " + second]
  {
    var spaced := " " + second;
    var whole := first + ", " + second;
    assert whole == first + [','] + spaced;
    assert whole[|whole| - 1] == second[|second| - 1] && whole[0] == first[0];
    SplitAtFirst(first, ',', spaced);
    SplitUnseparated(spaced, ',');
  }

  lemma FoldTwo(first: string, second: string)
    requires ClauseOf(first).Ok? && ClauseOf(second).Ok?
    ensures FoldClauses([first, second], Interval(None, None)) ==
            Ok(Narrowed(ClauseOf(first).value, ClauseOf(second).value))
  {
    var i, j := ClauseOf(first).value, ClauseOf(second).value;
    assert Narrowed(Interval(None, None), i) == i;
    assert [first, second][1..] == [second] && [second][1..] == [];
    assert FoldClauses([second], i) == FoldClauses([], Narrowed(i, j));
  }

  lemma TwoClauses(first: string, second: string)
    requires Trimmed(first) && first != "" && ',' !in first
    requires Trimmed(second) && second != "" && ',' !in second
    requires ClauseOf(first).Ok? && ClauseOf(second).Ok?
    ensures Trimmed(first + ", " + second)
    ensures FoldClauses(Split(first + ", " + second, ','), Interval(None, None))
            == Ok(Narrowed(ClauseOf(first).value, ClauseOf(second).value))
  {
    SplitTwo(first, second);
    SpacedClause(second);
    FoldTwo(first, " " + second);
  }

  lemma SameVersion(v: Version, w: Version)
    requires v.Compare(w) == 0 && v.buildMetadata == w.buildMetadata == ""
    ensures v == w
  {
    CompareIsIdentity(v, w);
  }

  predicate PlainClause(clause: string, i: Interval) {
    Trimmed(clause) && clause != "" && ',' !in clause && ClauseOf(clause) == Ok(i)
  }

  lemma LowerClause(l: Bound)
    requires WellFormedBound(Some(l))
    ensures PlainClause(LowerOperator(l) + l.version.String(), Interval(Some(l), None))
  {
    OperatorVersion(LowerOperator(l), l.version);
  }

  lemma UpperClause(u: Bound)
    requires WellFormedBound(Some(u))
    ensures PlainClause(UpperOperator(u) + u.version.String(), Interval(None, Some(u)))
  {
    OperatorVersion(UpperOperator(u), u.version);
  }

  lemma DescribedPair(first: string, second: string, l: Bound, u: Bound)
    requires PlainClause(first, Interval(Some(l), None))
    requires PlainClause(second, Interval(None, Some(u)))
    ensures Trimmed(first + ", " + second)
    ensures FoldClauses(Split(first + ", " + second, ','), Interval(None, None)) == Ok(Interval(Some(l), Some(u)))
  {
    TwoClauses(first, second);
  }

  lemma Associates(a: string, b: string, c: string)
    ensures a + b + c == a + (b + c)
  {
  }

  lemma DescribedBoth(l: Bound, u: Bound)
    requires WellFormedBounds(Interval(Some(l), Some(u))) && !IsEmpty(Some(l), Some(u))
    ensures Trimmed(Describe(Some(l), Some(u))) && Describe(Some(l), Some(u)) != ""
    ensures FoldClauses(Split(Describe(Some(l), Some(u)), ','), Interval(None, None)) == Ok(Interval(Some(l), Some(u)))
  {
    if l.inclusive && u.inclusive && l.version.Compare(u.version) == 0 {
      SameVersion(l.version, u.version);
      DescribedPoint(l);
    } else {
      DescribedRange(l, u);
    }
  }

  lemma DescribedPoint(l: Bound)
    requires WellFormedBound(Some(l)) && l.inclusive
    ensures Trimmed("=" + l.version.String()) && "=" + l.version.String() != ""
    ensures FoldClauses(Split("=" + l.version.String(), ','), Interval(None, None)) == Ok(Interval(Some(l), Some(l)))
  {
    OperatorVersion("=", l.version);
    SingleClause("=" + l.version.String());
  }

  lemma DescribedRange(l: Bound, u: Bound)
    requires WellFormedBound(Some(l)) && WellFormedBound(Some(u))
    ensures var text := LowerOperator(l) + l.version.String() + ", " + UpperOperator(u) + u.version.String();
            && Trimmed(text) && text != ""
            && FoldClauses(Split(text, ','), Interval(None, None)) == Ok(Interval(Some(l), Some(u)))
  {
    LowerClause(l);
    UpperClause(u);
    var first, version := LowerOperator(l) + l.version.String(), u.version.String();
    DescribedPair(first, UpperOperator(u) + version, l, u);
    Associates(first + ", ", UpperOperator(u), version);
  }

  lemma DescribedOne(b: Bound)
    requires WellFormedBound(Some(b))
    ensures Trimmed(Describe(Some(b), None)) && Trimmed(Describe(None, Some(b)))
    ensures Describe(Some(b), None) != "" && Describe(None, Some(b)) != ""
    ensures FoldClauses(Split(Describe(Some(b), None), ','), Interval(None, None)) == Ok(Interval(Some(b), None))
    ensures FoldClauses(Split(Describe(None, Some(b)), ','), Interval(None, None)) == Ok(Interval(None, Some(b)))
  {
    LowerClause(b);
    UpperClause(b);
    SingleClause(LowerOperator(b) + b.version.String());
    SingleClause(UpperOperator(b) + b.version.String());
  }

  /** An interval that is not empty, written out and read back, is the same interval. */
  lemma DescribeReadsBack(i: Interval)
    requires WellFormedBounds(i) && !IsEmpty(i.lower, i.upper)
    ensures RequirementOf(Describe(i.lower, i.upper)) == Ok(Requirement(Describe(i.lower, i.upper), i.lower, i.upper))
  {
    if i.lower.Some? && i.upper.Some? {
      DescribedBoth(i.lower.value, i.upper.value);
    } else if i.lower.Some? {
      DescribedOne(i.lower.value);
    } else if i.upper.Some? {
      DescribedOne(i.upper.value);
    } else {
      SingleClause("*");
    }
  }

  // --- requirements that were parsed or intersected ---

  /** The requirement is what its own text reads as, and its bounds name real versions. */
  predicate Faithful(r: Requirement) {
    WellFormedBounds(r.Bounds()) && RequirementOf(r.text) == Ok(r)
  }

  lemma NarrowedWellFormed(i: Interval, j: Interval)
    requires WellFormedBounds(i) && WellFormedBounds(j)
    ensures WellFormedBounds(Narrowed(i, j))
  {
  }

  lemma {:induction false} FoldIsWellFormed(clauses: seq<string>, gathered: Interval)
    requires WellFormedBounds(gathered)
    requires FoldClauses(clauses, gathered).Ok?
    ensures WellFormedBounds(FoldClauses(clauses, gathered).value)
  {
    if clauses != [] {
      ClauseIsWellFormed(clauses[0]);
      FoldIsWellFormed(clauses[1..], Narrowed(gathered, ClauseOf(clauses[0]).value));
    }
  }

  lemma ParsedIsFaithful(text: string)
    requires RequirementOf(text).Ok?
    ensures Faithful(RequirementOf(text).value)
  {
    FoldIsWellFormed(Split(TrimSpace(text), ','), Interval(None, None));
  }

  /** What is kept as written is the text without the space around it. */
  lemma ParsedText(text: string)
    requires RequirementOf(text).Ok?
    ensures RequirementOf(text).value.text == TrimSpace(text) && RequirementOf(text).value.String() == TrimSpace(text)
  {
  }

  lemma AnyIsFaithful()
    ensures Faithful(Any())
  {
    DescribeReadsBack(Interval(None, None));
  }

  lemma IntersectIsFaithful(r: Requirement, other: Requirement)
    requires Faithful(r) && Faithful(other) && r.Intersect(other).Some?
    ensures Faithful(r.Intersect(other).value)
  {
    var q := r.Intersect(other).value;
    IntersectNarrows(r, other);
    if q != r && q != other {
      DescribeReadsBack(q.Bounds());
    }
  }

  lemma {:induction false} IntersectFromIsFaithful(result: Requirement, rest: seq<Requirement>)
    requires Faithful(result) && (forall r | r in rest :: Faithful(r))
    requires IntersectFrom(result, rest).Some?
    ensures Faithful(IntersectFrom(result, rest).value)
    decreases |rest|
  {
    if rest != [] {
      IntersectIsFaithful(result, rest[0]);
      IntersectFromIsFaithful(result.Intersect(rest[0]).value, rest[1..]);
    }
  }

  /** Every requirement reached by parsing and intersecting prints as a text that reads back
      as that very requirement, bounds included. */
  lemma ReachableReadsBack(requirements: seq<Requirement>)
    requires forall r | r in requirements :: Faithful(r)
    requires IntersectionOf(requirements).Some?
    ensures Faithful(IntersectionOf(requirements).value)
    ensures RequirementOf(IntersectionOf(requirements).value.String()) == Ok(IntersectionOf(requirements).value)
  {
    if requirements == [] {
      AnyIsFaithful();
    } else {
      IntersectFromIsFaithful(requirements[0], requirements[1..]);
    }
  }
}
