/** internal/semver/requirement.go: a requirement is one interval, written as comma-separated
    clauses, with a gate that keeps prereleases out unless a bound names one. */
module Requirements {
  import opened Wrappers
  import opened Text
  import opened Versions

  datatype Bound = Bound(version: Version, inclusive: bool)

  datatype Interval = Interval(lower: Option<Bound>, upper: Option<Bound>)

  datatype ClauseError = Malformed | NoCeiling

  datatype RequirementError = BadClause(error: ClauseError) | Unsatisfiable

  datatype Requirement = Requirement(text: string, lower: Option<Bound>, upper: Option<Bound>) {

    /** In the interval, and a release or a prerelease some bound opens the gate for. */
    predicate Satisfies(version: Version) {
      && (lower.Some? ==>
        var ordering := version.Compare(lower.value.version);
        !(ordering < 0 || (ordering == 0 && !lower.value.inclusive)))
      && (upper.Some? ==>
        var ordering := version.Compare(upper.value.version);
        !(ordering > 0 || (ordering == 0 && !upper.value.inclusive)))
      && (!version.IsPrerelease() || NamesPrereleaseOf(lower, version) || NamesPrereleaseOf(upper, version))
    }

    /** Keeps an operand whole when the other adds nothing, so its written text survives. */
    function Intersect(other: Requirement): Option<Requirement> {
      var l := TighterLower(lower, other.lower);
      var u := TighterUpper(upper, other.upper);
      if l == lower && u == upper then Some(this)
      else if l == other.lower && u == other.upper then Some(other)
      else if IsEmpty(l, u) then None
      else Some(Requirement(Describe(l, u), l, u))
    }

    function String(): string {
      if text == "" then ComparatorString() else text
    }

    function ComparatorString(): string {
      Describe(lower, upper)
    }

    function Bounds(): Interval { Interval(lower, upper) }
  }

  function Any(): Requirement { Requirement("*", None, None) }

  // --- combining bounds ---

  function TighterLower(left: Option<Bound>, right: Option<Bound>): Option<Bound> {
    if left.None? then right
    else if right.None? then left
    else
      var ordering := left.value.version.Compare(right.value.version);
      if ordering != 0 then (if ordering > 0 then left else right)
      else if left.value.inclusive then right
      else left
  }

  function TighterUpper(left: Option<Bound>, right: Option<Bound>): Option<Bound> {
    if left.None? then right
    else if right.None? then left
    else
      var ordering := left.value.version.Compare(right.value.version);
      if ordering != 0 then (if ordering < 0 then left else right)
      else if left.value.inclusive then right
      else left
  }

  predicate IsEmpty(lower: Option<Bound>, upper: Option<Bound>) {
    && lower.Some? && upper.Some?
    && var ordering := lower.value.version.Compare(upper.value.version);
       ordering > 0 || (ordering == 0 && !(lower.value.inclusive && upper.value.inclusive))
  }

  predicate NamesPrereleaseOf(bound: Option<Bound>, version: Version) {
    && bound.Some?
    && bound.value.version.IsPrerelease()
    && bound.value.version.SameCore(version)
  }

  // --- writing an interval ---

  function Describe(lower: Option<Bound>, upper: Option<Bound>): string {
    if lower.None? then
      if upper.None? then "*" else UpperOperator(upper.value) + upper.value.version.String()
    else
      var floor := LowerOperator(lower.value) + lower.value.version.String();
      if upper.None? then floor
      else if lower.value.inclusive && upper.value.inclusive
              && lower.value.version.Compare(upper.value.version) == 0 then
        "=" + lower.value.version.String()
      else
        floor + ", " + UpperOperator(upper.value) + upper.value.version.String()
  }

  function LowerOperator(bound: Bound): string { if bound.inclusive then ">=" else ">" }

  function UpperOperator(bound: Bound): string { if bound.inclusive then "<=" else "<" }

  // --- partial versions and their ceilings ---

  /** The version a clause names once padded, with the number of components it spelled out. */
  datatype Partial = Partial(completed: Version, written: nat) {

    function CaretCeiling(): Option<Version> {
      if completed.major != 0 then Raise(completed.major, (next: nat) => Release(next, 0, 0))
      else if written == 1 then Some(Release(1, 0, 0))
      else if completed.minor != 0 then Raise(completed.minor, (next: nat) => Release(0, next, 0))
      else if written == 2 then Some(Release(0, 1, 0))
      else Raise(completed.patch, (next: nat) => Release(0, 0, next))
    }

    function WrittenCeiling(): Option<Version> {
      if written == 1 then Raise(completed.major, (next: nat) => Release(next, 0, 0))
      else Raise(completed.minor, (next: nat) => Release(completed.major, next, 0))
    }
  }

  function Release(major: nat, minor: nat, patch: nat): Version {
    Version(major, minor, patch, "", "")
  }

  function Raise(component: nat, build: nat -> Version): Option<Version> {
    if component == MAX_COMPONENT then None else Some(build(component + 1))
  }

  /** The components written, padded to three with zeroes. */
  function Padded(components: seq<string>): seq<string>
    requires |components| <= 3
  {
    components + ["0", "0", "0"][|components|..]
  }

  function PartialOf(text: string): Option<Partial> {
    var (numeric, prerelease) := Cut(text, '-');
    var components := Split(numeric, '.');
    if text == "" || '+' in text || |components| > 3 then None
    else
      match VersionOf(Glue(Join(Padded(components), '.'), '-', prerelease))
      case None => None
      case Some(version) => Some(Partial(version, |components|))
  }

  method ParsePartial(text: string) returns (r: Option<Partial>)
    ensures r == PartialOf(text)
  {
    if text == "" || '+' in text {
      return None;
    }
    var (numeric, prerelease) := Cut(text, '-');
    var components := Split(numeric, '.');
    if |components| > 3 {
      return None;
    }
    var padded := ["0", "0", "0"];
    for index := 0 to |components|
      invariant |padded| == 3
      invariant padded[..index] == components[..index]
      invariant forall k | index <= k < 3 :: padded[k] == "0"
    {
      padded := padded[index := components[index]];
    }
    assert padded == Padded(components);
    var completed := Join(padded, '.');
    if prerelease.Some? {
      completed := completed + "-" + prerelease.value;
    }
    var version := ParseVersion(completed);
    if version.None? {
      return None;
    }
    return Some(Partial(version.value, |components|));
  }

  // --- clauses ---

  const COMPARATORS: seq<string> := [">=", "<=", ">", "<", "^", "~", "="]

  /** The first candidate that text begins with, or nothing. */
  function LeadingCandidate(candidates: seq<string>, text: string): string {
    if candidates == [] then ""
    else if candidates[0] <= text then candidates[0]
    else LeadingCandidate(candidates[1..], text)
  }

  function Bounded(version: Version, ceiling: Option<Version>): Result<Interval, ClauseError> {
    if ceiling.None? then Err(NoCeiling)
    else Ok(Interval(Some(Bound(version, true)), Some(Bound(ceiling.value, false))))
  }

  /** What a comparator makes of the partial version after it; none at all means caret. */
  function Compared(comparator: string, written: Partial): Result<Interval, ClauseError> {
    var version := written.completed;
    if comparator == ">=" then Ok(Interval(Some(Bound(version, true)), None))
    else if comparator == ">" then Ok(Interval(Some(Bound(version, false)), None))
    else if comparator == "<=" then Ok(Interval(None, Some(Bound(version, true))))
    else if comparator == "<" then Ok(Interval(None, Some(Bound(version, false))))
    else if comparator == "~" then Bounded(version, written.WrittenCeiling())
    else if comparator == "=" then
      if written.written == 3 then Ok(Interval(Some(Bound(version, true)), Some(Bound(version, true))))
      else Bounded(version, written.WrittenCeiling())
    else Bounded(version, written.CaretCeiling())
  }

  function ClauseOf(clause: string): (r: Result<Interval, ClauseError>) {
    var trimmed := TrimSpace(clause);
    if trimmed == "" then Err(Malformed)
    else if trimmed == "*" then Ok(Interval(None, None))
    else
      var comparator := LeadingCandidate(COMPARATORS, trimmed);
      Remainder(comparator, trimmed)
  }

  function Remainder(comparator: string, trimmed: string): Result<Interval, ClauseError> {
    if |comparator| > |trimmed| then Err(Malformed)
    else
      var rest := TrimSpace(trimmed[|comparator|..]);
      if rest != "" && !IsDigit(rest[0]) then Err(Malformed)
      else
        match PartialOf(rest)
        case None => Err(Malformed)
        case Some(written) => Compared(comparator, written)
  }

  lemma {:induction false} LeadingCandidateSkips(candidates: seq<string>, k: nat, text: string)
    requires k <= |candidates|
    requires forall j | 0 <= j < k :: !(candidates[j] <= text)
    ensures LeadingCandidate(candidates, text) == LeadingCandidate(candidates[k..], text)
  {
    if k > 0 {
      LeadingCandidateSkips(candidates[1..], k - 1, text);
      assert candidates[1..][k - 1..] == candidates[k..];
    } else {
      assert candidates[0..] == candidates;
    }
  }

  method LeadingComparator(trimmed: string) returns (comparator: string)
    ensures comparator == LeadingCandidate(COMPARATORS, trimmed)
    ensures comparator <= trimmed
  {
    comparator := "";
    for k := 0 to |COMPARATORS|
      invariant comparator == ""
      invariant forall j | 0 <= j < k :: !(COMPARATORS[j] <= trimmed)
    {
      if COMPARATORS[k] <= trimmed {
        LeadingCandidateSkips(COMPARATORS, k, trimmed);
        comparator := COMPARATORS[k];
        return;
      }
    }
    LeadingCandidateSkips(COMPARATORS, |COMPARATORS|, trimmed);
  }

  method ParseClause(clause: string) returns (r: Result<Interval, ClauseError>)
    ensures r == ClauseOf(clause)
  {
    var trimmed := TrimSpace(clause);
    if trimmed == "" {
      return Err(Malformed);
    }
    if trimmed == "*" {
      return Ok(Interval(None, None));
    }
    var comparator := LeadingComparator(trimmed);
    var rest := TrimSpace(trimmed[|comparator|..]);
    if rest != "" && !IsDigit(rest[0]) {
      return Err(Malformed);
    }
    var written := ParsePartial(rest);
    if written.None? {
      return Err(Malformed);
    }
    return Compared(comparator, written.value);
  }

  // --- requirements ---

  /** Folds clauses from the left into the interval gathered so far; the first clause that
      does not parse decides the error. */
  function FoldClauses(clauses: seq<string>, gathered: Interval): Result<Interval, ClauseError> {
    if clauses == [] then Ok(gathered)
    else
      match ClauseOf(clauses[0])
      case Err(e) => Err(e)
      case Ok(i) => FoldClauses(clauses[1..], Narrowed(gathered, i))
  }

  function Narrowed(i: Interval, j: Interval): Interval {
    Interval(TighterLower(i.lower, j.lower), TighterUpper(i.upper, j.upper))
  }

  function RequirementOf(text: string): Result<Requirement, RequirementError> {
    var trimmed := TrimSpace(text);
    if trimmed == "" then Err(BadClause(Malformed))
    else
      match FoldClauses(Split(trimmed, ','), Interval(None, None))
      case Err(e) => Err(BadClause(e))
      case Ok(i) =>
        if IsEmpty(i.lower, i.upper) then Err(Unsatisfiable)
        else Ok(Requirement(trimmed, i.lower, i.upper))
  }

  method ParseRequirement(text: string) returns (r: Result<Requirement, RequirementError>)
    ensures r == RequirementOf(text)
  {
    var trimmed := TrimSpace(text);
    if trimmed == "" {
      return Err(BadClause(Malformed));
    }
    var lower: Option<Bound>, upper: Option<Bound> := None, None;
    var clauses := Split(trimmed, ',');
    for k := 0 to |clauses|
      invariant FoldClauses(clauses, Interval(None, None)) == FoldClauses(clauses[k..], Interval(lower, upper))
    {
      assert clauses[k..][0] == clauses[k] && clauses[k..][1..] == clauses[k + 1..];
      var clause := ParseClause(clauses[k]);
      if clause.Err? {
        return Err(BadClause(clause.error));
      }
      lower, upper := TighterLower(lower, clause.value.lower), TighterUpper(upper, clause.value.upper);
    }
    if IsEmpty(lower, upper) {
      return Err(Unsatisfiable);
    }
    return Ok(Requirement(trimmed, lower, upper));
  }

  /** Intersects from the left, giving up at the first pair with nothing in common. */
  function IntersectFrom(result: Requirement, rest: seq<Requirement>): Option<Requirement>
    decreases |rest|
  {
    if rest == [] then Some(result)
    else
      match result.Intersect(rest[0])
      case None => None
      case Some(narrowed) => IntersectFrom(narrowed, rest[1..])
  }

  function IntersectionOf(requirements: seq<Requirement>): Option<Requirement> {
    if requirements == [] then Some(Any())
    else IntersectFrom(requirements[0], requirements[1..])
  }

  method IntersectAll(requirements: seq<Requirement>) returns (r: Option<Requirement>)
    ensures r == IntersectionOf(requirements)
  {
    if |requirements| == 0 {
      return Some(Any());
    }
    var result := requirements[0];
    for k := 1 to |requirements|
      invariant IntersectionOf(requirements) == IntersectFrom(result, requirements[k..])
    {
      assert requirements[k..][0] == requirements[k] && requirements[k..][1..] == requirements[k + 1..];
      var narrowed := result.Intersect(requirements[k]);
      if narrowed.None? {
        return None;
      }
      result := narrowed.value;
    }
    return Some(result);
  }
}
