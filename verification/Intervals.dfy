/** What a requirement accepts: exact membership of intersections, the prerelease gate, and
    when an accepted requirement names any version at all. */
module Intervals {
  import opened Wrappers
  import opened Orders
  import opened Text
  import opened Versions
  import opened Requirements

  predicate Above(lower: Option<Bound>, v: Version) {
    lower.Some? ==>
      lower.value.version.Compare(v) < 0 || (lower.value.version.Compare(v) == 0 && lower.value.inclusive)
  }

  predicate Below(upper: Option<Bound>, v: Version) {
    upper.Some? ==>
      v.Compare(upper.value.version) < 0 || (v.Compare(upper.value.version) == 0 && upper.value.inclusive)
  }

  predicate Contains(i: Interval, v: Version) { Above(i.lower, v) && Below(i.upper, v) }

  /** Some bound of the interval names a prerelease of v's major.minor.patch. */
  predicate Opens(i: Interval, v: Version) { NamesPrereleaseOf(i.lower, v) || NamesPrereleaseOf(i.upper, v) }

  lemma SatisfiesMeaning(r: Requirement, v: Version)
    ensures r.Satisfies(v) <==> Contains(r.Bounds(), v) && (!v.IsPrerelease() || Opens(r.Bounds(), v))
  {
    if r.lower.Some? { CompareIsIdentity(r.lower.value.version, v); }
    if r.upper.Some? { CompareIsIdentity(v, r.upper.value.version); }
  }

  lemma AboveTighter(a: Option<Bound>, b: Option<Bound>, v: Version)
    ensures Above(TighterLower(a, b), v) <==> Above(a, v) && Above(b, v)
  {
    if a.Some? && b.Some? {
      var x, y := a.value.version, b.value.version;
      CompareIsIdentity(x, y);
      CompareIsIdentity(x, v);
      CompareIsIdentity(y, v);
      if x.Compare(y) <= 0 && y.Compare(v) <= 0 { CompareTransitive(x, y, v); }
      if y.Compare(x) <= 0 && x.Compare(v) <= 0 { CompareTransitive(y, x, v); }
    }
  }

  lemma BelowTighter(a: Option<Bound>, b: Option<Bound>, v: Version)
    ensures Below(TighterUpper(a, b), v) <==> Below(a, v) && Below(b, v)
  {
    if a.Some? && b.Some? {
      var x, y := a.value.version, b.value.version;
      CompareIsIdentity(x, y);
      CompareIsIdentity(v, x);
      CompareIsIdentity(v, y);
      if v.Compare(x) <= 0 && x.Compare(y) <= 0 { CompareTransitive(v, x, y); }
      if v.Compare(y) <= 0 && y.Compare(x) <= 0 { CompareTransitive(v, y, x); }
    }
  }

  lemma NarrowedContains(i: Interval, j: Interval, v: Version)
    ensures Contains(Narrowed(i, j), v) <==> Contains(i, v) && Contains(j, v)
  {
    AboveTighter(i.lower, j.lower, v);
    BelowTighter(i.upper, j.upper, v);
  }

  lemma EmptyContainsNothing(i: Interval, v: Version)
    requires IsEmpty(i.lower, i.upper)
    ensures !Contains(i, v)
  {
    var l, u := i.lower.value.version, i.upper.value.version;
    CompareIsIdentity(l, u);
    if Contains(i, v) {
      CompareTransitive(l, v, u);
      CompareIsIdentity(l, v);
      CompareIsIdentity(v, u);
    }
  }

  /** Bounds leave nothing between them exactly when they are not in order and do not meet in a
      version that both include. */
  lemma EmptyExactlyWhen(lower: Bound, upper: Bound)
    ensures IsEmpty(Some(lower), Some(upper)) <==>
            upper.version.Compare(lower.version) <= 0 && !Contains(Interval(Some(lower), Some(upper)), lower.version)
    ensures !IsEmpty(None, Some(upper)) && !IsEmpty(Some(lower), None) && !IsEmpty(None, None)
  {
    CompareIsIdentity(lower.version, upper.version);
    CompareIsIdentity(lower.version, lower.version);
  }

  /** An operand that already is the intersection is returned whole, the receiver first; any
      requirement is the intersection with one that constrains nothing. */
  lemma IntersectKeepsOperands(r: Requirement, other: Requirement)
    ensures Narrowed(r.Bounds(), other.Bounds()) == r.Bounds() ==> r.Intersect(other) == Some(r)
    ensures Narrowed(r.Bounds(), other.Bounds()) == other.Bounds() != r.Bounds() ==> r.Intersect(other) == Some(other)
    ensures r.Intersect(r) == Some(r) && r.Intersect(Any()) == Some(r)
    ensures r.Bounds() != Interval(None, None) ==> Any().Intersect(r) == Some(r)
  {
  }

  lemma IntersectNarrows(r: Requirement, other: Requirement)
    requires r.Intersect(other).Some?
    ensures r.Intersect(other).value.Bounds() == Narrowed(r.Bounds(), other.Bounds())
  {
  }

  // --- the gate ---

  /** Between two prereleases of one major.minor.patch lie only prereleases of it. */
  lemma PrereleasesConvex(low: Version, v: Version, high: Version)
    requires low.IsPrerelease() && high.IsPrerelease() && low.SameCore(high)
    requires low.Compare(v) <= 0 && v.Compare(high) <= 0
    ensures v.IsPrerelease() && v.SameCore(low)
  {
  }

  /** Tightening a bound never closes the gate for a version still inside the interval. */
  lemma NarrowedOpens(i: Interval, j: Interval, v: Version)
    requires Contains(i, v) && Contains(j, v) && v.IsPrerelease()
    ensures Opens(Narrowed(i, j), v) <==> Opens(i, v) || Opens(j, v)
  {
    var n := Narrowed(i, j);
    if i.lower.Some? && j.lower.Some? {
      var x, y := i.lower.value.version, j.lower.value.version;
      CompareIsIdentity(x, y);
      if NamesPrereleaseOf(i.lower, v) && x.Compare(y) <= 0 { PrereleasesConvex(x, y, v); }
      if NamesPrereleaseOf(j.lower, v) && y.Compare(x) <= 0 { PrereleasesConvex(y, x, v); }
    }
    if i.upper.Some? && j.upper.Some? {
      var x, y := i.upper.value.version, j.upper.value.version;
      CompareIsIdentity(x, y);
      if NamesPrereleaseOf(i.upper, v) && y.Compare(x) <= 0 { PrereleasesConvex(v, y, x); }
      if NamesPrereleaseOf(j.upper, v) && x.Compare(y) <= 0 { PrereleasesConvex(v, x, y); }
    }
  }

  /** An intersection that succeeds accepts exactly the versions in both intervals that are
      releases or that a bound of either operand opens the gate for. */
  lemma IntersectionAccepts(r: Requirement, other: Requirement, v: Version)
    requires r.Intersect(other).Some?
    ensures r.Intersect(other).value.Satisfies(v) <==>
              && Contains(r.Bounds(), v) && Contains(other.Bounds(), v)
              && (!v.IsPrerelease() || Opens(r.Bounds(), v) || Opens(other.Bounds(), v))
  {
    IntersectNarrows(r, other);
    SatisfiesMeaning(r.Intersect(other).value, v);
    NarrowedContains(r.Bounds(), other.Bounds(), v);
    if v.IsPrerelease() && Contains(r.Bounds(), v) && Contains(other.Bounds(), v) {
      NarrowedOpens(r.Bounds(), other.Bounds(), v);
    }
  }

  /** It keeps everything both accept, and on releases it is exact. */
  lemma IntersectionKeepsCommon(r: Requirement, other: Requirement, v: Version)
    requires r.Intersect(other).Some?
    ensures r.Satisfies(v) && other.Satisfies(v) ==> r.Intersect(other).value.Satisfies(v)
    ensures !v.IsPrerelease() ==> (r.Intersect(other).value.Satisfies(v) <==> r.Satisfies(v) && other.Satisfies(v))
  {
    IntersectionAccepts(r, other, v);
    SatisfiesMeaning(r, v);
    SatisfiesMeaning(other, v);
  }

  /** An intersection refused has nothing in common, not even inside the two intervals. */
  lemma RefusedIntersectionIsDisjoint(r: Requirement, other: Requirement, v: Version)
    requires r.Intersect(other).None?
    ensures !(Contains(r.Bounds(), v) && Contains(other.Bounds(), v))
    ensures !(r.Satisfies(v) && other.Satisfies(v))
  {
    EmptyContainsNothing(Narrowed(r.Bounds(), other.Bounds()), v);
    NarrowedContains(r.Bounds(), other.Bounds(), v);
    SatisfiesMeaning(r, v);
    SatisfiesMeaning(other, v);
  }

  // --- the least version above a bound ---

  /** The least prerelease of v's major.minor.patch above lower, when there is one. */
  function LeastPrerelease(lower: Option<Bound>, v: Version): Version {
    if !NamesPrereleaseOf(lower, v) then Version(v.major, v.minor, v.patch, "0", "")
    else if lower.value.inclusive then lower.value.version
    else lower.value.version.(prerelease := lower.value.version.prerelease + ".0")
  }

  /** The least release above lower, when there is one. */
  function LeastRelease(lower: Option<Bound>): Option<Version> {
    if lower.None? then Some(Release(0, 0, 0))
    else
      var v := lower.value.version;
      if lower.value.inclusive || v.IsPrerelease() then Some(Release(v.major, v.minor, v.patch))
      else if v.patch < MAX_COMPONENT then Some(Release(v.major, v.minor, v.patch + 1))
      else if v.minor < MAX_COMPONENT then Some(Release(v.major, v.minor + 1, 0))
      else if v.major < MAX_COMPONENT then Some(Release(v.major + 1, 0, 0))
      else None
  }

  predicate WellFormedBound(b: Option<Bound>) {
    b.Some? ==> b.value.version.WellFormed() && b.value.version.buildMetadata == ""
  }

  predicate WellFormedBounds(i: Interval) { WellFormedBound(i.lower) && WellFormedBound(i.upper) }

  lemma ReleaseIsLeast(lower: Option<Bound>, v: Version)
    requires v.WellFormed() && !v.IsPrerelease() && Above(lower, v)
    ensures LeastRelease(lower).Some?
    ensures LeastRelease(lower).value.Compare(v) <= 0
  {
  }

  lemma LeastReleaseAbove(lower: Option<Bound>)
    requires WellFormedBound(lower) && LeastRelease(lower).Some?
    ensures LeastRelease(lower).value.WellFormed() && !LeastRelease(lower).value.IsPrerelease()
    ensures Above(lower, LeastRelease(lower).value)
  {
  }

  lemma ZeroIsLeast(identifier: string)
    ensures NumericIdentifier("0") == Some(0)
    ensures CompareIdentifier("0", identifier) <= 0
  {
    assert "0"[..0] == "";
    assert NatOf("0") == 0;
  }

  lemma {:induction false} AppendedZero(a: seq<string>, b: seq<string>)
    ensures Lex(CompareIdentifier, a, a + ["0"]) < 0
    ensures Lex(CompareIdentifier, a, b) < 0 ==> Lex(CompareIdentifier, a + ["0"], b) <= 0
  {
    IdentifierOrder();
    if a == [] {
      assert a + ["0"] == ["0"];
      if b != [] { ZeroIsLeast(b[0]); }
    } else {
      assert (a + ["0"])[1..] == a[1..] + ["0"];
      AppendedZero(a[1..], if b == [] then [] else b[1..]);
    }
  }

  lemma {:induction false} JoinAppend(parts: seq<string>, last: string)
    requires parts != []
    ensures Join(parts + [last], '.') == Join(parts, '.') + "." + last
  {
    if |parts| == 1 {
      assert (parts + [last])[1..] == [last];
    } else {
      JoinAppend(parts[1..], last);
      assert (parts + [last])[1..] == parts[1..] + [last];
    }
  }

  lemma SplitAppendedZero(text: string)
    ensures Split(text + ".0", '.') == Split(text, '.') + ["0"]
  {
    var parts := Split(text, '.');
    JoinAppend(parts, "0");
    assert text + ".0" == text + "." + "0";
    SplitJoin(parts + ["0"], '.');
  }

  lemma SplitZero()
    ensures Split("0", '.') == ["0"]
    ensures ValidIdentifiers("0", true)
  {
    IndexOfAbsent("0", '.');
  }

  lemma AppendedZeroIsNext(p: string, q: string)
    requires p != "" && q != ""
    ensures ComparePrerelease(p, p + ".0") < 0
    ensures ComparePrerelease(p, q) < 0 ==> ComparePrerelease(p + ".0", q) <= 0
    ensures ValidIdentifiers(p, true) ==> ValidIdentifiers(p + ".0", true)
  {
    SplitAppendedZero(p);
    SplitZero();
    AppendedZero(Split(p, '.'), Split(q, '.'));
    assert "0" in Split("0", '.');
  }

  lemma ZeroIsLeastPrerelease(q: string)
    requires q != ""
    ensures ComparePrerelease("0", q) <= 0
  {
    SplitZero();
    var parts := Split(q, '.');
    ZeroIsLeast(parts[0]);
    assert ["0"][1..] == [];
    assert Lex(CompareIdentifier, [], parts[1..]) <= 0;
  }

  lemma PrereleaseIsLeast(lower: Option<Bound>, v: Version)
    requires v.IsPrerelease() && Above(lower, v)
    ensures LeastPrerelease(lower, v).Compare(v) <= 0
  {
    ZeroIsLeastPrerelease(v.prerelease);
    PrereleaseOrder();
    if NamesPrereleaseOf(lower, v) {
      AppendedZeroIsNext(lower.value.version.prerelease, v.prerelease);
    }
  }

  lemma LeastPrereleaseAbove(lower: Option<Bound>, v: Version)
    requires WellFormedBound(lower) && v.WellFormed()
    ensures LeastPrerelease(lower, v).WellFormed()
    ensures LeastPrerelease(lower, v).IsPrerelease() && LeastPrerelease(lower, v).SameCore(v)
    ensures v.IsPrerelease() && Above(lower, v) ==> Above(lower, LeastPrerelease(lower, v))
  {
    SplitZero();
    PrereleaseOrder();
    if NamesPrereleaseOf(lower, v) {
      AppendedZeroIsNext(lower.value.version.prerelease, "0");
    }
  }

  lemma BelowDownward(upper: Option<Bound>, v: Version, w: Version)
    requires v.Compare(w) <= 0 && Below(upper, w)
    ensures Below(upper, v)
  {
    if upper.Some? { CompareTransitive(v, w, upper.value.version); CompareIsIdentity(v, w); }
  }

  /** An interval holds a prerelease of v's core exactly when it holds the least one. */
  lemma HoldsPrerelease(i: Interval, v: Version)
    requires WellFormedBounds(i) && v.WellFormed() && v.IsPrerelease() && Contains(i, v)
    ensures LeastPrerelease(i.lower, v).WellFormed()
    ensures LeastPrerelease(i.lower, v).IsPrerelease() && LeastPrerelease(i.lower, v).SameCore(v)
    ensures Contains(i, LeastPrerelease(i.lower, v))
  {
    LeastPrereleaseAbove(i.lower, v);
    PrereleaseIsLeast(i.lower, v);
    BelowDownward(i.upper, LeastPrerelease(i.lower, v), v);
  }

  // --- when a requirement names a version ---

  /** The at most three versions that decide whether an interval accepts anything. */
  function Candidates(i: Interval): seq<Version> {
    (if LeastRelease(i.lower).Some? then [LeastRelease(i.lower).value] else [])
    + (if i.lower.Some? && i.lower.value.version.IsPrerelease()
       then [LeastPrerelease(i.lower, i.lower.value.version)] else [])
    + (if i.upper.Some? && i.upper.value.version.IsPrerelease()
       then [LeastPrerelease(i.lower, i.upper.value.version)] else [])
  }

  lemma SomeCandidate(r: Requirement, v: Version) returns (c: Version)
    requires WellFormedBounds(r.Bounds()) && v.WellFormed() && r.Satisfies(v)
    ensures c in Candidates(r.Bounds()) && r.Satisfies(c)
  {
    SatisfiesMeaning(r, v);
    if v.IsPrerelease() {
      c := CandidateOfCore(r.Bounds(), v);
      OpensForCore(r.Bounds(), v, c);
    } else {
      c := CandidateRelease(r.Bounds(), v);
    }
    SatisfiesMeaning(r, c);
  }

  lemma CandidateIsWellFormed(i: Interval, c: Version)
    requires WellFormedBounds(i) && c in Candidates(i)
    ensures c.WellFormed()
  {
    if LeastRelease(i.lower).Some? { LeastReleaseAbove(i.lower); }
    if i.lower.Some? { LeastPrereleaseAbove(i.lower, i.lower.value.version); }
    if i.upper.Some? { LeastPrereleaseAbove(i.lower, i.upper.value.version); }
  }

  /** A requirement accepts some version exactly when it accepts one of its candidates. */
  lemma NamesSomeVersion(r: Requirement)
    requires WellFormedBounds(r.Bounds())
    ensures (exists v: Version :: v.WellFormed() && r.Satisfies(v)) <==>
            (exists c :: c in Candidates(r.Bounds()) && r.Satisfies(c))
  {
    if v: Version :| v.WellFormed() && r.Satisfies(v) {
      var c := SomeCandidate(r, v);
    }
    forall c | c in Candidates(r.Bounds()) ensures c.WellFormed() {
      CandidateIsWellFormed(r.Bounds(), c);
    }
  }

  /** An inclusive lower bound that is not past the upper one is itself accepted, prerelease
      or not. */
  lemma InclusiveFloorIsAccepted(r: Requirement)
    requires !IsEmpty(r.lower, r.upper) && r.lower.Some? && r.lower.value.inclusive
    ensures r.Satisfies(r.lower.value.version)
  {
    CompareIsIdentity(r.lower.value.version, r.lower.value.version);
    if r.upper.Some? { CompareIsIdentity(r.lower.value.version, r.upper.value.version); }
  }

  // --- when an intersection is exactly the versions both accept ---

  /** The prereleases b names, if any lie in the interval, are let in by both operands. */
  predicate GateShared(i: Interval, j: Interval, b: Option<Bound>) {
    b.Some? && b.value.version.IsPrerelease() ==>
      || (Opens(i, b.value.version) && Opens(j, b.value.version))
      || !Contains(Narrowed(i, j), LeastPrerelease(TighterLower(i.lower, j.lower), b.value.version))
  }

  predicate AcceptsExactlyCommon(r: Requirement, other: Requirement, v: Version)
    requires r.Intersect(other).Some?
  {
    r.Intersect(other).value.Satisfies(v) <==> r.Satisfies(v) && other.Satisfies(v)
  }

  lemma SharedGateIsExact(r: Requirement, other: Requirement, v: Version)
    requires WellFormedBounds(r.Bounds()) && WellFormedBounds(other.Bounds()) && v.WellFormed()
    requires r.Intersect(other).Some?
    requires GateShared(r.Bounds(), other.Bounds(), TighterLower(r.lower, other.lower))
    requires GateShared(r.Bounds(), other.Bounds(), TighterUpper(r.upper, other.upper))
    ensures AcceptsExactlyCommon(r, other, v)
  {
    var q := r.Intersect(other).value;
    IntersectionKeepsCommon(r, other, v);
    SatisfiesMeaning(q, v);
    SatisfiesMeaning(r, v);
    SatisfiesMeaning(other, v);
    NarrowedContains(r.Bounds(), other.Bounds(), v);
    IntersectNarrows(r, other);
    if v.IsPrerelease() && q.Satisfies(v) {
      HoldsPrerelease(q.Bounds(), v);
      var b := if NamesPrereleaseOf(q.lower, v) then q.lower else q.upper;
      assert LeastPrerelease(q.lower, v) == LeastPrerelease(q.lower, b.value.version);
    }
  }

  lemma ClosedGateIsInexact(r: Requirement, other: Requirement, b: Option<Bound>) returns (v: Version)
    requires WellFormedBounds(r.Bounds()) && WellFormedBounds(other.Bounds())
    requires r.Intersect(other).Some?
    requires b == TighterLower(r.lower, other.lower) || b == TighterUpper(r.upper, other.upper)
    requires !GateShared(r.Bounds(), other.Bounds(), b)
    ensures v.WellFormed() && !AcceptsExactlyCommon(r, other, v)
  {
    var q := r.Intersect(other).value;
    v := LeastPrerelease(q.lower, b.value.version);
    LeastPrereleaseAbove(q.lower, b.value.version);
    IntersectNarrows(r, other);
    SatisfiesMeaning(q, v);
    SatisfiesMeaning(r, v);
    SatisfiesMeaning(other, v);
  }

  /** "Exactly the versions both accept" holds precisely when each prerelease bound of the
      intersection is let in by both operands, or names a core with no prerelease inside. */
  lemma IntersectionExactWhenGatesShared(r: Requirement, other: Requirement)
    requires WellFormedBounds(r.Bounds()) && WellFormedBounds(other.Bounds())
    requires r.Intersect(other).Some?
    ensures (forall v: Version | v.WellFormed() :: AcceptsExactlyCommon(r, other, v)) <==>
            && GateShared(r.Bounds(), other.Bounds(), TighterLower(r.lower, other.lower))
            && GateShared(r.Bounds(), other.Bounds(), TighterUpper(r.upper, other.upper))
  {
    var lower, upper := TighterLower(r.lower, other.lower), TighterUpper(r.upper, other.upper);
    if !GateShared(r.Bounds(), other.Bounds(), lower) {
      var v := ClosedGateIsInexact(r, other, lower);
    } else if !GateShared(r.Bounds(), other.Bounds(), upper) {
      var v := ClosedGateIsInexact(r, other, upper);
    } else {
      forall v: Version | v.WellFormed() ensures AcceptsExactlyCommon(r, other, v) {
        SharedGateIsExact(r, other, v);
      }
    }
  }

  // --- when an intersection has anything in common ---

  predicate AcceptedByBoth(r: Requirement, other: Requirement, v: Version) {
    r.Satisfies(v) && other.Satisfies(v)
  }

  lemma OpensForCore(i: Interval, v: Version, w: Version)
    requires v.SameCore(w)
    ensures Opens(i, v) <==> Opens(i, w)
  {
  }

  lemma SomeCommonCandidate(r: Requirement, other: Requirement, v: Version) returns (c: Version)
    requires WellFormedBounds(r.Bounds()) && WellFormedBounds(other.Bounds()) && v.WellFormed()
    requires AcceptedByBoth(r, other, v)
    ensures c in Candidates(Narrowed(r.Bounds(), other.Bounds())) && AcceptedByBoth(r, other, c)
  {
    var n := Narrowed(r.Bounds(), other.Bounds());
    SatisfiesMeaning(r, v);
    SatisfiesMeaning(other, v);
    NarrowedContains(r.Bounds(), other.Bounds(), v);
    if v.IsPrerelease() {
      NarrowedOpens(r.Bounds(), other.Bounds(), v);
      c := CandidateOfCore(n, v);
      OpensForCore(r.Bounds(), v, c);
      OpensForCore(other.Bounds(), v, c);
    } else {
      c := CandidateRelease(n, v);
    }
    NarrowedContains(r.Bounds(), other.Bounds(), c);
    SatisfiesMeaning(r, c);
    SatisfiesMeaning(other, c);
  }

  lemma CandidateRelease(i: Interval, v: Version) returns (c: Version)
    requires WellFormedBounds(i) && v.WellFormed() && !v.IsPrerelease() && Contains(i, v)
    ensures c in Candidates(i) && !c.IsPrerelease() && Contains(i, c)
  {
    ReleaseIsLeast(i.lower, v);
    c := LeastRelease(i.lower).value;
    LeastReleaseAbove(i.lower);
    BelowDownward(i.upper, c, v);
  }

  lemma CandidateOfCore(i: Interval, v: Version) returns (c: Version)
    requires WellFormedBounds(i) && v.WellFormed() && v.IsPrerelease() && Contains(i, v) && Opens(i, v)
    ensures c in Candidates(i) && c.IsPrerelease() && c.SameCore(v) && Contains(i, c)
  {
    HoldsPrerelease(i, v);
    c := LeastPrerelease(i.lower, v);
    if NamesPrereleaseOf(i.lower, v) {
      assert c == LeastPrerelease(i.lower, i.lower.value.version);
    } else {
      assert c == LeastPrerelease(i.lower, i.upper.value.version);
    }
  }

  lemma NarrowedWellFormedBounds(i: Interval, j: Interval)
    requires WellFormedBounds(i) && WellFormedBounds(j)
    ensures WellFormedBounds(Narrowed(i, j))
  {
  }

  /** Two requirements accept some version in common exactly when they both accept one of the
      at most three candidates of the narrowed interval. */
  lemma CommonVersionExactlyWhen(r: Requirement, other: Requirement)
    requires WellFormedBounds(r.Bounds()) && WellFormedBounds(other.Bounds())
    ensures (exists v: Version :: v.WellFormed() && AcceptedByBoth(r, other, v)) <==>
            (exists c :: c in Candidates(Narrowed(r.Bounds(), other.Bounds())) && AcceptedByBoth(r, other, c))
    ensures r.Intersect(other).None? ==> !exists v: Version :: v.WellFormed() && AcceptedByBoth(r, other, v)
  {
    var n := Narrowed(r.Bounds(), other.Bounds());
    if v: Version :| v.WellFormed() && AcceptedByBoth(r, other, v) {
      var c := SomeCommonCandidate(r, other, v);
      if r.Intersect(other).None? { RefusedIntersectionIsDisjoint(r, other, v); }
    }
    NarrowedWellFormedBounds(r.Bounds(), other.Bounds());
    forall c | c in Candidates(n) ensures c.WellFormed() {
      CandidateIsWellFormed(n, c);
    }
  }
}
