/** A comma list is the intersection of its clauses, and an intersection of many
    requirements does not depend on their order. */
module CommaLists {
  import opened Wrappers
  import opened Text
  import opened Versions
  import opened Requirements
  import opened Intervals
  import opened RequirementText

  /** Once an interval is empty, tightening leaves it empty. */
  lemma EmptyStaysEmpty(i: Interval, j: Interval)
    requires IsEmpty(i.lower, i.upper)
    ensures IsEmpty(Narrowed(i, j).lower, Narrowed(i, j).upper)
  {
    var n := Narrowed(i, j);
    var l, u, l', u' := i.lower.value.version, i.upper.value.version, n.lower.value.version, n.upper.value.version;
    if j.lower.Some? { CompareIsIdentity(l, j.lower.value.version); }
    if j.upper.Some? { CompareIsIdentity(u, j.upper.value.version); }
    CompareIsIdentity(l, l);
    CompareIsIdentity(u, u);
    assert l.Compare(l') <= 0 && u'.Compare(u) <= 0;
    CompareIsIdentity(l, u);
    CompareIsIdentity(l', u');
    CompareIsIdentity(l, l');
    CompareIsIdentity(u, u');
    CompareTransitive(u', u, l);
    CompareTransitive(u', l, l');
  }

  lemma {:induction false} FoldStaysEmpty(clauses: seq<string>, gathered: Interval)
    requires IsEmpty(gathered.lower, gathered.upper)
    requires FoldClauses(clauses, gathered).Ok?
    ensures IsEmpty(FoldClauses(clauses, gathered).value.lower, FoldClauses(clauses, gathered).value.upper)
  {
    if clauses != [] {
      EmptyStaysEmpty(gathered, ClauseOf(clauses[0]).value);
      FoldStaysEmpty(clauses[1..], Narrowed(gathered, ClauseOf(clauses[0]).value));
    }
  }

  predicate NonEmpty(i: Interval) { !IsEmpty(i.lower, i.upper) }

  /** Intersecting two non-empty requirements succeeds exactly when their interval in common
      is not empty, whichever branch answers. */
  lemma IntersectSucceeds(r: Requirement, other: Requirement)
    requires NonEmpty(r.Bounds()) && NonEmpty(other.Bounds())
    ensures r.Intersect(other).Some? <==> NonEmpty(Narrowed(r.Bounds(), other.Bounds()))
    ensures r.Intersect(other).Some? ==> r.Intersect(other).value.Bounds() == Narrowed(r.Bounds(), other.Bounds())
  {
  }

  lemma {:induction false} FoldIsIntersection(clauses: seq<string>, rest: seq<Requirement>, result: Requirement)
    requires |clauses| == |rest|
    requires forall k | 0 <= k < |clauses| :: ClauseOf(clauses[k]) == Ok(rest[k].Bounds())
    requires NonEmpty(result.Bounds())
    ensures FoldClauses(clauses, result.Bounds()).Ok?
    ensures IntersectFrom(result, rest).Some? <==> NonEmpty(FoldClauses(clauses, result.Bounds()).value)
    ensures IntersectFrom(result, rest).Some? ==>
              IntersectFrom(result, rest).value.Bounds() == FoldClauses(clauses, result.Bounds()).value
    decreases |clauses|
  {
    if clauses != [] {
      ClauseIsWellFormed(clauses[0]);
      IntersectSucceeds(result, rest[0]);
      var n := Narrowed(result.Bounds(), rest[0].Bounds());
      if result.Intersect(rest[0]).Some? {
        FoldIsIntersection(clauses[1..], rest[1..], result.Intersect(rest[0]).value);
      } else {
        FoldParses(clauses[1..], n);
        FoldStaysEmpty(clauses[1..], n);
      }
    }
  }

  lemma {:induction false} FoldParses(clauses: seq<string>, gathered: Interval)
    requires forall k | 0 <= k < |clauses| :: ClauseOf(clauses[k]).Ok?
    ensures FoldClauses(clauses, gathered).Ok?
  {
    if clauses != [] {
      FoldParses(clauses[1..], Narrowed(gathered, ClauseOf(clauses[0]).value));
    }
  }

  /** A comma list whose clauses each parse is accepted exactly when IntersectAll of its
      single-clause requirements succeeds, with the same bounds, and is refused as
      unsatisfiable otherwise. */
  lemma CommaListIsIntersection(text: string, singles: seq<Requirement>)
    requires TrimSpace(text) != ""
    requires |singles| == |Split(TrimSpace(text), ',')|
    requires forall k | 0 <= k < |singles| :: RequirementOf(Split(TrimSpace(text), ',')[k]) == Ok(singles[k])
    ensures RequirementOf(text).Ok? <==> IntersectionOf(singles).Some?
    ensures RequirementOf(text).Ok? ==> RequirementOf(text).value.Bounds() == IntersectionOf(singles).value.Bounds()
    ensures RequirementOf(text).Err? ==> RequirementOf(text) == Err(Unsatisfiable)
  {
    var clauses := Split(TrimSpace(text), ',');
    forall k | 0 <= k < |clauses| ensures ClauseOf(clauses[k]) == Ok(singles[k].Bounds()) {
      ClauseAlone(clauses[k]);
    }
    ClauseIsWellFormed(clauses[0]);
    var first := ClauseOf(clauses[0]).value;
    assert Narrowed(Interval(None, None), first) == first;
    FoldIsIntersection(clauses[1..], singles[1..], singles[0]);
  }

  /** The first clause that does not parse decides why the list does not. */
  lemma FirstBadClauseDecides(text: string, k: nat)
    requires TrimSpace(text) != "" && k < |Split(TrimSpace(text), ',')|
    requires forall j | 0 <= j < k :: ClauseOf(Split(TrimSpace(text), ',')[j]).Ok?
    requires ClauseOf(Split(TrimSpace(text), ',')[k]).Err?
    ensures RequirementOf(text) == Err(BadClause(ClauseOf(Split(TrimSpace(text), ',')[k]).error))
  {
    FoldStopsAt(Split(TrimSpace(text), ','), k, Interval(None, None));
  }

  lemma {:induction false} FoldStopsAt(clauses: seq<string>, k: nat, gathered: Interval)
    requires k < |clauses| && (forall j | 0 <= j < k :: ClauseOf(clauses[j]).Ok?) && ClauseOf(clauses[k]).Err?
    ensures FoldClauses(clauses, gathered) == Err(ClauseOf(clauses[k]).error)
    decreases k
  {
    if k > 0 {
      assert clauses[1..][k - 1] == clauses[k];
      FoldNext(clauses, gathered);
      FoldStopsAt(clauses[1..], k - 1, Narrowed(gathered, ClauseOf(clauses[0]).value));
    }
  }

  lemma FoldNext(clauses: seq<string>, gathered: Interval)
    requires clauses != [] && ClauseOf(clauses[0]).Ok?
    ensures FoldClauses(clauses, gathered) == FoldClauses(clauses[1..], Narrowed(gathered, ClauseOf(clauses[0]).value))
  {
  }

  // --- order ---

  function Members(rs: seq<Requirement>): set<Requirement> { set r | r in rs }

  /** Every bound of the list is at most b, and b is one of them when there is one. */
  predicate TightestLower(rs: set<Requirement>, b: Option<Bound>) {
    && (forall r | r in rs :: TighterLower(b, r.lower) == b)
    && (b.Some? ==> exists r | r in rs :: r.lower == b)
  }

  predicate TightestUpper(rs: set<Requirement>, b: Option<Bound>) {
    && (forall r | r in rs :: TighterUpper(b, r.upper) == b)
    && (b.Some? ==> exists r | r in rs :: r.upper == b)
  }

  lemma BoundIsDecided(a: Bound, b: Bound)
    requires a.version.buildMetadata == b.version.buildMetadata == ""
    requires a.version.Compare(b.version) == 0 && a.inclusive == b.inclusive
    ensures a == b
  {
    SameVersion(a.version, b.version);
  }

  lemma TightestLowerUnique(rs: set<Requirement>, a: Option<Bound>, b: Option<Bound>)
    requires forall r | r in rs :: WellFormedBounds(r.Bounds())
    requires TightestLower(rs, a) && TightestLower(rs, b)
    ensures a == b
  {
    if a.Some? { var r :| r in rs && r.lower == a; }
    if b.Some? { var r :| r in rs && r.lower == b; }
    if a.Some? && b.Some? { CompareIsIdentity(a.value.version, b.value.version); }
  }

  lemma TightestUpperUnique(rs: set<Requirement>, a: Option<Bound>, b: Option<Bound>)
    requires forall r | r in rs :: WellFormedBounds(r.Bounds())
    requires TightestUpper(rs, a) && TightestUpper(rs, b)
    ensures a == b
  {
    if a.Some? { var r :| r in rs && r.upper == a; }
    if b.Some? { var r :| r in rs && r.upper == b; }
    if a.Some? && b.Some? { CompareIsIdentity(a.value.version, b.value.version); }
  }

  /** All the bounds of a list folded together, without the early exit. */
  function AllBounds(gathered: Interval, rest: seq<Requirement>): Interval
    decreases |rest|
  {
    if rest == [] then gathered else AllBounds(Narrowed(gathered, rest[0].Bounds()), rest[1..])
  }

  lemma {:induction false} AllBoundsStayEmpty(gathered: Interval, rest: seq<Requirement>)
    requires !NonEmpty(gathered)
    ensures !NonEmpty(AllBounds(gathered, rest))
    decreases |rest|
  {
    if rest != [] {
      EmptyStaysEmpty(gathered, rest[0].Bounds());
      AllBoundsStayEmpty(Narrowed(gathered, rest[0].Bounds()), rest[1..]);
    }
  }

  /** The early exit changes nothing: success and bounds are those of the whole fold. */
  lemma {:induction false} EarlyExitIsHarmless(result: Requirement, rest: seq<Requirement>)
    requires NonEmpty(result.Bounds()) && forall r | r in rest :: NonEmpty(r.Bounds())
    ensures IntersectFrom(result, rest).Some? <==> NonEmpty(AllBounds(result.Bounds(), rest))
    ensures IntersectFrom(result, rest).Some? ==>
              IntersectFrom(result, rest).value.Bounds() == AllBounds(result.Bounds(), rest)
    decreases |rest|
  {
    if rest != [] {
      IntersectSucceeds(result, rest[0]);
      if result.Intersect(rest[0]).Some? {
        EarlyExitIsHarmless(result.Intersect(rest[0]).value, rest[1..]);
      } else {
        AllBoundsStayEmpty(Narrowed(result.Bounds(), rest[0].Bounds()), rest[1..]);
      }
    }
  }

  lemma TighterLowerChain(a: Option<Bound>, b: Option<Bound>, c: Option<Bound>)
    requires WellFormedBound(a) && WellFormedBound(b) && WellFormedBound(c)
    requires TighterLower(a, b) == a && TighterLower(b, c) == b
    ensures TighterLower(a, c) == a
  {
    if a.Some? && b.Some? && c.Some? {
      CompareIsIdentity(a.value.version, b.value.version);
      CompareIsIdentity(b.value.version, c.value.version);
      CompareIsIdentity(a.value.version, c.value.version);
      CompareTransitive(c.value.version, b.value.version, a.value.version);
      if a.value.version.Compare(c.value.version) == 0 && a.value.inclusive == c.value.inclusive {
        BoundIsDecided(a.value, c.value);
      }
    }
  }

  lemma TighterUpperChain(a: Option<Bound>, b: Option<Bound>, c: Option<Bound>)
    requires WellFormedBound(a) && WellFormedBound(b) && WellFormedBound(c)
    requires TighterUpper(a, b) == a && TighterUpper(b, c) == b
    ensures TighterUpper(a, c) == a
  {
    if a.Some? && b.Some? && c.Some? {
      CompareIsIdentity(a.value.version, b.value.version);
      CompareIsIdentity(b.value.version, c.value.version);
      CompareIsIdentity(a.value.version, c.value.version);
      CompareTransitive(a.value.version, b.value.version, c.value.version);
      if a.value.version.Compare(c.value.version) == 0 && a.value.inclusive == c.value.inclusive {
        BoundIsDecided(a.value, c.value);
      }
    }
  }

  lemma TighterPicks(a: Option<Bound>, b: Option<Bound>)
    requires WellFormedBound(a) && WellFormedBound(b)
    ensures TighterLower(TighterLower(a, b), a) == TighterLower(a, b) == TighterLower(TighterLower(a, b), b)
    ensures TighterUpper(TighterUpper(a, b), a) == TighterUpper(a, b) == TighterUpper(TighterUpper(a, b), b)
  {
    if a.Some? { CompareIsIdentity(a.value.version, a.value.version); }
    if b.Some? { CompareIsIdentity(b.value.version, b.value.version); }
    if a.Some? && b.Some? {
      CompareIsIdentity(a.value.version, b.value.version);
      if a.value.version.Compare(b.value.version) == 0 && a.value.inclusive == b.value.inclusive {
        BoundIsDecided(a.value, b.value);
      }
    }
  }

  /** Folding one more requirement into tightest bounds gives tightest bounds. */
  lemma TightestStep(rs: set<Requirement>, i: Interval, r: Requirement)
    requires forall x | x in rs :: WellFormedBounds(x.Bounds())
    requires WellFormedBounds(i) && WellFormedBounds(r.Bounds())
    requires TightestLower(rs, i.lower) && TightestUpper(rs, i.upper)
    ensures TightestLower(rs + {r}, Narrowed(i, r.Bounds()).lower)
    ensures TightestUpper(rs + {r}, Narrowed(i, r.Bounds()).upper)
  {
    var n := Narrowed(i, r.Bounds());
    TighterPicks(i.lower, r.lower);
    TighterPicks(i.upper, r.upper);
    forall x | x in rs + {r}
      ensures TighterLower(n.lower, x.lower) == n.lower && TighterUpper(n.upper, x.upper) == n.upper
    {
      if x in rs {
        TighterLowerChain(n.lower, i.lower, x.lower);
        TighterUpperChain(n.upper, i.upper, x.upper);
      }
    }
  }

  lemma {:induction false} AllBoundsAreTightest(rs: set<Requirement>, gathered: Interval, rest: seq<Requirement>)
    requires forall x | x in rs :: WellFormedBounds(x.Bounds())
    requires forall x | x in rest :: WellFormedBounds(x.Bounds())
    requires WellFormedBounds(gathered)
    requires TightestLower(rs, gathered.lower) && TightestUpper(rs, gathered.upper)
    ensures TightestLower(rs + Members(rest), AllBounds(gathered, rest).lower)
    ensures TightestUpper(rs + Members(rest), AllBounds(gathered, rest).upper)
    decreases |rest|
  {
    if rest == [] {
      assert rs + Members(rest) == rs;
    } else {
      TightestStep(rs, gathered, rest[0]);
      NarrowedWellFormed(gathered, rest[0].Bounds());
      AllBoundsAreTightest(rs + {rest[0]}, Narrowed(gathered, rest[0].Bounds()), rest[1..]);
      assert rs + {rest[0]} + Members(rest[1..]) == rs + Members(rest) by {
        assert rest == [rest[0]] + rest[1..];
      }
    }
  }

  lemma SoleIsTightest(r: Requirement)
    requires WellFormedBounds(r.Bounds())
    ensures TightestLower({r}, r.lower) && TightestUpper({r}, r.upper)
  {
    TighterPicks(r.lower, r.lower);
    TighterPicks(r.upper, r.upper);
  }

  /** What a non-empty list of requirements intersects to, as tightest bounds. */
  lemma IntersectionIsTightest(rs: seq<Requirement>) returns (i: Interval)
    requires rs != []
    requires forall r | r in rs :: WellFormedBounds(r.Bounds()) && NonEmpty(r.Bounds())
    ensures IntersectionOf(rs).Some? <==> NonEmpty(i)
    ensures IntersectionOf(rs).Some? ==> IntersectionOf(rs).value.Bounds() == i
    ensures TightestLower(Members(rs), i.lower) && TightestUpper(Members(rs), i.upper)
  {
    i := AllBounds(rs[0].Bounds(), rs[1..]);
    EarlyExitIsHarmless(rs[0], rs[1..]);
    SoleIsTightest(rs[0]);
    AllBoundsAreTightest({rs[0]}, rs[0].Bounds(), rs[1..]);
    HeadAndTailMembers(rs);
  }

  lemma HeadAndTailMembers(rs: seq<Requirement>)
    requires rs != []
    ensures {rs[0]} + Members(rs[1..]) == Members(rs)
  {
    assert rs == [rs[0]] + rs[1..];
  }

  /** IntersectAll's success and bounds depend only on which requirements are asked for: not
      on their order, nor on one being asked for twice. */
  lemma IntersectionIgnoresOrder(rs: seq<Requirement>, qs: seq<Requirement>)
    requires forall r :: r in rs <==> r in qs
    requires forall r | r in rs :: WellFormedBounds(r.Bounds()) && NonEmpty(r.Bounds())
    ensures IntersectionOf(rs).Some? <==> IntersectionOf(qs).Some?
    ensures IntersectionOf(rs).Some? ==> IntersectionOf(rs).value.Bounds() == IntersectionOf(qs).value.Bounds()
  {
    assert qs != [] ==> qs[0] in qs;
    assert rs != [] ==> rs[0] in rs;
    if rs != [] && qs != [] {
      var i := IntersectionIsTightest(rs);
      var j := IntersectionIsTightest(qs);
      assert Members(rs) == Members(qs);
      TightestLowerUnique(Members(rs), i.lower, j.lower);
      TightestUpperUnique(Members(rs), i.upper, j.upper);
    }
  }

  // --- what a list of requirements accepts ---

  lemma HeadOrRest(rest: seq<Requirement>)
    requires rest != []
    ensures forall r :: r in rest <==> r == rest[0] || r in rest[1..]
  {
    assert rest == [rest[0]] + rest[1..];
  }

  lemma {:induction false} AllBoundsContain(gathered: Interval, rest: seq<Requirement>, v: Version)
    ensures Contains(AllBounds(gathered, rest), v) <==>
            Contains(gathered, v) && forall r | r in rest :: Contains(r.Bounds(), v)
    decreases |rest|
  {
    if rest != [] {
      HeadOrRest(rest);
      NarrowedContains(gathered, rest[0].Bounds(), v);
      AllBoundsContain(Narrowed(gathered, rest[0].Bounds()), rest[1..], v);
    }
  }

  lemma {:induction false} AllBoundsOpen(gathered: Interval, rest: seq<Requirement>, v: Version)
    requires v.IsPrerelease() && Contains(AllBounds(gathered, rest), v)
    ensures Opens(AllBounds(gathered, rest), v) <==>
            Opens(gathered, v) || exists r | r in rest :: Opens(r.Bounds(), v)
    decreases |rest|
  {
    if rest != [] {
      HeadOrRest(rest);
      AllBoundsContain(gathered, rest, v);
      NarrowedOpens(gathered, rest[0].Bounds(), v);
      AllBoundsOpen(Narrowed(gathered, rest[0].Bounds()), rest[1..], v);
    }
  }

  /** What IntersectAll makes of a list: refused, each version lies outside one of its
      intervals; otherwise accepted is what lies in all of them and is a release or has its
      core's prerelease named by some bound. */
  lemma IntersectAllAccepts(rs: seq<Requirement>, v: Version)
    requires rs != [] && forall r | r in rs :: NonEmpty(r.Bounds())
    ensures IntersectionOf(rs).None? ==> exists r | r in rs :: !Contains(r.Bounds(), v) && !r.Satisfies(v)
    ensures IntersectionOf(rs).Some? ==>
              (IntersectionOf(rs).value.Satisfies(v) <==>
               && (forall r | r in rs :: Contains(r.Bounds(), v))
               && (v.IsPrerelease() ==> exists r | r in rs :: Opens(r.Bounds(), v)))
  {
    var all := AllBounds(rs[0].Bounds(), rs[1..]);
    HeadOrRest(rs);
    EarlyExitIsHarmless(rs[0], rs[1..]);
    AllBoundsContain(rs[0].Bounds(), rs[1..], v);
    if IntersectionOf(rs).None? {
      EmptyContainsNothing(all, v);
      var r :| r in rs && !Contains(r.Bounds(), v);
      SatisfiesMeaning(r, v);
    } else {
      SatisfiesMeaning(IntersectionOf(rs).value, v);
      if v.IsPrerelease() && Contains(all, v) {
        AllBoundsOpen(rs[0].Bounds(), rs[1..], v);
      }
    }
  }

  /** Nothing asked for constrains nothing. */
  lemma EmptyListIsAny(v: Version)
    ensures IntersectionOf([]) == Some(Any()) && (Any().Satisfies(v) <==> !v.IsPrerelease())
  {
  }

  // --- what is refused, and what is returned ---

  predicate ClauseContains(clause: string, v: Version) {
    ClauseOf(clause).Ok? && Contains(ClauseOf(clause).value, v)
  }

  predicate ClauseOpens(clause: string, v: Version) {
    ClauseOf(clause).Ok? && Opens(ClauseOf(clause).value, v)
  }

  lemma HeadOrTail(clauses: seq<string>)
    requires clauses != []
    ensures forall c :: c in clauses <==> c == clauses[0] || c in clauses[1..]
  {
    assert clauses == [clauses[0]] + clauses[1..];
  }

  lemma {:induction false} FoldContains(clauses: seq<string>, gathered: Interval, v: Version)
    requires FoldClauses(clauses, gathered).Ok?
    ensures Contains(FoldClauses(clauses, gathered).value, v) <==>
            Contains(gathered, v) && forall c | c in clauses :: ClauseContains(c, v)
  {
    if clauses != [] {
      NarrowedContains(gathered, ClauseOf(clauses[0]).value, v);
      FoldContains(clauses[1..], Narrowed(gathered, ClauseOf(clauses[0]).value), v);
      HeadOrTail(clauses);
      assert ClauseContains(clauses[0], v) <==> Contains(ClauseOf(clauses[0]).value, v);
    }
  }

  lemma {:induction false} FoldOpens(clauses: seq<string>, gathered: Interval, v: Version)
    requires FoldClauses(clauses, gathered).Ok?
    requires v.IsPrerelease() && Contains(FoldClauses(clauses, gathered).value, v)
    ensures Opens(FoldClauses(clauses, gathered).value, v) <==>
            Opens(gathered, v) || exists c :: c in clauses && ClauseOpens(c, v)
  {
    if clauses != [] {
      OpensStep(clauses[0], clauses[1..], gathered, v);
      FoldOpens(clauses[1..], Narrowed(gathered, ClauseOf(clauses[0]).value), v);
      HeadOrTail(clauses);
    }
  }

  lemma OpensStep(first: string, rest: seq<string>, gathered: Interval, v: Version)
    requires ClauseOf(first).Ok? && FoldClauses(rest, Narrowed(gathered, ClauseOf(first).value)).Ok?
    requires v.IsPrerelease() && Contains(FoldClauses(rest, Narrowed(gathered, ClauseOf(first).value)).value, v)
    ensures Opens(Narrowed(gathered, ClauseOf(first).value), v) <==> Opens(gathered, v) || ClauseOpens(first, v)
  {
    FoldContains(rest, Narrowed(gathered, ClauseOf(first).value), v);
    NarrowedContains(gathered, ClauseOf(first).value, v);
    NarrowedOpens(gathered, ClauseOf(first).value, v);
  }

  /** What a comma list accepts, clause by clause: every clause's interval contains the
      version, and a prerelease is named by a bound of some clause. */
  lemma RequirementAccepts(text: string, v: Version)
    requires RequirementOf(text).Ok?
    ensures RequirementOf(text).value.Satisfies(v) <==>
              && (forall c | c in Split(TrimSpace(text), ',') :: ClauseContains(c, v))
              && (v.IsPrerelease() ==> exists c :: c in Split(TrimSpace(text), ',') && ClauseOpens(c, v))
  {
    FoldAccepts(Split(TrimSpace(text), ','), RequirementOf(text).value, v);
  }

  lemma FoldAccepts(clauses: seq<string>, r: Requirement, v: Version)
    requires FoldClauses(clauses, Interval(None, None)) == Ok(r.Bounds())
    ensures r.Satisfies(v) <==>
              && (forall c | c in clauses :: ClauseContains(c, v))
              && (v.IsPrerelease() ==> exists c :: c in clauses && ClauseOpens(c, v))
  {
    SatisfiesMeaning(r, v);
    FoldContains(clauses, Interval(None, None), v);
    if v.IsPrerelease() && Contains(r.Bounds(), v) {
      FoldOpens(clauses, Interval(None, None), v);
    }
  }

  /** What is rejected as unsatisfiable is satisfied by no version: each version lies outside
      some clause's interval. */
  lemma UnsatisfiableIsUnsatisfied(text: string, v: Version)
    requires RequirementOf(text) == Err(Unsatisfiable)
    ensures exists c :: c in Split(TrimSpace(text), ',') && !ClauseContains(c, v)
  {
    var clauses := Split(TrimSpace(text), ',');
    FoldContains(clauses, Interval(None, None), v);
    EmptyContainsNothing(FoldClauses(clauses, Interval(None, None)).value, v);
  }

  /** Every requirement parsing or intersecting returns accepts its own inclusive floor. */
  lemma ReturnedFloorIsAccepted(r: Requirement)
    requires Faithful(r) && r.lower.Some? && r.lower.value.inclusive
    ensures r.Satisfies(r.lower.value.version)
  {
    InclusiveFloorIsAccepted(r);
  }

  // --- where the source's own words claim more ---

  lemma PlainVersions()
    ensures Release(1, 0, 0).String() == "1.0.0" && Release(1, 0, 1).String() == "1.0.1"
    ensures Release(0, 5, 0).String() == "0.5.0"
  {
    assert Itoa(0) == "0" && Itoa(1) == "1" && Itoa(5) == "5";
  }

  const GAP: Requirement := Requirement(
    ">1.0.0, <1.0.1", Some(Bound(Release(1, 0, 0), false)), Some(Bound(Release(1, 0, 1), false)))

  lemma GapReadsBack()
    ensures RequirementOf(GAP.text) == Ok(GAP)
  {
    PlainVersions();
    assert GAP.ComparatorString() == GAP.text;
    DescribeReadsBack(GAP.Bounds());
  }

  /** ">1.0.0, <1.0.1" parses, and yet no version satisfies it. */
  lemma AcceptedButNamesNothing(v: Version)
    ensures RequirementOf(">1.0.0, <1.0.1") == Ok(GAP) && !GAP.Satisfies(v)
  {
    GapReadsBack();
    GapIsEmpty(GAP, v);
  }

  lemma GapIsEmpty(r: Requirement, v: Version)
    requires r.Bounds() == GAP.Bounds()
    ensures !r.Satisfies(v)
  {
  }

  const ALPHA: Version := Version(1, 0, 0, "alpha", "")
  const BETA: Version := Version(1, 0, 0, "beta", "")
  const FROM_ALPHA: Requirement := Requirement(">=1.0.0-alpha", Some(Bound(ALPHA, true)), None)
  const FROM_HALF: Requirement := Requirement(">=0.5.0", Some(Bound(Release(0, 5, 0), true)), None)
  const ABOVE: Requirement := Requirement(">1.0.0", Some(Bound(Release(1, 0, 0), false)), None)
  const BELOW: Requirement := Requirement("<1.0.1", None, Some(Bound(Release(1, 0, 1), false)))

  lemma OneBoundReadsBack(r: Requirement)
    requires WellFormedBounds(r.Bounds()) && (r.lower.None? || r.upper.None?)
    requires r.text == r.ComparatorString()
    ensures RequirementOf(r.text) == Ok(r)
  {
    DescribeReadsBack(r.Bounds());
  }

  lemma AlphaIsWellFormed()
    ensures ALPHA.WellFormed() && ALPHA.String() == "1.0.0-alpha"
  {
    LettersAreValid("alpha");
    PlainVersions();
  }

  lemma FromAlphaReadsBack()
    ensures RequirementOf(FROM_ALPHA.text) == Ok(FROM_ALPHA)
  {
    AlphaIsWellFormed();
    OneBoundReadsBack(FROM_ALPHA);
  }

  lemma FromHalfReadsBack()
    ensures RequirementOf(FROM_HALF.text) == Ok(FROM_HALF)
  {
    PlainVersions();
    OneBoundReadsBack(FROM_HALF);
  }

  lemma AboveReadsBack()
    ensures RequirementOf(ABOVE.text) == Ok(ABOVE)
  {
    PlainVersions();
    OneBoundReadsBack(ABOVE);
  }

  lemma BelowReadsBack()
    ensures RequirementOf(BELOW.text) == Ok(BELOW)
  {
    PlainVersions();
    OneBoundReadsBack(BELOW);
  }

  lemma AlphaBelowBeta()
    ensures BETA.Compare(ALPHA) == 1 && ALPHA.Compare(BETA) == -1
  {
    IndexOfAbsent("alpha", '.');
    IndexOfAbsent("beta", '.');
    CompareIsIdentity(ALPHA, BETA);
    assert ComparePrerelease("beta", "alpha") == CompareIdentifier("beta", "alpha") == 1;
  }

  /** ">=1.0.0-alpha" and ">=0.5.0" intersect to something that accepts 1.0.0-beta, which the
      second alone rejects. */
  lemma IntersectionAcceptsMore()
    ensures RequirementOf(FROM_ALPHA.text) == Ok(FROM_ALPHA) && RequirementOf(FROM_HALF.text) == Ok(FROM_HALF)
    ensures FROM_ALPHA.Intersect(FROM_HALF) == Some(FROM_ALPHA)
    ensures FROM_ALPHA.Satisfies(BETA) && !FROM_HALF.Satisfies(BETA)
  {
    FromAlphaReadsBack();
    FromHalfReadsBack();
    AlphaLetsBetaIn();
  }

  lemma AlphaLetsBetaIn()
    ensures FROM_ALPHA.Intersect(FROM_HALF) == Some(FROM_ALPHA)
    ensures FROM_ALPHA.Satisfies(BETA) && !FROM_HALF.Satisfies(BETA)
  {
    AlphaBelowBeta();
  }

  /** ">1.0.0" and "<1.0.1" intersect, and yet no version satisfies what they intersect to,
      let alone both of them. */
  lemma IntersectionOfNothing(v: Version)
    ensures RequirementOf(ABOVE.text) == Ok(ABOVE) && RequirementOf(BELOW.text) == Ok(BELOW)
    ensures ABOVE.Intersect(BELOW).Some? && !ABOVE.Intersect(BELOW).value.Satisfies(v)
    ensures !(ABOVE.Satisfies(v) && BELOW.Satisfies(v))
  {
    AboveReadsBack();
    BelowReadsBack();
    NothingBetween(v);
  }

  lemma NothingBetween(v: Version)
    ensures ABOVE.Intersect(BELOW).Some? && !ABOVE.Intersect(BELOW).value.Satisfies(v)
    ensures !(ABOVE.Satisfies(v) && BELOW.Satisfies(v))
  {
    IntersectNarrows(ABOVE, BELOW);
    GapIsEmpty(ABOVE.Intersect(BELOW).value, v);
    IntersectionKeepsCommon(ABOVE, BELOW, v);
  }
}
