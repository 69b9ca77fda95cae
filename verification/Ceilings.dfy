/** Where '^', '~' and a partial '=' stop, said as agreement on leading components. */
module Ceilings {
  import opened Wrappers
  import opened Versions
  import opened Requirements
  import opened Intervals

  predicate WellFormedPartial(p: Partial) {
    && 1 <= p.written <= 3
    && p.completed.WellFormed() && p.completed.buildMetadata == ""
    && (p.written < 3 ==> p.completed.patch == 0)
    && (p.written < 2 ==> p.completed.minor == 0)
  }

  /** The kth of major, minor and patch. */
  function Component(v: Version, k: nat): nat
    requires k < 3
  {
    if k == 0 then v.major else if k == 1 then v.minor else v.patch
  }

  predicate AgreesThrough(v: Version, floor: Version, k: nat)
    requires k < 3
  {
    v.major == floor.major && (k >= 1 ==> v.minor == floor.minor) && (k >= 2 ==> v.patch == floor.patch)
  }

  /** k is the component a caret keeps: the first written one that is not zero, or the last
      written when all of them are zero. */
  predicate IsCaretComponent(p: Partial, k: nat) {
    && k < p.written <= 3
    && (forall i | 0 <= i < k :: Component(p.completed, i) == 0)
    && (Component(p.completed, k) != 0 || k + 1 == p.written)
  }

  /** k is the component '~' and a partial '=' keep: the last written, but never the patch. */
  predicate IsWrittenComponent(p: Partial, k: nat) {
    k == if p.written == 1 then 0 else 1
  }

  /** What a clause with a floor and a kept component accepts. */
  predicate Admits(floor: Version, k: nat, v: Version)
    requires k < 3
  {
    && floor.Compare(v) <= 0
    && AgreesThrough(v, floor, k)
    && (v.IsPrerelease() ==> floor.IsPrerelease() && v.SameCore(floor))
  }

  /** The successor release of floor at its kth component: [floor, this) is agreement. */
  function Next(floor: Version, k: nat): Version
    requires k < 3
  {
    if k == 0 then Release(floor.major + 1, 0, 0)
    else if k == 1 then Release(floor.major, floor.minor + 1, 0)
    else Release(floor.major, floor.minor, floor.patch + 1)
  }

  lemma HalfOpenIsAgreement(floor: Version, k: nat, v: Version)
    requires k < 3
    ensures floor.Compare(Next(floor, k)) < 0
    ensures Requirement("", Some(Bound(floor, true)), Some(Bound(Next(floor, k), false))).Satisfies(v)
            <==> Admits(floor, k, v)
  {
    var r := Requirement("", Some(Bound(floor, true)), Some(Bound(Next(floor, k), false)));
    SatisfiesMeaning(r, v);
  }

  lemma CaretCeilingIsNext(p: Partial, k: nat)
    requires WellFormedPartial(p) && IsCaretComponent(p, k)
    ensures p.CaretCeiling() ==
            if Component(p.completed, k) == MAX_COMPONENT then None else Some(Next(p.completed, k))
  {
    assert Component(p.completed, 0) == p.completed.major;
    assert k > 0 ==> p.completed.major == 0;
    assert k > 1 ==> Component(p.completed, 1) == 0;
  }

  lemma WrittenCeilingIsNext(p: Partial, k: nat)
    requires WellFormedPartial(p) && IsWrittenComponent(p, k)
    ensures p.WrittenCeiling() ==
            if Component(p.completed, k) == MAX_COMPONENT then None else Some(Next(p.completed, k))
  {
  }

  lemma CaretComponentExists(p: Partial) returns (k: nat)
    requires WellFormedPartial(p)
    ensures IsCaretComponent(p, k)
  {
    k := if p.completed.major != 0 || p.written == 1 then 0
         else if p.completed.minor != 0 || p.written == 2 then 1
         else 2;
  }

  /** Which component a comparator keeps; "" is the bare clause, read as a caret. */
  predicate Keeps(comparator: string, p: Partial, k: nat) {
    if comparator == "^" || comparator == "" then IsCaretComponent(p, k)
    else (comparator == "~" || (comparator == "=" && p.written < 3)) && IsWrittenComponent(p, k)
  }

  /** Every clause that keeps a component fails exactly when that component has no successor,
      and otherwise accepts exactly what agrees with its floor through it. */
  lemma CeilingClauseAccepts(comparator: string, p: Partial, k: nat, text: string, v: Version)
    requires WellFormedPartial(p) && Keeps(comparator, p, k)
    ensures k < 3
    ensures Compared(comparator, p) == Err(NoCeiling) <==> Component(p.completed, k) == MAX_COMPONENT
    ensures Compared(comparator, p).Ok? ==>
              var i := Compared(comparator, p).value;
              && WellFormedBounds(i) && i.lower == Some(Bound(p.completed, true))
              && i.upper.Some? && !i.upper.value.inclusive && p.completed.Compare(i.upper.value.version) < 0
              && (Requirement(text, i.lower, i.upper).Satisfies(v) <==> Admits(p.completed, k, v))
  {
    if comparator == "^" || comparator == "" {
      CaretCeilingIsNext(p, k);
    } else {
      WrittenCeilingIsNext(p, k);
    }
    HalfOpenIsAgreement(p.completed, k, v);
    SatisfiesMeaning(Requirement("", Some(Bound(p.completed, true)), Some(Bound(Next(p.completed, k), false))), v);
    SatisfiesMeaning(Requirement(text, Some(Bound(p.completed, true)), Some(Bound(Next(p.completed, k), false))), v);
  }
}
