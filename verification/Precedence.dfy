/** Precedence as section 11 of Semantic Versioning 2.0.0 words it, and exactly where the
    registry's comparison agrees with it. */
module Precedence {
  import opened Orders
  import opened Text
  import opened Versions

  /** Identifiers of only digits are ordered as numbers, however large, and come before all
      others; those are ordered by the ASCII codes of their first different characters. */
  ghost predicate IdentifierBelow(left: string, right: string) {
    if AllDigits(left) && AllDigits(right) then NatOf(left) < NatOf(right)
    else if AllDigits(left) || AllDigits(right) then AllDigits(left)
    else TextBelow(left, right)
  }

  /** A prerelease is below the release, and below another at the first identifiers that
      differ, or by having fewer of them. */
  ghost predicate PrereleaseBelow(left: string, right: string) {
    && left != ""
    && (right == "" || Below(IdentifierBelow, Split(left, '.'), Split(right, '.')))
  }

  /** v comes before w. */
  ghost predicate Precedes(v: Version, w: Version) {
    || v.major < w.major
    || (v.major == w.major && v.minor < w.minor)
    || (v.major == w.major && v.minor == w.minor && v.patch < w.patch)
    || (v.SameCore(w) && PrereleaseBelow(v.prerelease, w.prerelease))
  }

  /** The registry orders the two as the standard does. */
  ghost predicate Agree(v: Version, w: Version) {
    && (v.Compare(w) == -1 <==> Precedes(v, w))
    && (v.Compare(w) == 1 <==> Precedes(w, v))
  }

  predicate Oversized(identifier: string) {
    AllDigits(identifier) && NatOf(identifier) > MAX_COMPONENT
  }

  /** No all-digit identifier of the prerelease is beyond MAX_COMPONENT. */
  predicate Fits(v: Version) {
    forall part | part in Split(v.prerelease, '.') :: !Oversized(part)
  }

  lemma {:induction false} LexCommonPrefix<T>(c: (T, T) -> int, p: seq<T>, a: seq<T>, b: seq<T>)
    requires forall x | x in p :: c(x, x) == 0
    ensures Lex(c, p + a, p + b) == Lex(c, a, b)
  {
    if p == [] {
      assert p + a == a && p + b == b;
    } else {
      LexCommonPrefix(c, p[1..], a, b);
      assert (p + a)[1..] == p[1..] + a && (p + b)[1..] == p[1..] + b;
      assert p[0] in p;
    }
  }

  predicate Fitting(identifier: string) { ValidIdentifier(identifier, true) && !Oversized(identifier) }

  lemma FittingIdentifiers(x: string, y: string)
    requires Fitting(x) && Fitting(y)
    ensures CompareIdentifier(x, y) == -1 <==> IdentifierBelow(x, y)
  {
    TextComparesByCode(x, y);
  }

  lemma FittingPrereleases(left: string, right: string)
    requires left != "" && right != ""
    requires forall part | part in Split(left, '.') + Split(right, '.') :: Fitting(part)
    ensures ComparePrerelease(left, right) == -1 <==> PrereleaseBelow(left, right)
  {
    var a, b := Split(left, '.'), Split(right, '.');
    IdentifierOrder();
    forall x, y | x in a && y in b ensures CompareIdentifier(x, y) == -1 <==> IdentifierBelow(x, y) {
      FittingIdentifiers(x, y);
    }
    LexIsBelow(CompareIdentifier, IdentifierBelow, a, b);
  }

  /** On versions whose numerals fit an int32 the two orders are one. */
  lemma FittingAgree(v: Version, w: Version)
    requires v.WellFormed() && w.WellFormed() && Fits(v) && Fits(w)
    ensures Agree(v, w)
  {
    CompareIsIdentity(v, w);
    if v.SameCore(w) && v.prerelease != "" && w.prerelease != "" {
      FittingPrereleases(v.prerelease, w.prerelease);
      FittingPrereleases(w.prerelease, v.prerelease);
    }
  }

  /** Splits an oversized prerelease at its first oversized identifier. */
  lemma FirstOversized(parts: seq<string>) returns (k: nat)
    requires exists part :: part in parts && Oversized(part)
    ensures k < |parts| && Oversized(parts[k])
    ensures forall i | 0 <= i < k :: !Oversized(parts[i])
  {
    k := 0;
    while !Oversized(parts[k])
      invariant k < |parts|
      invariant forall i | 0 <= i < k :: !Oversized(parts[i])
      decreases |parts| - k
    {
      if k + 1 == |parts| {
        assert false;
      }
      k := k + 1;
    }
  }

  lemma DashBelowDigits(big: string)
    requires Oversized(big) && IsNumeral(big)
    ensures CompareIdentifier(big, "-") == 1
    ensures IdentifierBelow(big, "-")
  {
    assert !IsDigit("-"[0]);
    TextComparesByCode(big, "-");
    assert Parts(CodeBelow, "-", big, 0);
  }

  /** v with everything from its kth identifier on replaced by a single dash. */
  function Dashed(v: Version, k: nat): Version
    requires k < |Split(v.prerelease, '.')|
  {
    v.(prerelease := Join(Split(v.prerelease, '.')[..k] + ["-"], '.'))
  }

  lemma CutPart(parts: seq<string>, k: nat, part: string)
    requires k < |parts|
    requires forall p | p in parts :: '.' !in p && ValidIdentifier(p, true)
    requires forall i | 0 <= i < k :: !Oversized(parts[i])
    requires part in parts[..k] + ["-"]
    ensures '.' !in part && ValidIdentifier(part, true) && !Oversized(part)
  {
    assert !IsDigit("-"[0]);
    if part != "-" {
      var i :| 0 <= i < k && parts[i] == part;
    }
  }

  lemma DashedIsFitting(v: Version, k: nat)
    requires v.WellFormed() && v.prerelease != ""
    requires k < |Split(v.prerelease, '.')|
    requires forall i | 0 <= i < k :: !Oversized(Split(v.prerelease, '.')[i])
    ensures Split(Dashed(v, k).prerelease, '.') == Split(v.prerelease, '.')[..k] + ["-"]
    ensures Dashed(v, k).WellFormed() && Fits(Dashed(v, k)) && Dashed(v, k).prerelease != ""
  {
    var cut := Split(v.prerelease, '.')[..k] + ["-"];
    forall part | part in cut ensures '.' !in part && ValidIdentifier(part, true) && !Oversized(part) {
      CutPart(Split(v.prerelease, '.'), k, part);
    }
    SplitJoin(cut, '.');
    ValidIdentifiersChars(Dashed(v, k).prerelease, true);
  }

  lemma OversizedDisagrees(v: Version) returns (w: Version)
    requires v.WellFormed() && !Fits(v)
    ensures w.WellFormed() && Fits(w) && Precedes(v, w) && v.Compare(w) == 1
  {
    SplitEmpty();
    var parts := Split(v.prerelease, '.');
    var k := FirstOversized(parts);
    w := Dashed(v, k);
    DashedIsFitting(v, k);
    assert parts[k] in parts;
    DashedOrders(parts, k);
  }

  /** Against a dash in its place, an oversized identifier is above as text and below as a number. */
  lemma DashedOrders(parts: seq<string>, k: nat)
    requires k < |parts| && Oversized(parts[k]) && IsNumeral(parts[k])
    ensures Lex(CompareIdentifier, parts, parts[..k] + ["-"]) == 1
    ensures Below(IdentifierBelow, parts, parts[..k] + ["-"])
  {
    IdentifierOrder();
    assert parts == parts[..k] + parts[k..];
    LexCommonPrefix(CompareIdentifier, parts[..k], parts[k..], ["-"]);
    DashBelowDigits(parts[k]);
    assert Parts(IdentifierBelow, parts, parts[..k] + ["-"], k);
  }

  /** A well-formed version is ordered as the standard orders it, against every version whose
      numerals fit an int32, exactly when its own numerals fit one. */
  lemma AgreesWithStandard(v: Version)
    requires v.WellFormed()
    ensures Fits(v) <==> forall w: Version | w.WellFormed() && Fits(w) :: Agree(v, w)
  {
    if Fits(v) {
      forall w: Version | w.WellFormed() && Fits(w) ensures Agree(v, w) {
        FittingAgree(v, w);
      }
    } else {
      var w := OversizedDisagrees(v);
      CompareIsIdentity(v, w);
      assert !Agree(v, w);
    }
  }
}
