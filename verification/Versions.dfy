/** internal/semver/version.go: versions, their text and their precedence. */
module Versions {
  import opened Wrappers
  import opened Orders
  import opened Text

  /** What an int32 holds: the largest component the client can parse. */
  const MAX_COMPONENT: nat := 0x7fff_ffff

  datatype Version = Version(major: nat, minor: nat, patch: nat, prerelease: string, buildMetadata: string) {

    /** What every version read from text satisfies. */
    predicate WellFormed() {
      && major <= MAX_COMPONENT && minor <= MAX_COMPONENT && patch <= MAX_COMPONENT
      && (prerelease == "" || ValidIdentifiers(prerelease, true))
      && (buildMetadata == "" || ValidIdentifiers(buildMetadata, false))
    }

    predicate IsPrerelease() { prerelease != "" }

    function Core(): string {
      Itoa(major) + "." + Itoa(minor) + "." + Itoa(patch)
    }

    function String(): string {
      Core()
      + (if prerelease != "" then "-" + prerelease else "")
      + (if buildMetadata != "" then "+" + buildMetadata else "")
    }

    /** Semver precedence, in which build metadata takes no part. */
    function Compare(other: Version): int {
      if CompareInt(major, other.major) != 0 then CompareInt(major, other.major)
      else if CompareInt(minor, other.minor) != 0 then CompareInt(minor, other.minor)
      else if CompareInt(patch, other.patch) != 0 then CompareInt(patch, other.patch)
      else ComparePrerelease(prerelease, other.prerelease)
    }

    predicate SameCore(other: Version) {
      major == other.major && minor == other.minor && patch == other.patch
    }

    /** The columns of the versions_identity index. */
    predicate SameIdentity(other: Version) {
      SameCore(other) && prerelease == other.prerelease
    }
  }

  // --- identifiers ---

  predicate IdentifierChar(c: char) {
    IsDigit(c) || 'a' <= c <= 'z' || 'A' <= c <= 'Z' || c == '-'
  }

  /** Letters, digits and the dash, by their codes. */
  lemma IdentifierCodes(c: char)
    ensures var code := c as int;
            IdentifierChar(c) <==> 48 <= code <= 57 || 65 <= code <= 90 || 97 <= code <= 122 || code == 45
  {
  }

  predicate ValidIdentifier(identifier: string, rejectLeadingZeroes: bool) {
    && identifier != ""
    && (forall i | 0 <= i < |identifier| :: IdentifierChar(identifier[i]))
    && (rejectLeadingZeroes && AllDigits(identifier) ==> IsNumeral(identifier))
  }

  /** An identifier is any such characters, at least one of them; only where leading zeroes are
      rejected may it not be digits of which the first of several is a zero. */
  lemma LeadingZeroesMatter(identifier: string, rejectLeadingZeroes: bool)
    ensures ValidIdentifier(identifier, rejectLeadingZeroes) <==>
            && identifier != "" && (forall c | c in identifier :: IdentifierChar(c))
            && !(rejectLeadingZeroes && AllDigits(identifier) && |identifier| > 1 && identifier[0] == '0')
  {
    forall i | 0 <= i < |identifier| ensures identifier[i] in identifier {
    }
  }

  predicate ValidIdentifiers(text: string, rejectLeadingZeroes: bool) {
    forall part | part in Split(text, '.') :: ValidIdentifier(part, rejectLeadingZeroes)
  }

  /** The number an identifier stands for; an oversized numeral stands for none. */
  function NumericIdentifier(text: string): Option<nat> {
    if IsNumeral(text) && NatOf(text) <= MAX_COMPONENT then Some(NatOf(text)) else None
  }

  /** Reads digit by digit and gives up at the first overflow, so an arbitrarily long
      numeral never builds an arbitrarily large number. */
  method ParseNumericIdentifier(text: string) returns (value: nat, ok: bool)
    ensures ok <==> NumericIdentifier(text).Some?
    ensures value == if ok then NumericIdentifier(text).value else 0
  {
    if text == "" || (|text| > 1 && text[0] == '0') {
      return 0, false;
    }
    value := 0;
    for index := 0 to |text|
      invariant AllDigits(text[..index])
      invariant value == NatOf(text[..index]) <= MAX_COMPONENT
    {
      var character := text[index];
      if !IsDigit(character) {
        return 0, false;
      }
      assert text[..index + 1][..index] == text[..index];
      value := value * 10 + DigitOf(character);
      if value > MAX_COMPONENT {
        if AllDigits(text) {
          NatOfPrefix(text, index + 1);
        }
        return 0, false;
      }
    }
    assert text[..|text|] == text;
    ok := true;
  }

  method ValidateIdentifiers(text: string, rejectLeadingZeroes: bool) returns (valid: bool)
    ensures valid <==> ValidIdentifiers(text, rejectLeadingZeroes)
  {
    var parts := Split(text, '.');
    if text == "" {
      SplitEmpty();
      assert parts[0] in parts;
      return false;
    }
    for k := 0 to |parts|
      invariant forall j | 0 <= j < k :: ValidIdentifier(parts[j], rejectLeadingZeroes)
    {
      var identifier := parts[k];
      assert identifier in parts;
      if identifier == "" {
        return false;
      }
      var isNumeric := true;
      for index := 0 to |identifier|
        invariant forall i | 0 <= i < index :: IdentifierChar(identifier[i])
        invariant isNumeric <==> AllDigits(identifier[..index])
      {
        var character := identifier[index];
        assert identifier[..index + 1] == identifier[..index] + [character];
        if IsDigit(character) {
        } else if 'a' <= character <= 'z' || 'A' <= character <= 'Z' || character == '-' {
          isNumeric := false;
          assert !IsDigit(identifier[..index + 1][index]);
        } else {
          return false;
        }
      }
      assert identifier[..|identifier|] == identifier;
      if rejectLeadingZeroes && isNumeric && |identifier| > 1 && identifier[0] == '0' {
        return false;
      }
    }
    return true;
  }

  // --- text to version and back ---

  datatype Components = Components(major: nat, minor: nat, patch: nat)

  /** The three numerals before the prerelease. */
  function ComponentsOf(text: string): Option<Components> {
    var parts := Split(text, '.');
    if |parts| != 3 then None
    else
      match (NumericIdentifier(parts[0]), NumericIdentifier(parts[1]), NumericIdentifier(parts[2]))
      case (Some(major), Some(minor), Some(patch)) => Some(Components(major, minor, patch))
      case _ => None
  }

  /** The version a text names: metadata split off at the first '+', then the prerelease at
      the first '-', then exactly three numerals. */
  function VersionOf(text: string): Option<Version> {
    var (rest, buildMetadata) := Cut(text, '+');
    var (core, prerelease) := Cut(rest, '-');
    if buildMetadata.Some? && !ValidIdentifiers(buildMetadata.value, false) then None
    else if prerelease.Some? && !ValidIdentifiers(prerelease.value, true) then None
    else
      match ComponentsOf(core)
      case None => None
      case Some(n) => Some(Version(n.major, n.minor, n.patch, TextOr(prerelease), TextOr(buildMetadata)))
  }

  function TextOr(text: Option<string>): string {
    if text.Some? then text.value else ""
  }

  function Written(text: string): Option<string> {
    if text == "" then None else Some(text)
  }

  method ParseVersion(text: string) returns (r: Option<Version>)
    ensures r == VersionOf(text)
  {
    if TrimSpace(text) == "" {
      BlankIsNoVersion(text);
      return None;
    }
    var remainder := text;
    var buildMetadata := "";
    var plus := IndexOf(remainder, '+');
    if plus < |remainder| {
      buildMetadata, remainder := remainder[plus + 1..], remainder[..plus];
      var valid := ValidateIdentifiers(buildMetadata, false);
      if !valid {
        return None;
      }
    }
    ghost var rest := remainder;
    var prerelease := "";
    var dash := IndexOf(remainder, '-');
    if dash < |remainder| {
      prerelease, remainder := remainder[dash + 1..], remainder[..dash];
      var valid := ValidateIdentifiers(prerelease, true);
      if !valid {
        return None;
      }
    }
    assert remainder == Cut(rest, '-').0;
    var numbers, ok := ParseComponents(remainder);
    if !ok {
      return None;
    }
    return Some(Version(numbers[0], numbers[1], numbers[2], prerelease, buildMetadata));
  }

  method ParseComponents(remainder: string) returns (numbers: seq<nat>, ok: bool)
    ensures ok <==> ComponentsOf(remainder).Some?
    ensures |numbers| == 3
    ensures ok ==> ComponentsOf(remainder).value == Components(numbers[0], numbers[1], numbers[2])
  {
    var components := Split(remainder, '.');
    numbers := [0, 0, 0];
    if |components| != 3 {
      return numbers, false;
    }
    for index := 0 to 3
      invariant |numbers| == 3
      invariant forall j | 0 <= j < index :: NumericIdentifier(components[j]) == Some(numbers[j])
    {
      var number, numeric := ParseNumericIdentifier(components[index]);
      if !numeric {
        return numbers, false;
      }
      numbers := numbers[index := number];
    }
    assert NumericIdentifier(components[0]) == Some(numbers[0]);
    return numbers, true;
  }

  lemma {:induction false} TrimLeftBlank(text: string)
    requires TrimLeft(text) == ""
    ensures forall i | 0 <= i < |text| :: IsSpace(text[i])
  {
    if text != "" {
      TrimLeftBlank(text[1..]);
      assert forall i | 1 <= i < |text| :: text[i] == text[1..][i - 1];
    }
  }

  lemma {:induction false} TrimRightBlank(text: string)
    requires text == "" || !IsSpace(text[0])
    ensures TrimRight(text) == "" ==> text == ""
  {
    if |text| > 1 && IsSpace(text[|text| - 1]) {
      TrimRightBlank(text[..|text| - 1]);
    }
  }

  lemma BlankIsNoVersion(text: string)
    requires TrimSpace(text) == ""
    ensures VersionOf(text) == None
  {
    TrimRightBlank(TrimLeft(text));
    TrimLeftBlank(text);
    CutGlue(text, '+', None);
    CutGlue(text, '-', None);
    IndexOfAbsent(text, '.');
  }

  lemma SplitEmpty()
    ensures Split("", '.') == [""]
  {
    IndexOfAbsent("", '.');
  }

  lemma ValidIdentifiersChars(text: string, rejectLeadingZeroes: bool)
    requires ValidIdentifiers(text, rejectLeadingZeroes)
    ensures text != ""
    ensures forall c | c in text :: c == '.' || IdentifierChar(c)
  {
    var parts := Split(text, '.');
    assert parts[0] in parts;
    SplitEmpty();
    forall c | c in text ensures c == '.' || IdentifierChar(c) {
      JoinChars(parts, '.', c);
    }
  }

  lemma CoreIsJoined(v: Version)
    ensures v.Core() == Join([Itoa(v.major), Itoa(v.minor), Itoa(v.patch)], '.')
    ensures forall c | c in v.Core() :: c == '.' || IsDigit(c)
  {
    var parts := [Itoa(v.major), Itoa(v.minor), Itoa(v.patch)];
    calc {
      Join(parts, '.');
      { assert parts[1..] == [Itoa(v.minor), Itoa(v.patch)]; }
      Itoa(v.major) + "." + Join([Itoa(v.minor), Itoa(v.patch)], '.');
      { assert [Itoa(v.minor), Itoa(v.patch)][1..] == [Itoa(v.patch)]; }
      Itoa(v.major) + "." + (Itoa(v.minor) + "." + Itoa(v.patch));
      v.Core();
    }
  }

  lemma ComponentsOfCore(v: Version)
    requires v.WellFormed()
    ensures ComponentsOf(v.Core()) == Some(Components(v.major, v.minor, v.patch))
  {
    CoreIsJoined(v);
    SplitJoin([Itoa(v.major), Itoa(v.minor), Itoa(v.patch)], '.');
    NatOfItoa(v.major);
    NatOfItoa(v.minor);
    NatOfItoa(v.patch);
  }

  lemma CoreOfComponents(text: string, v: Version)
    requires ComponentsOf(text) == Some(Components(v.major, v.minor, v.patch))
    ensures v.Core() == text
    ensures v.major <= MAX_COMPONENT && v.minor <= MAX_COMPONENT && v.patch <= MAX_COMPONENT
  {
    var parts := Split(text, '.');
    ItoaNatOf(parts[0]);
    ItoaNatOf(parts[1]);
    ItoaNatOf(parts[2]);
    assert parts == [Itoa(v.major), Itoa(v.minor), Itoa(v.patch)];
    CoreIsJoined(v);
  }

  lemma StringIsGlued(v: Version)
    ensures v.String() == Glue(Glue(v.Core(), '-', Written(v.prerelease)), '+', Written(v.buildMetadata))
  {
    assert v.Core() + "" == v.Core();
    var rest := Glue(v.Core(), '-', Written(v.prerelease));
    assert rest == v.Core() + (if v.prerelease != "" then "-" + v.prerelease else "");
    assert rest + "" == rest;
  }

  /** Every well-formed version, dashed build metadata included, reads back as itself. */
  lemma VersionOfString(v: Version)
    requires v.WellFormed()
    ensures VersionOf(v.String()) == Some(v)
  {
    StringIsGlued(v);
    CoreIsJoined(v);
    ComponentsOfCore(v);
    if v.prerelease != "" { ValidIdentifiersChars(v.prerelease, true); }
    var rest := Glue(v.Core(), '-', Written(v.prerelease));
    CutGlue(rest, '+', Written(v.buildMetadata));
    CutGlue(v.Core(), '-', Written(v.prerelease));
  }

  /** Every accepted text prints back as it was written, character for character. */
  lemma StringOfVersionOf(text: string)
    requires VersionOf(text).Some?
    ensures VersionOf(text).value.WellFormed()
    ensures VersionOf(text).value.String() == text
  {
    var v := VersionOf(text).value;
    var (rest, buildMetadata) := Cut(text, '+');
    var (core, prerelease) := Cut(rest, '-');
    CoreOfComponents(core, v);
    if buildMetadata.Some? { ValidIdentifiersChars(buildMetadata.value, false); }
    if prerelease.Some? { ValidIdentifiersChars(prerelease.value, true); }
    StringIsGlued(v);
  }

  /** The parser accepts exactly what the printer writes, so printing is injective. */
  lemma ParserInvertsPrinter(text: string, v: Version)
    ensures VersionOf(text) == Some(v) <==> v.WellFormed() && v.String() == text
  {
    if VersionOf(text).Some? { StringOfVersionOf(text); }
    if v.WellFormed() { VersionOfString(v); }
  }

  const EXAMPLE: Version := Version(1, 2, 3, "alpha", "build")

  lemma ExampleIsWellFormed()
    ensures EXAMPLE.WellFormed()
  {
    LettersAreValid("alpha");
    LettersAreValid("build");
  }

  lemma LettersAreValid(text: string)
    requires text != "" && forall c | c in text :: 'a' <= c <= 'z'
    ensures ValidIdentifiers(text, true) && ValidIdentifiers(text, false)
  {
    IndexOfAbsent(text, '.');
    assert Split(text, '.') == [text];
    assert text[0] in text;
    assert forall i | 0 <= i < |text| :: text[i] in text;
  }

  /** The parts of a version are written in this order, and read back from it. */
  lemma ExampleReads(text: string)
    requires text == "1.2.3-alpha+build"
    ensures EXAMPLE.String() == text && VersionOf(text) == Some(EXAMPLE)
  {
    ExampleIsWritten();
    ExampleIsWellFormed();
    ParserInvertsPrinter(text, EXAMPLE);
  }

  lemma ExampleIsWritten()
    ensures EXAMPLE.String() == "1.2.3-alpha+build"
  {
    assert Itoa(1) == "1" && Itoa(2) == "2" && Itoa(3) == "3";
  }

  // --- precedence ---

  function ComparePrerelease(left: string, right: string): int {
    if left == "" || right == "" then
      if left == right then 0 else if left == "" then 1 else -1
    else
      Lex(CompareIdentifier, Split(left, '.'), Split(right, '.'))
  }

  function CompareIdentifier(left: string, right: string): int {
    match (NumericIdentifier(left), NumericIdentifier(right))
    case (Some(l), Some(r)) => CompareInt(l, r)
    case (Some(_), None) => -1
    case (None, Some(_)) => 1
    case (None, None) => CompareText(left, right)
  }

  lemma IdentifierOrder()
    ensures TotalOrder(CompareIdentifier)
  {
    TextOrder();
    forall x: string, y: string ensures CompareIdentifier(x, y) == 0 <==> x == y {
      if NumericIdentifier(x).Some? { ItoaNatOf(x); }
      if NumericIdentifier(y).Some? { ItoaNatOf(y); }
    }
  }

  lemma PrereleaseOrder()
    ensures TotalOrder(ComparePrerelease)
  {
    IdentifierOrder();
    forall x: string, y: string
      ensures -1 <= ComparePrerelease(x, y) <= 1
      ensures ComparePrerelease(x, y) == -ComparePrerelease(y, x)
      ensures ComparePrerelease(x, y) == 0 <==> x == y
    {
      LexAntisymmetric(CompareIdentifier, Split(x, '.'), Split(y, '.'));
      LexZero(CompareIdentifier, Split(x, '.'), Split(y, '.'));
      assert Join(Split(x, '.'), '.') == x && Join(Split(y, '.'), '.') == y;
    }
    forall x: string, y: string, z: string | ComparePrerelease(x, y) <= 0 && ComparePrerelease(y, z) <= 0
      ensures ComparePrerelease(x, z) <= 0
    {
      if x != "" && y != "" && z != "" {
        LexTransitive(CompareIdentifier, Split(x, '.'), Split(y, '.'), Split(z, '.'));
      }
    }
  }

  /** Compare is antisymmetric, and its zero is exactly the database's version identity. */
  lemma CompareIsIdentity(v: Version, w: Version)
    ensures -1 <= v.Compare(w) <= 1
    ensures v.Compare(w) == -w.Compare(v)
    ensures v.Compare(w) == 0 <==> v.SameIdentity(w)
  {
    PrereleaseOrder();
  }

  lemma CompareTransitive(u: Version, v: Version, w: Version)
    requires u.Compare(v) <= 0 && v.Compare(w) <= 0
    ensures u.Compare(w) <= 0
    ensures u.Compare(v) < 0 || v.Compare(w) < 0 ==> u.Compare(w) < 0
  {
    PrereleaseOrder();
    CompareIsIdentity(u, v);
    CompareIsIdentity(v, w);
    CompareIsIdentity(u, w);
  }
}
