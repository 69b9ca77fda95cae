/** internal/pkgname/pkgname.go: the identity of a package, compared without regard to case. */
module PackageNames {
  import opened Wrappers
  import opened Orders
  import opened Text

  const MAX_SEGMENT_LENGTH: nat := 64

  datatype Name = Name(scope: string, name: string) {

    /** What every parsed name satisfies. */
    predicate WellFormed() { (scope == "" || ValidSegment(scope)) && ValidSegment(name) }

    predicate IsScoped() { scope != "" }

    function String(): string { if scope == "" then name else scope + "/" + name }

    function Compare(other: Name): int {
      if CompareText(Fold(scope), Fold(other.scope)) != 0 then CompareText(Fold(scope), Fold(other.scope))
      else CompareText(Fold(name), Fold(other.name))
    }

    predicate Equal(other: Name) { Compare(other) == 0 }

    /** The lookup key. */
    function Normalized(): string { Fold(String()) }

    function NormalizedScope(): string { Fold(scope) }

    /** The key that gates creation: '_' and '-' read alike. */
    function SquatKey(): string { Dashes(Normalized()) }
  }

  predicate IsLetter(c: char) { 'a' <= c <= 'z' || 'A' <= c <= 'Z' }

  predicate ValidSegment(segment: string) {
    && segment != "" && |segment| <= MAX_SEGMENT_LENGTH && IsLetter(segment[0])
    && forall i | 0 <= i < |segment| ::
         IsLetter(segment[i]) || IsDigit(segment[i]) || segment[i] == '-' || segment[i] == '_'
  }

  function Parse(text: string): Option<Name> {
    if TrimSpace(text) == "" then None
    else
      var (before, after) := Cut(text, '/');
      var (scope, name) := if after.Some? then (before, after.value) else ("", text);
      if '/' in name then None
      else if after.Some? && !ValidSegment(scope) then None
      else if !ValidSegment(name) then None
      else Some(Name(scope, name))
  }

  /** strings.ReplaceAll(text, "_", "-"). */
  function Dashes(text: string): (r: string)
    ensures |r| == |text|
    ensures forall i | 0 <= i < |text| :: r[i] == if text[i] == '_' then '-' else text[i]
  {
    if text == "" then "" else [if text[0] == '_' then '-' else text[0]] + Dashes(text[1..])
  }

  // --- text and back ---

  lemma StringIsGlue(n: Name)
    ensures n.String() == if n.scope == "" then n.name else Glue(n.scope, '/', Some(n.name))
  {
  }

  lemma ParseString(n: Name)
    requires n.WellFormed()
    ensures Parse(n.String()) == Some(n)
  {
    StringIsGlue(n);
    assert '/' !in n.scope && '/' !in n.name;
    if n.scope == "" {
      CutGlue(n.name, '/', None);
    } else {
      CutGlue(n.scope, '/', Some(n.name));
    }
    var text := n.String();
    assert text[|text| - 1] == n.name[|n.name| - 1];
    assert Trimmed(text);
  }

  lemma StringParse(text: string)
    requires Parse(text).Some?
    ensures Parse(text).value.WellFormed()
    ensures Parse(text).value.String() == text
  {
    StringIsGlue(Parse(text).value);
  }

  /** A name is parsed from exactly the text that writes it. */
  lemma ParserInvertsPrinter(text: string, n: Name)
    ensures Parse(text) == Some(n) <==> n.WellFormed() && n.String() == text
  {
    if Parse(text).Some? { StringParse(text); }
    if n.WellFormed() { ParseString(n); }
  }

  // --- the order ---

  lemma {:induction false} FoldConcat(a: string, b: string)
    ensures Fold(a + b) == Fold(a) + Fold(b)
  {
    forall i | 0 <= i < |a + b| ensures Fold(a + b)[i] == (Fold(a) + Fold(b))[i] {
      assert (a + b)[i] == if i < |a| then a[i] else b[i - |a|];
    }
  }

  lemma FoldedString(n: Name)
    ensures n.Normalized() ==
            if n.scope == "" then Fold(n.name) else Glue(Fold(n.scope), '/', Some(Fold(n.name)))
  {
    if n.scope != "" {
      FoldConcat(n.scope + "/", n.name);
      FoldConcat(n.scope, "/");
      assert Fold("/") == "/";
    }
  }

  lemma FoldKeepsSlashless(text: string)
    requires '/' !in text
    ensures '/' !in Fold(text)
  {
  }

  /** Compare is a total preorder on names. */
  lemma CompareIsPreorder(a: Name, b: Name, c: Name)
    ensures -1 <= a.Compare(b) <= 1
    ensures a.Compare(b) == -b.Compare(a)
    ensures a.Compare(b) <= 0 && b.Compare(c) <= 0 ==> a.Compare(c) <= 0
  {
    TextOrder();
  }

  /** Every unscoped name comes before every scoped one. */
  lemma UnscopedFirst(a: Name, b: Name)
    requires !a.IsScoped() && b.IsScoped()
    ensures a.Compare(b) < 0
  {
  }

  /** Two names are equal exactly when they share a lookup key; a segment never contains the
      '/' that separates them. */
  lemma EqualIsSameKey(a: Name, b: Name)
    requires a.WellFormed() && b.WellFormed()
    ensures a.Equal(b) <==> a.Normalized() == b.Normalized()
  {
    TextOrder();
    FoldedString(a);
    FoldedString(b);
    FoldKeepsSlashless(a.scope);
    FoldKeepsSlashless(b.scope);
    FoldKeepsSlashless(a.name);
    FoldKeepsSlashless(b.name);
    CutGlue(Fold(a.scope), '/', Some(Fold(a.name)));
    CutGlue(Fold(b.scope), '/', Some(Fold(b.name)));
    CutGlue(Fold(a.name), '/', None);
    CutGlue(Fold(b.name), '/', None);
  }

  /** Names are one package's exactly when they differ only in case. */
  lemma EqualIsSameButForCase(a: Name, b: Name)
    ensures a.Equal(b) <==> SameButForCase(a.scope, b.scope) && SameButForCase(a.name, b.name)
  {
    TextOrder();
    FoldJoinsCases(a.scope, b.scope);
    FoldJoinsCases(a.name, b.name);
  }

  /** Scopes decide before names, each by the first character that differs in lower case. */
  lemma CompareByCode(a: Name, b: Name)
    ensures a.Compare(b) == -1 <==>
            TextBelow(Fold(a.scope), Fold(b.scope))
            || (SameButForCase(a.scope, b.scope) && TextBelow(Fold(a.name), Fold(b.name)))
  {
    TextOrder();
    FoldJoinsCases(a.scope, b.scope);
    TextComparesByCode(Fold(a.scope), Fold(b.scope));
    TextComparesByCode(Fold(a.name), Fold(b.name));
  }

  /** A segment is a letter and at most sixty-three letters, digits, dashes and underscores. */
  lemma SegmentCodes(segment: string)
    ensures ValidSegment(segment) <==>
            && 1 <= |segment| <= 64
            && (var first := segment[0] as int; 65 <= first <= 90 || 97 <= first <= 122)
            && forall c | c in segment ::
                 var code := c as int;
                 48 <= code <= 57 || 65 <= code <= 90 || 97 <= code <= 122 || code == 45 || code == 95
  {
    forall i | 0 <= i < |segment| ensures segment[i] in segment {
    }
  }

  // --- squatting ---

  predicate ReadAlike(c: char, d: char) {
    c == d || (c == '-' && d == '_') || (c == '_' && d == '-')
  }

  /** Two keys collide exactly when they differ only in '-' against '_'. */
  lemma SquatKeysCollide(a: Name, b: Name)
    ensures a.SquatKey() == b.SquatKey() <==>
            && |a.Normalized()| == |b.Normalized()|
            && forall i | 0 <= i < |a.Normalized()| :: ReadAlike(a.Normalized()[i], b.Normalized()[i])
  {
    var x, y := a.Normalized(), b.Normalized();
    if |x| == |y| && forall i | 0 <= i < |x| :: ReadAlike(x[i], y[i]) {
      assert Dashes(x) == Dashes(y);
    } else if Dashes(x) == Dashes(y) {
      forall i | 0 <= i < |x| ensures ReadAlike(x[i], y[i]) {
        assert Dashes(x)[i] == Dashes(y)[i];
      }
    }
  }

  /** The gate is coarser than lookup, and never joins a scoped name with an unscoped one. */
  lemma SquatKeyIsCoarser(a: Name, b: Name)
    requires a.WellFormed() && b.WellFormed()
    ensures a.Equal(b) ==> a.SquatKey() == b.SquatKey()
    ensures a.SquatKey() == b.SquatKey() ==> (a.IsScoped() <==> b.IsScoped())
  {
    EqualIsSameKey(a, b);
    SquatKeysCollide(a, b);
    if a.SquatKey() == b.SquatKey() {
      if a.IsScoped() { SlashIsScope(a, b); }
      if b.IsScoped() { SlashIsScope(b, a); }
    }
  }

  lemma SlashIsScope(a: Name, b: Name)
    requires a.WellFormed() && b.WellFormed() && |a.Normalized()| == |b.Normalized()|
    requires forall i | 0 <= i < |a.Normalized()| :: ReadAlike(a.Normalized()[i], b.Normalized()[i])
    requires a.IsScoped()
    ensures b.IsScoped()
  {
    FoldedString(a);
    FoldedString(b);
    FoldKeepsSlashless(b.name);
    assert a.Normalized()[|a.scope|] == '/';
    assert b.Normalized()[|a.scope|] == '/';
  }
}
