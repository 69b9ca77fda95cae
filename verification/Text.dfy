/** The string operations the registry is written with: splitting, joining, trimming,
    folding and decimal numerals, over ASCII text. */
module Text {
  import opened Wrappers

  // --- searching, splitting and joining ---

  /** The index of the first c in text, or the length of text when there is none. */
  function IndexOf(text: string, c: char): (i: nat)
    ensures i <= |text|
    ensures c !in text[..i]
    ensures i < |text| ==> text[i] == c
  {
    if text == "" || text[0] == c then 0
    else
      var rest := IndexOf(text[1..], c);
      assert text[..rest + 1] == [text[0]] + text[1..][..rest];
      rest + 1
  }

  lemma IndexOfIsFirst(before: string, c: char, after: string)
    requires c !in before
    ensures IndexOf(before + [c] + after, c) == |before|
    ensures (before + [c] + after)[..|before|] == before
    ensures (before + [c] + after)[|before| + 1..] == after
  {
    var text := before + [c] + after;
    var i := IndexOf(text, c);
    assert text[|before|] == c;
    assert forall k | 0 <= k < i :: text[..i][k] != c;
    assert forall k | 0 <= k < |before| :: text[k] == before[k];
  }

  lemma IndexOfAbsent(text: string, c: char)
    requires c !in text
    ensures IndexOf(text, c) == |text|
  {
  }

  /** What precedes the first c, and what follows it when there is one. */
  function Cut(text: string, c: char): (r: (string, Option<string>))
    ensures c !in r.0
    ensures Glue(r.0, c, r.1) == text
  {
    var i := IndexOf(text, c);
    if i < |text| then (text[..i], Some(text[i + 1..])) else (text, None)
  }

  function Glue(before: string, c: char, after: Option<string>): string {
    if after.Some? then before + [c] + after.value else before
  }

  lemma CutGlue(before: string, c: char, after: Option<string>)
    requires c !in before
    ensures Cut(Glue(before, c, after), c) == (before, after)
  {
    if after.Some? {
      IndexOfIsFirst(before, c, after.value);
    } else {
      IndexOfAbsent(before, c);
    }
  }

  function Join(parts: seq<string>, sep: char): string {
    if parts == [] then ""
    else if |parts| == 1 then parts[0]
    else parts[0] + [sep] + Join(parts[1..], sep)
  }

  /** strings.Split: the pieces between the separators, at least one of them. */
  function Split(text: string, sep: char): (parts: seq<string>)
    ensures |parts| >= 1
    ensures Join(parts, sep) == text
    ensures forall part | part in parts :: sep !in part
    decreases |text|
  {
    var i := IndexOf(text, sep);
    if i == |text| then
      assert text[..i] == text;
      [text]
    else
      var rest := Split(text[i + 1..], sep);
      var parts := [text[..i]] + rest;
      assert parts[1..] == rest;
      assert Join(parts, sep) == text[..i] + [sep] + text[i + 1..];
      assert text == text[..i] + [sep] + text[i + 1..];
      parts
  }

  /** Splitting undoes joining, for pieces that do not contain the separator. */
  lemma {:induction false} SplitJoin(parts: seq<string>, sep: char)
    requires parts != []
    requires forall part | part in parts :: sep !in part
    ensures Split(Join(parts, sep), sep) == parts
  {
    if |parts| == 1 {
      IndexOfAbsent(parts[0], sep);
    } else {
      SplitJoin(parts[1..], sep);
      SplitAtFirst(parts[0], sep, Join(parts[1..], sep));
      assert [parts[0]] + parts[1..] == parts;
    }
  }

  lemma SplitAtFirst(before: string, sep: char, after: string)
    requires sep !in before
    ensures Split(before + [sep] + after, sep) == [before] + Split(after, sep)
  {
    IndexOfIsFirst(before, sep, after);
  }

  lemma {:induction false} JoinChars(parts: seq<string>, sep: char, c: char)
    requires c in Join(parts, sep)
    ensures c == sep || exists part :: part in parts && c in part
  {
    if |parts| > 1 && c !in parts[0] && c != sep {
      JoinChars(parts[1..], sep, c);
      var part :| part in parts[1..] && c in part;
      assert part in parts;
    }
  }

  // --- trimming ---

  /** The six ASCII characters unicode.IsSpace answers true for. */
  predicate IsSpace(c: char) {
    c == ' ' || c == '\t' || c == '\n' || c == '\r' || c == '\U{0B}' || c == '\U{0C}'
  }

  predicate Trimmed(text: string) {
    text == "" || (!IsSpace(text[0]) && !IsSpace(text[|text| - 1]))
  }

  function TrimLeft(text: string): (r: string)
    ensures r == "" || !IsSpace(r[0])
    ensures text != "" && !IsSpace(text[0]) ==> r == text
  {
    if text != "" && IsSpace(text[0]) then TrimLeft(text[1..]) else text
  }

  function TrimRight(text: string): (r: string)
    ensures r == "" || !IsSpace(r[|r| - 1])
    ensures r <= text
    ensures text != "" && !IsSpace(text[|text| - 1]) ==> r == text
  {
    if text != "" && IsSpace(text[|text| - 1]) then TrimRight(text[..|text| - 1]) else text
  }

  /** strings.TrimSpace on ASCII text. */
  function TrimSpace(text: string): (r: string)
    ensures Trimmed(r)
    ensures Trimmed(text) ==> r == text
  {
    var left := TrimLeft(text);
    var right := TrimRight(left);
    assert right != "" ==> right[0] == left[0];
    right
  }

  lemma {:induction false} TrimLeftKeeps(text: string, c: char)
    requires c !in text
    ensures c !in TrimLeft(text)
  {
    if text != "" && IsSpace(text[0]) { TrimLeftKeeps(text[1..], c); }
  }

  lemma TrimKeeps(text: string, c: char)
    requires c !in text
    ensures c !in TrimSpace(text)
  {
    TrimLeftKeeps(text, c);
  }

  predicate AllSpaces(text: string) { forall c | c in text :: IsSpace(c) }

  /** The codes of the characters that count as space. */
  lemma SpaceCodes(c: char)
    ensures IsSpace(c) <==> 9 <= c as int <= 13 || c as int == 32
  {
  }

  lemma {:induction false} TrimLeftDrops(text: string) returns (before: string)
    ensures text == before + TrimLeft(text) && AllSpaces(before)
  {
    if text != "" && IsSpace(text[0]) {
      var rest := TrimLeftDrops(text[1..]);
      before := [text[0]] + rest;
      assert before + TrimLeft(text) == [text[0]] + (rest + TrimLeft(text[1..]));
      assert text == [text[0]] + text[1..];
    } else {
      before := "";
      assert before + TrimLeft(text) == text;
    }
  }

  lemma {:induction false} TrimRightDrops(text: string) returns (after: string)
    ensures text == TrimRight(text) + after && AllSpaces(after)
  {
    if text != "" && IsSpace(text[|text| - 1]) {
      var rest := TrimRightDrops(text[..|text| - 1]);
      after := rest + [text[|text| - 1]];
      assert text == text[..|text| - 1] + [text[|text| - 1]];
    } else {
      after := "";
    }
  }

  /** Trimming drops the spaces at either end and nothing else. */
  lemma TrimSpaceDrops(text: string) returns (before: string, after: string)
    ensures text == before + TrimSpace(text) + after && Trimmed(TrimSpace(text))
    ensures AllSpaces(before) && AllSpaces(after)
  {
    before := TrimLeftDrops(text);
    after := TrimRightDrops(TrimLeft(text));
  }

  // --- decimal numerals ---

  predicate IsDigit(c: char) { '0' <= c <= '9' }

  predicate AllDigits(text: string) { forall i | 0 <= i < |text| :: IsDigit(text[i]) }

  /** A decimal numeral with no leading zero. */
  predicate IsNumeral(text: string) {
    text != "" && AllDigits(text) && (|text| > 1 ==> text[0] != '0')
  }

  function DigitOf(c: char): (d: nat)
    requires IsDigit(c)
    ensures d < 10
  {
    c as int - '0' as int
  }

  function DigitChar(d: nat): (c: char)
    requires d < 10
    ensures IsDigit(c) && DigitOf(c) == d
  {
    (d + '0' as int) as char
  }

  function NatOf(text: string): nat
    requires AllDigits(text)
  {
    if text == "" then 0 else NatOf(text[..|text| - 1]) * 10 + DigitOf(text[|text| - 1])
  }

  /** strconv.Itoa on a non-negative number. */
  function Itoa(n: nat): (text: string)
    ensures IsNumeral(text)
    ensures n > 0 ==> text[0] != '0'
  {
    if n < 10 then [DigitChar(n)] else Itoa(n / 10) + [DigitChar(n % 10)]
  }

  lemma {:induction false} NatOfItoa(n: nat)
    ensures NatOf(Itoa(n)) == n
  {
    if n < 10 {
      assert Itoa(n)[..0] == "";
    } else {
      NatOfItoa(n / 10);
      assert Itoa(n)[..|Itoa(n)| - 1] == Itoa(n / 10);
    }
  }

  lemma {:induction false} ItoaNatOf(text: string)
    requires IsNumeral(text)
    ensures Itoa(NatOf(text)) == text
    ensures |text| > 1 ==> NatOf(text) >= 10
  {
    var front, last := text[..|text| - 1], text[|text| - 1];
    assert text == front + [last];
    if |text| > 1 {
      ItoaNatOf(front);
      assert front[0] == text[0] != '0';
      assert Itoa(0) != front;
    } else {
      assert NatOf(front) == 0;
    }
  }

  lemma {:induction false} NatOfPrefix(text: string, k: nat)
    requires AllDigits(text) && k <= |text|
    ensures NatOf(text[..k]) <= NatOf(text)
  {
    if k < |text| {
      NatOfPrefix(text[..|text| - 1], k);
      assert text[..|text| - 1][..k] == text[..k];
    } else {
      assert text[..k] == text;
    }
  }

  /** Each digit stands for itself. */
  lemma DigitValues()
    ensures DigitOf('0') == 0 && DigitOf('1') == 1 && DigitOf('2') == 2 && DigitOf('3') == 3 && DigitOf('4') == 4
    ensures DigitOf('5') == 5 && DigitOf('6') == 6 && DigitOf('7') == 7 && DigitOf('8') == 8 && DigitOf('9') == 9
    ensures forall c :: IsDigit(c) <==> c in "0123456789"
  {
  }

  function Power(n: nat): nat { if n == 0 then 1 else 10 * Power(n - 1) }

  /** Digits count by their place. */
  lemma {:induction false} PlaceValue(a: string, b: string)
    requires AllDigits(a) && AllDigits(b)
    ensures AllDigits(a + b) && NatOf(a + b) == NatOf(a) * Power(|b|) + NatOf(b)
  {
    if b == "" {
      assert a + b == a;
    } else {
      var front := b[..|b| - 1];
      PlaceValue(a, front);
      assert (a + b)[..|a + b| - 1] == a + front;
      assert NatOf(a) * Power(|front|) * 10 == NatOf(a) * Power(|b|);
    }
  }

  // --- case folding ---

  /** The two characters are one ASCII letter, or one character. */
  predicate SameLetter(c: char, d: char) {
    || c == d
    || (65 <= c as int <= 90 && d as int == c as int + 32)
    || (65 <= d as int <= 90 && c as int == d as int + 32)
  }

  /** Equal up to the case of ASCII letters. */
  predicate SameButForCase(a: string, b: string) {
    |a| == |b| && forall i | 0 <= i < |a| :: SameLetter(a[i], b[i])
  }

  /** Folding joins exactly the texts that differ only in case, and leaves them in lower case. */
  lemma FoldJoinsCases(a: string, b: string)
    ensures Fold(a) == Fold(b) <==> SameButForCase(a, b)
    ensures SameButForCase(Fold(a), a) && forall c | c in Fold(a) :: !(65 <= c as int <= 90)
  {
    if Fold(a) == Fold(b) {
      forall i | 0 <= i < |a| ensures SameLetter(a[i], b[i]) {
        assert Fold(a)[i] == Fold(b)[i];
      }
    }
  }

  function FoldChar(c: char): char {
    if 'A' <= c <= 'Z' then (c as int + 32) as char else c
  }

  /** strings.ToLower on ASCII text. */
  function Fold(text: string): (r: string)
    ensures |r| == |text|
    ensures forall i | 0 <= i < |text| :: r[i] == FoldChar(text[i])
  {
    if text == "" then "" else [FoldChar(text[0])] + Fold(text[1..])
  }
}
