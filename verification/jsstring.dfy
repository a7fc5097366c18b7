/** The JavaScript string operations the components rely on, on `seq<char>`:
    `trim`, ASCII `toLowerCase`/`toUpperCase`, `split` on one character,
    `indexOf`/`replace` of a literal, and the decimal rendering of a
    non-negative integer (template literals over `Date.now()`). */
module JsString {
  import opened Common

  /** The characters JavaScript's `trim` removes and its `\s` class matches:
      the ASCII controls TAB..CR, SPACE, NBSP, BOM, the Unicode space
      separators and the two line/paragraph separators. */
  predicate IsWs(c: char) {
    || c == ' '
    || ('\t' <= c <= '\r')
    || c == '\U{A0}'
    || c == '\U{1680}'
    || ('\U{2000}' <= c <= '\U{200A}')
    || c == '\U{2028}'
    || c == '\U{2029}'
    || c == '\U{202F}'
    || c == '\U{205F}'
    || c == '\U{3000}'
    || c == '\U{FEFF}'
  }

  predicate NoWs(s: string) {
    forall k :: 0 <= k < |s| ==> !IsWs(s[k])
  }

  /** Every character of `s` in positions `lo..hi` is whitespace. */
  predicate WsBetween(s: string, lo: int, hi: int) {
    forall k :: lo <= k < hi && 0 <= k < |s| ==> IsWs(s[k])
  }

  /** The number of leading whitespace characters of `s`. */
  function LeadingWs(s: string): (n: nat)
    ensures n <= |s| && WsBetween(s, 0, n)
    ensures n == |s| || !IsWs(s[n])
  {
    if |s| == 0 || !IsWs(s[0]) then 0 else 1 + LeadingWs(s[1..])
  }

  /** The number of trailing whitespace characters of `s`. */
  function TrailingWs(s: string): (n: nat)
    ensures n <= |s| && WsBetween(s, |s| - n, |s|)
    ensures n == |s| || !IsWs(s[|s| - n - 1])
  {
    if |s| == 0 || !IsWs(s[|s| - 1]) then 0 else 1 + TrailingWs(s[..|s| - 1])
  }

  /** `s.trim()`: the slice of `s` between its leading and trailing
      whitespace. It is empty exactly when `s` is all whitespace. */
  function Trim(s: string): (r: string)
    ensures LeadingWs(s) + |r| <= |s| && r == s[LeadingWs(s)..LeadingWs(s) + |r|]
    ensures WsBetween(s, LeadingWs(s) + |r|, |s|)
    ensures r == [] || (!IsWs(r[0]) && !IsWs(r[|r| - 1]))
    ensures r == [] <==> WsBetween(s, 0, |s|)
  {
    var i := LeadingWs(s);
    if i == |s| then []
    else
      var j := |s| - TrailingWs(s);
      assert i < j;
      s[i..j]
  }

  /** A string that trims to nothing: empty or all whitespace. */
  predicate Blank(s: string) {
    WsBetween(s, 0, |s|)
  }

  /** Trimming a string without whitespace changes nothing. */
  lemma TrimNoWs(s: string)
    requires NoWs(s)
    ensures Trim(s) == s
  {
  }

  /** ASCII `toLowerCase` of one character. */
  function LowerChar(c: char): (r: char)
    ensures 'A' <= c <= 'Z' ==> 'a' <= r <= 'z' && r as int == c as int + 32
    ensures !('A' <= c <= 'Z') ==> r == c
  {
    if 'A' <= c <= 'Z' then (c as int + 32) as char else c
  }

  /** ASCII `toUpperCase` of one character. */
  function UpperChar(c: char): (r: char)
    ensures 'a' <= c <= 'z' ==> 'A' <= r <= 'Z' && r as int == c as int - 32
    ensures !('a' <= c <= 'z') ==> r == c
  {
    if 'a' <= c <= 'z' then (c as int - 32) as char else c
  }

  function Lower(s: string): (r: string)
    ensures |r| == |s|
    ensures forall k :: 0 <= k < |s| ==> r[k] == LowerChar(s[k])
  {
    seq(|s|, k requires 0 <= k < |s| => LowerChar(s[k]))
  }

  function Upper(s: string): (r: string)
    ensures |r| == |s|
    ensures forall k :: 0 <= k < |s| ==> r[k] == UpperChar(s[k])
  {
    seq(|s|, k requires 0 <= k < |s| => UpperChar(s[k]))
  }

  /** `s.split(d)` for a one-character separator: the maximal pieces between
      occurrences of `d`. There is always at least one piece, and a string
      without `d` is its own single piece. */
  function Split(s: string, d: char): (r: seq<string>)
    ensures |r| >= 1
    ensures forall k :: 0 <= k < |r| ==> d !in r[k]
    ensures d !in s ==> r == [s]
    ensures d in s ==> |r| >= 2
    decreases |s|
  {
    if |s| == 0 then [[]]
    else
      var rest := Split(s[1..], d);
      if s[0] == d then [[]] + rest
      else
        assert d !in s ==> d !in s[1..] && s == [s[0]] + s[1..];
        [[s[0]] + rest[0]] + rest[1..]
  }

  /** `pieces.join(d)`. */
  function Join(pieces: seq<string>, d: char): (r: string)
    requires |pieces| >= 1
    decreases |pieces|
  {
    if |pieces| == 1 then pieces[0]
    else pieces[0] + [d] + Join(pieces[1..], d)
  }

  /** One step of `Split`: a separator opens a new empty piece, any other
      character joins the first piece of the rest. */
  lemma SplitStep(s: string, d: char)
    requires |s| > 0
    ensures s[0] == d ==> Split(s, d) == [[]] + Split(s[1..], d)
    ensures s[0] != d ==>
              Split(s, d) == [[s[0]] + Split(s[1..], d)[0]] + Split(s[1..], d)[1..]
  {
  }

  /** Joining after an empty first piece starts with the separator. */
  lemma JoinEmptyHead(rest: seq<string>, d: char)
    requires |rest| >= 1
    ensures Join([[]] + rest, d) == [d] + Join(rest, d)
  {
    assert ([[]] + rest)[1..] == rest;
  }

  /** Joining after a character put in front of the first piece starts with
      that character. */
  lemma JoinConsHead(c: char, rest: seq<string>, d: char)
    requires |rest| >= 1
    ensures Join([[c] + rest[0]] + rest[1..], d) == [c] + Join(rest, d)
  {
    var r := [[c] + rest[0]] + rest[1..];
    if |rest| > 1 {
      assert r[1..] == rest[1..];
    }
  }

  /** Splitting and joining again gives the original string back. */
  lemma {:induction false} JoinSplit(s: string, d: char)
    ensures Join(Split(s, d), d) == s
    decreases |s|
  {
    if |s| > 0 {
      var rest := Split(s[1..], d);
      JoinSplit(s[1..], d);
      SplitStep(s, d);
      if s[0] == d {
        JoinEmptyHead(rest, d);
      } else {
        JoinConsHead(s[0], rest, d);
      }
      assert s == [s[0]] + s[1..];
    }
  }

  /** The last piece of a split, which is what `split(d).pop()` returns. */
  function LastPiece(s: string, d: char): (r: string)
    ensures d !in r
    ensures d !in s ==> r == s
  {
    var pieces := Split(s, d);
    pieces[|pieces| - 1]
  }

  /** When `s` ends in `d` followed by text without `d`, the last piece is
      exactly that text. */
  lemma {:induction false} LastPieceAfter(a: string, d: char, b: string)
    requires d !in b
    ensures LastPiece(a + [d] + b, d) == b
    decreases |a|
  {
    var s := a + [d] + b;
    if |a| == 0 {
      assert s == [d] + b;
      assert s[1..] == b;
    } else {
      assert s[1..] == a[1..] + [d] + b;
      LastPieceAfter(a[1..], d, b);
      assert d in s[1..] by { assert s[1..][|a| - 1] == d; }
    }
  }

  /** When `d` occurs after the first character, the first character does
      not affect the last piece. */
  lemma LastPieceTail(s: string, d: char)
    requires |s| > 0 && d in s[1..]
    ensures LastPiece(s, d) == LastPiece(s[1..], d)
  {
    var rest := Split(s[1..], d);
    if s[0] == d {
      assert Split(s, d) == [[]] + rest;
    } else {
      assert Split(s, d) == [[s[0]] + rest[0]] + rest[1..];
    }
  }

  /** A decomposition of the tail extends to one of the whole string. */
  lemma ConsDecomposition(s: string, d: char, l: string)
    requires |s| > 0 && |l| < |s| - 1
    requires s[1..] == s[1..][..|s| - 1 - |l| - 1] + [d] + l
    ensures s == s[..|s| - |l| - 1] + [d] + l
  {
    assert s == [s[0]] + s[1..];
    assert s[..|s| - |l| - 1] == [s[0]] + s[1..][..|s| - 1 - |l| - 1];
  }

  /** When the only `d` of `s` is its first character, the last piece is
      the rest. */
  lemma LastPieceOnlySeparator(s: string, d: char)
    requires d in s && d !in s[1..]
    ensures s[0] == d && LastPiece(s, d) == s[1..]
    ensures s == s[..0] + [d] + s[1..]
  {
    assert s[0] == d by {
      var k :| 0 <= k < |s| && s[k] == d;
    }
    assert Split(s, d) == [[]] + [s[1..]];
  }

  /** When `d` occurs in `s`, the last piece is what follows its last
      occurrence: `s` is some prefix, then `d`, then the last piece. */
  lemma {:induction false} LastPieceSuffix(s: string, d: char)
    requires d in s
    ensures var l := LastPiece(s, d);
            |l| < |s| && s == s[..|s| - |l| - 1] + [d] + l
    decreases |s|
  {
    var rest := s[1..];
    if d in rest {
      LastPieceTail(s, d);
      LastPieceSuffix(rest, d);
      ConsDecomposition(s, d, LastPiece(s, d));
    } else {
      LastPieceOnlySeparator(s, d);
    }
  }

  /** `s` starts with `pat` at position `i`. */
  predicate OccursAt(s: string, pat: string, i: nat) {
    i + |pat| <= |s| && s[i..i + |pat|] == pat
  }

  /** `s.indexOf(pat, from)`: the first position at or after `from` where `pat` occurs. */
  function IndexOfFrom(s: string, pat: string, from: nat): (r: Option<nat>)
    ensures r.Some? ==> from <= r.value && OccursAt(s, pat, r.value)
    ensures r.Some? ==> forall j :: from <= j < r.value ==> !OccursAt(s, pat, j)
    ensures r.None? ==> forall j :: from <= j ==> !OccursAt(s, pat, j)
    decreases |s| - from
  {
    if from + |pat| > |s| then None
    else if s[from..from + |pat|] == pat then Some(from)
    else IndexOfFrom(s, pat, from + 1)
  }

  /** `s.replace(pat, rep)` with a string pattern: only the first occurrence
      is replaced; without one, `s` is returned unchanged. */
  function ReplaceFirst(s: string, pat: string, rep: string): (r: string)
    ensures (forall j :: !OccursAt(s, pat, j)) ==> r == s
    ensures forall i: nat :: OccursAt(s, pat, i) && (forall j: nat :: j < i ==> !OccursAt(s, pat, j))
                        ==> r == s[..i] + rep + s[i + |pat|..]
  {
    match IndexOfFrom(s, pat, 0)
    case None => s
    case Some(i) => s[..i] + rep + s[i + |pat|..]
  }

  /** When `s` begins with `pat`, replacing its first occurrence by nothing
      drops exactly that prefix. */
  lemma ReplaceFirstPrefix(pat: string, t: string)
    ensures ReplaceFirst(pat + t, pat, "") == t
  {
    var s := pat + t;
    assert OccursAt(s, pat, 0);
    assert s[..0] + "" + s[|pat|..] == t;
  }

  predicate IsDigit(c: char) {
    '0' <= c <= '9'
  }

  predicate AllDigits(s: string) {
    forall k :: 0 <= k < |s| ==> IsDigit(s[k])
  }

  function DigitChar(d: nat): (c: char)
    requires d < 10
    ensures IsDigit(c) && c as int - '0' as int == d
  {
    (d + '0' as int) as char
  }

  /** Decimal rendering of a non-negative integer, as a template literal
      prints `Date.now()`: digits only, never empty. */
  function Decimal(n: nat): (r: string)
    ensures |r| >= 1 && AllDigits(r)
    decreases n
  {
    if n < 10 then [DigitChar(n)] else Decimal(n / 10) + [DigitChar(n % 10)]
  }

  /** The value of a string of decimal digits. */
  function ParseDecimal(s: string): nat
    requires AllDigits(s)
    decreases |s|
  {
    if |s| == 0 then 0
    else ParseDecimal(s[..|s| - 1]) * 10 + (s[|s| - 1] as int - '0' as int)
  }

  /** Parsing a rendered number gives the number back, so distinct
      timestamps give distinct texts. */
  lemma {:induction false} DecimalRoundTrip(n: nat)
    ensures ParseDecimal(Decimal(n)) == n
    decreases n
  {
    if n >= 10 {
      DecimalRoundTrip(n / 10);
      var r := Decimal(n);
      assert r[..|r| - 1] == Decimal(n / 10);
    }
  }

  /** Rendered numbers contain neither `.`, `/` nor `-`. */
  lemma DecimalPlain(n: nat)
    ensures '.' !in Decimal(n) && '/' !in Decimal(n) && '-' !in Decimal(n)
  {
    var r := Decimal(n);
    assert forall k :: 0 <= k < |r| ==> r[k] != '.' && r[k] != '/' && r[k] != '-';
  }
}
