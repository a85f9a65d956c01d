/** Strings as the .NET base library treats them, over abstract Unicode character tables. */
module Text {
  import opened Wrappers

  /** The character tables the runtime supplies: `char.IsLetter` / `\p{L}`, `\d` / `\p{Nd}`,
      `char.IsWhiteSpace` / `\s`, and invariant lower- and upper-casing. They are left abstract;
      `Valid` lists the facts about them that the proofs rely on, all true of Unicode. */
  datatype CharClasses = CharClasses(
    isLetter: char -> bool,
    isDigit: char -> bool,
    isSpace: char -> bool,
    toLower: char -> char,
    toUpper: char -> char)
  {
    ghost predicate Valid() {
      && isSpace(' ') && toLower(' ') == ' '
      && !isLetter('&') && !isDigit('&') && !isSpace('&')
      && !isDigit('.') && !isSpace('.')
      && (forall c :: isSpace(c) ==> !isDigit(c))
      && (forall c {:trigger toLower(c)} ::
            && (isLetter(toLower(c)) <==> isLetter(c))
            && (isDigit(toLower(c)) <==> isDigit(c))
            && (isSpace(toLower(c)) <==> isSpace(c))
            && toLower(c) != 'Ё'
            && (toLower(c) == 'ё' ==> c == 'ё' || c == 'Ё'))
      && (forall c {:trigger toLower(toLower(c))} :: toLower(toLower(c)) == toLower(c))
    }
  }

  /** `string.IsNullOrWhiteSpace` on a non-null string. */
  predicate IsBlank(u: CharClasses, s: string) {
    forall i :: 0 <= i < |s| ==> u.isSpace(s[i])
  }

  /** `string.IsNullOrWhiteSpace` on a nullable string. */
  predicate IsNullOrWhiteSpace(u: CharClasses, s: Option<string>) {
    s.None? || IsBlank(u, s.value)
  }

  /** `s.TrimStart()`: drops the leading white space. */
  function TrimStart(u: CharClasses, s: string): (r: string)
    ensures |r| <= |s| && r == s[|s| - |r|..]
    ensures r == [] || !u.isSpace(r[0])
    ensures forall i :: 0 <= i < |s| - |r| ==> u.isSpace(s[i])
  {
    if s == [] || !u.isSpace(s[0]) then s else TrimStart(u, s[1..])
  }

  /** `s.TrimEnd()`: drops the trailing white space. */
  function TrimEnd(u: CharClasses, s: string): (r: string)
    ensures |r| <= |s| && r == s[..|r|]
    ensures r == [] || !u.isSpace(r[|r| - 1])
    ensures forall i :: |r| <= i < |s| ==> u.isSpace(s[i])
  {
    if s == [] || !u.isSpace(s[|s| - 1]) then s else TrimEnd(u, s[..|s| - 1])
  }

  /** `s.Trim()`. */
  function Trim(u: CharClasses, s: string): (r: string)
  {
    TrimEnd(u, TrimStart(u, s))
  }

  /** No white space at either end. */
  predicate IsTrimmed(u: CharClasses, s: string) {
    s == [] || (!u.isSpace(s[0]) && !u.isSpace(s[|s| - 1]))
  }

  /** `Trim` leaves no white space at either end and removes nothing else. */
  lemma TrimIsTrimmed(u: CharClasses, s: string)
    ensures IsTrimmed(u, Trim(u, s))
    ensures Trim(u, s) == [] <==> IsBlank(u, s)
  {
    var t := TrimStart(u, s);
    if !IsBlank(u, s) {
      var i :| 0 <= i < |s| && !u.isSpace(s[i]);
      assert t != [];
    }
  }

  /** A string that does not start with white space keeps its start under `Trim`. */
  lemma TrimIsPrefix(u: CharClasses, s: string)
    requires s == [] || !u.isSpace(s[0])
    ensures Trim(u, s) == s[..|Trim(u, s)|]
    ensures s != [] ==> Trim(u, s) != []
  {
  }

  /** Trimming a trimmed string changes nothing. */
  lemma TrimTrimmed(u: CharClasses, s: string)
    requires s == [] || (!u.isSpace(s[0]) && !u.isSpace(s[|s| - 1]))
    ensures Trim(u, s) == s
  {
  }

  /** Per-character case mapping of a whole string. */
  function Lower(u: CharClasses, s: string): (r: string)
    ensures |r| == |s| && forall i :: 0 <= i < |s| ==> r[i] == u.toLower(s[i])
  {
    seq(|s|, i requires 0 <= i < |s| => u.toLower(s[i]))
  }

  function Upper(u: CharClasses, s: string): (r: string)
    ensures |r| == |s| && forall i :: 0 <= i < |s| ==> r[i] == u.toUpper(s[i])
  {
    seq(|s|, i requires 0 <= i < |s| => u.toUpper(s[i]))
  }

  /** `s.EndsWith(suffix)` (ordinal). */
  predicate EndsWith(s: string, suffix: string) {
    |suffix| <= |s| && s[|s| - |suffix|..] == suffix
  }

  /** Ordinal substring search (`s.Contains(pat)`, `s.IndexOf(pat) >= 0`). */
  predicate Contains(s: string, pat: string) {
    exists i :: 0 <= i <= |s| - |pat| && OccursAt(s, pat, i)
  }

  predicate OccursAt(s: string, pat: string, i: int)
    requires 0 <= i <= |s| - |pat|
  {
    s[i..i + |pat|] == pat
  }

  /** Substring search with `StringComparison.OrdinalIgnoreCase`, which compares upper-cased characters. */
  predicate ContainsIgnoreCase(u: CharClasses, s: string, pat: string) {
    Contains(Upper(u, s), Upper(u, pat))
  }

  /** `s.StartsWith(pat, StringComparison.OrdinalIgnoreCase)`. */
  predicate StartsWithIgnoreCase(u: CharClasses, s: string, pat: string) {
    |pat| <= |s| && Upper(u, s[..|pat|]) == Upper(u, pat)
  }

  /** `s.Replace(a, b)` for single characters. */
  function ReplaceChar(s: string, a: char, b: char): (r: string)
    ensures |r| == |s|
    ensures forall i :: 0 <= i < |s| ==> r[i] == (if s[i] == a then b else s[i])
  {
    if s == [] then [] else [if s[0] == a then b else s[0]] + ReplaceChar(s[1..], a, b)
  }

  /** After replacing `a` by a different character, no `a` is left. */
  lemma ReplaceCharRemoves(s: string, a: char, b: char)
    requires a != b
    ensures a !in ReplaceChar(s, a, b)
  {
    var r := ReplaceChar(s, a, b);
    assert forall i :: 0 <= i < |r| ==> r[i] != a;
  }

  /** Length of the run of characters satisfying `p` at the start of `s` (a greedy `p*`). */
  function RunOf(s: string, p: char -> bool): (n: nat)
    ensures n <= |s|
    ensures forall i :: 0 <= i < n ==> p(s[i])
    ensures n == |s| || !p(s[n])
  {
    if s != [] && p(s[0]) then 1 + RunOf(s[1..], p) else 0
  }

  /** A run of `p` that cannot be extended is the greedy run. */
  lemma {:induction false} RunOfIsLongest(s: string, p: char -> bool, n: nat)
    requires n <= |s|
    requires forall i :: 0 <= i < n ==> p(s[i])
    requires n == |s| || !p(s[n])
    ensures RunOf(s, p) == n
  {
    if n > 0 {
      RunOfIsLongest(s[1..], p, n - 1);
    }
  }

  predicate IsAsciiDigit(c: char) {
    '0' <= c <= '9'
  }

  /** Decimal rendering of a natural number, as string interpolation prints an int. */
  function NatToString(n: nat): (r: string)
    ensures r != [] && forall i :: 0 <= i < |r| ==> IsAsciiDigit(r[i])
    ensures n < 10 <==> |r| == 1
  {
    if n < 10 then [Digit(n)] else NatToString(n / 10) + [Digit(n % 10)]
  }

  function Digit(d: nat): (c: char)
    requires d < 10
    ensures IsAsciiDigit(c)
  {
    "0123456789"[d]
  }

  /** Distinct numbers print differently. */
  lemma {:induction false} NatToStringInjective(m: nat, n: nat)
    requires NatToString(m) == NatToString(n)
    ensures m == n
  {
    var s, t := NatToString(m), NatToString(n);
    if m < 10 || n < 10 {
      assert |s| == 1 && |t| == 1;
      assert Digit(m % 10) == s[0] == t[0] == Digit(n % 10);
    } else {
      assert s[..|s| - 1] == NatToString(m / 10);
      assert t[..|t| - 1] == NatToString(n / 10);
      NatToStringInjective(m / 10, n / 10);
      assert Digit(m % 10) == s[|s| - 1] == t[|t| - 1] == Digit(n % 10);
    }
  }
}
