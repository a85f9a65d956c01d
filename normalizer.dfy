/** The matcher's text normaliser (`QuestionThemeMatcher.Normalize`): the key under which a
    stored question and a title scraped from a theme page are compared. */
module Normalizer {
  import opened Text

  /** `Regex.Replace(s, @"\s+", " ")`: every maximal run of white space becomes one space. */
  function CollapseSpace(u: CharClasses, s: string): (r: string)
    ensures forall i :: 0 <= i < |r| && u.isSpace(r[i]) ==> r[i] == ' '
    ensures forall c :: c in r ==> c == ' ' || c in s
    ensures |r| <= |s|
    decreases |s|
  {
    if s == [] then []
    else if u.isSpace(s[0]) then " " + CollapseSpace(u, s[RunOf(s, u.isSpace)..])
    else [s[0]] + CollapseSpace(u, s[1..])
  }

  /** The characters `[\p{L}\p{Nd}\s]` keeps: letters, decimal digits and white space. */
  predicate IsWordChar(u: CharClasses, c: char) {
    u.isLetter(c) || u.isDigit(c) || u.isSpace(c)
  }

  /** `Regex.Replace(s, @"[^\p{L}\p{Nd}\s]", "")`: drops every other character. */
  function StripPunctuation(u: CharClasses, s: string): (r: string)
    ensures forall i :: 0 <= i < |r| ==> IsWordChar(u, r[i])
    ensures forall c :: c in r ==> c in s
    ensures |r| <= |s|
  {
    if s == [] then []
    else (if IsWordChar(u, s[0]) then [s[0]] else []) + StripPunctuation(u, s[1..])
  }

  /** No two white-space characters next to each other. */
  predicate NoAdjacentSpaces(u: CharClasses, s: string) {
    forall i :: 0 <= i < |s| - 1 ==> !(u.isSpace(s[i]) && u.isSpace(s[i + 1]))
  }

  /** `Replace('ё', 'е').Replace('Ё', 'Е')`. */
  function FoldYo(s: string): string {
    ReplaceChar(ReplaceChar(s, 'ё', 'е'), 'Ё', 'Е')
  }

  /** `Normalize`: empty for empty input; otherwise HTML-decode, fold `ё`/`Ё` into `е`/`Е`,
      collapse white space, drop punctuation, trim and lower-case. The key is never longer than
      the decoded text. */
  function Normalize(u: CharClasses, htmlDecode: string -> string, text: string): (r: string)
    ensures text == "" ==> r == ""
    ensures text != "" ==> |r| <= |htmlDecode(text)|
  {
    if text == "" then ""
    else
      Lower(u, Trim(u, StripPunctuation(u, CollapseSpace(u, FoldYo(htmlDecode(text))))))
  }

  /** A normalised key: empty for empty input; no `ё` or `Ё`; only letters, digits and white
      space, and every white space a plain space; nothing to trim; and already lower-case. */
  lemma NormalizeShape(u: CharClasses, htmlDecode: string -> string, text: string)
    requires u.Valid()
    ensures var r := Normalize(u, htmlDecode, text);
            && (text == "" ==> r == "")
            && 'ё' !in r && 'Ё' !in r
            && (forall i :: 0 <= i < |r| ==> IsWordChar(u, r[i]))
            && (forall i :: 0 <= i < |r| && u.isSpace(r[i]) ==> r[i] == ' ')
            && IsTrimmed(u, r)
            && (forall i :: 0 <= i < |r| ==> u.toLower(r[i]) == r[i])
  {
    if text != "" {
      var folded := FoldYo(htmlDecode(text));
      FoldedHasNoYo(htmlDecode(text));
      var t := Trim(u, StripPunctuation(u, CollapseSpace(u, folded)));
      CleanedShape(u, folded);
      LowerKeepsShape(u, t);
    }
  }

  /** After folding, neither `ё` nor `Ё` is left. */
  lemma FoldedHasNoYo(s: string)
    ensures 'ё' !in FoldYo(s) && 'Ё' !in FoldYo(s)
  {
    var f := FoldYo(s);
    assert forall i :: 0 <= i < |f| ==> f[i] != 'ё' && f[i] != 'Ё';
  }

  /** The text before lower-casing: trimmed, only word characters, plain spaces, no `ё`/`Ё`. */
  lemma CleanedShape(u: CharClasses, folded: string)
    requires 'ё' !in folded && 'Ё' !in folded
    ensures var t := Trim(u, StripPunctuation(u, CollapseSpace(u, folded)));
            && 'ё' !in t && 'Ё' !in t
            && (forall i :: 0 <= i < |t| ==> IsWordChar(u, t[i]))
            && (forall i :: 0 <= i < |t| && u.isSpace(t[i]) ==> t[i] == ' ')
            && IsTrimmed(u, t)
  {
    var p := StripPunctuation(u, CollapseSpace(u, folded));
    var t := Trim(u, p);
    TrimIsTrimmed(u, p);
    TrimChars(u, p);
    assert forall i :: 0 <= i < |t| ==> t[i] in p;
  }

  /** Lower-casing keeps that shape and makes every character its own lower case. */
  lemma LowerKeepsShape(u: CharClasses, t: string)
    requires u.Valid()
    requires 'ё' !in t && 'Ё' !in t
    requires forall i :: 0 <= i < |t| ==> IsWordChar(u, t[i])
    requires forall i :: 0 <= i < |t| && u.isSpace(t[i]) ==> t[i] == ' '
    requires IsTrimmed(u, t)
    ensures var r := Lower(u, t);
            && 'ё' !in r && 'Ё' !in r
            && (forall i :: 0 <= i < |r| ==> IsWordChar(u, r[i]))
            && (forall i :: 0 <= i < |r| && u.isSpace(r[i]) ==> r[i] == ' ')
            && IsTrimmed(u, r)
            && (forall i :: 0 <= i < |r| ==> u.toLower(r[i]) == r[i])
  {
    var r := Lower(u, t);
    assert forall i :: 0 <= i < |r| ==> r[i] != 'ё' && r[i] != 'Ё';
  }

  /** Every character `Trim` leaves was in its input. */
  lemma TrimChars(u: CharClasses, s: string)
    ensures forall c :: c in Trim(u, s) ==> c in s
  {
    var a := TrimStart(u, s);
    var b := TrimEnd(u, a);
    forall c | c in b
      ensures c in s
    {
      var i :| 0 <= i < |b| && b[i] == c;
      assert a[i] == c;
      assert s[|s| - |a| + i] == c;
    }
  }

  /** `Normalize` leaves its own result unchanged whenever that result has no two adjacent
      spaces, provided HTML decoding leaves text without `&` alone. */
  lemma NormalizeStableWithoutDoubleSpaces(u: CharClasses, htmlDecode: string -> string, text: string)
    requires u.Valid()
    requires forall s :: '&' !in s ==> htmlDecode(s) == s
    requires NoAdjacentSpaces(u, Normalize(u, htmlDecode, text))
    ensures Normalize(u, htmlDecode, Normalize(u, htmlDecode, text)) == Normalize(u, htmlDecode, text)
  {
    NormalizeShape(u, htmlDecode, text);
    KeyIsFixedPoint(u, htmlDecode, Normalize(u, htmlDecode, text));
  }

  /** A key of the normalised shape with no two adjacent spaces passes through every step of
      `Normalize` unchanged. */
  lemma KeyIsFixedPoint(u: CharClasses, htmlDecode: string -> string, r: string)
    requires u.Valid()
    requires forall s :: '&' !in s ==> htmlDecode(s) == s
    requires 'ё' !in r && 'Ё' !in r
    requires forall i :: 0 <= i < |r| ==> IsWordChar(u, r[i])
    requires forall i :: 0 <= i < |r| && u.isSpace(r[i]) ==> r[i] == ' '
    requires IsTrimmed(u, r)
    requires forall i :: 0 <= i < |r| ==> u.toLower(r[i]) == r[i]
    requires NoAdjacentSpaces(u, r)
    ensures Normalize(u, htmlDecode, r) == r
  {
    if r != "" {
      DecodeAndFoldFixed(htmlDecode, r);
      CleaningFixed(u, r);
      LowerFixed(u, r);
    }
  }

  /** Text without `&`, `ё` or `Ё` survives HTML decoding and folding unchanged. */
  lemma DecodeAndFoldFixed(htmlDecode: string -> string, r: string)
    requires forall s :: '&' !in s ==> htmlDecode(s) == s
    requires '&' !in r && 'ё' !in r && 'Ё' !in r
    ensures FoldYo(htmlDecode(r)) == r
  {
    assert htmlDecode(r) == r;
    ReplaceCharAbsent(r, 'ё', 'е');
    ReplaceCharAbsent(r, 'Ё', 'Е');
  }

  /** Trimmed text of word characters whose white space is single plain spaces survives
      collapsing, stripping and trimming unchanged. */
  lemma CleaningFixed(u: CharClasses, r: string)
    requires forall i :: 0 <= i < |r| ==> IsWordChar(u, r[i])
    requires forall i :: 0 <= i < |r| && u.isSpace(r[i]) ==> r[i] == ' '
    requires NoAdjacentSpaces(u, r)
    requires IsTrimmed(u, r)
    ensures Trim(u, StripPunctuation(u, CollapseSpace(u, r))) == r
  {
    CollapseSpaceUnchanged(u, r);
    StripPunctuationUnchanged(u, r);
    TrimTrimmed(u, r);
  }

  /** Text that is its own lower case survives lower-casing. */
  lemma LowerFixed(u: CharClasses, r: string)
    requires forall i :: 0 <= i < |r| ==> u.toLower(r[i]) == r[i]
    ensures Lower(u, r) == r
  {
  }

  /** Replacing a character that does not occur changes nothing. */
  lemma ReplaceCharAbsent(s: string, a: char, b: char)
    requires a !in s
    ensures ReplaceChar(s, a, b) == s
  {
    var r := ReplaceChar(s, a, b);
    assert forall i :: 0 <= i < |s| ==> r[i] == s[i];
  }

  /** Text whose only white space is single plain spaces has nothing to collapse. */
  lemma {:induction false} CollapseSpaceUnchanged(u: CharClasses, s: string)
    requires forall i :: 0 <= i < |s| && u.isSpace(s[i]) ==> s[i] == ' '
    requires NoAdjacentSpaces(u, s)
    ensures CollapseSpace(u, s) == s
    decreases |s|
  {
    if s != [] {
      if u.isSpace(s[0]) {
        RunOfIsLongest(s, u.isSpace, 1);
      }
      CollapseSpaceUnchanged(u, s[1..]);
    }
  }

  /** Text made only of letters, digits and white space has nothing to strip. */
  lemma {:induction false} StripPunctuationUnchanged(u: CharClasses, s: string)
    requires forall i :: 0 <= i < |s| ==> IsWordChar(u, s[i])
    ensures StripPunctuation(u, s) == s
  {
    if s != [] {
      StripPunctuationUnchanged(u, s[1..]);
    }
  }

  /** `Normalize` is not idempotent in general: white space is collapsed before punctuation is
      stripped, so "a - b" becomes "a  b", which a second pass turns into "a b". */
  lemma NormalizeNotIdempotent(u: CharClasses, htmlDecode: string -> string)
    requires u.Valid()
    requires u.isLetter('a') && u.isLetter('b') && !u.isSpace('a') && !u.isSpace('b')
    requires !u.isLetter('-') && !u.isDigit('-') && !u.isSpace('-')
    requires u.toLower('a') == 'a' && u.toLower('b') == 'b'
    requires htmlDecode("a - b") == "a - b" && htmlDecode("a  b") == "a  b"
    ensures Normalize(u, htmlDecode, "a - b") == "a  b"
    ensures Normalize(u, htmlDecode, "a  b") == "a b"
  {
    ReplaceCharAbsent("a - b", 'ё', 'е');
    ReplaceCharAbsent("a - b", 'Ё', 'Е');
    ReplaceCharAbsent("a  b", 'ё', 'е');
    ReplaceCharAbsent("a  b", 'Ё', 'Е');
    assert FoldYo("a - b") == "a - b";
    assert FoldYo("a  b") == "a  b";
    DashExampleFirstPass(u);
    DashExampleSecondPass(u);
  }

  lemma DashExampleFirstPass(u: CharClasses)
    requires u.Valid()
    requires u.isLetter('a') && u.isLetter('b') && !u.isSpace('a') && !u.isSpace('b')
    requires !u.isLetter('-') && !u.isDigit('-') && !u.isSpace('-')
    requires u.toLower('a') == 'a' && u.toLower('b') == 'b'
    ensures Lower(u, Trim(u, StripPunctuation(u, CollapseSpace(u, "a - b")))) == "a  b"
  {
    DashExampleCollapse(u);
    DashExampleStrip(u);
    TrimTrimmed(u, "a  b");
    assert Lower(u, "a  b") == "a  b";
  }

  /** "a - b" has no run of white space to collapse. */
  lemma DashExampleCollapse(u: CharClasses)
    requires u.Valid()
    requires !u.isSpace('a') && !u.isSpace('b') && !u.isSpace('-')
    ensures CollapseSpace(u, "a - b") == "a - b"
  {
    RunOfIsLongest(" - b", u.isSpace, 1);
    RunOfIsLongest(" b", u.isSpace, 1);
    assert " b"[1..] == "b" && " - b"[1..] == "- b" && "- b"[1..] == " b" && "a - b"[1..] == " - b";
    assert CollapseSpace(u, "b") == "b";
    assert CollapseSpace(u, " b") == " b";
    assert CollapseSpace(u, "- b") == "- b";
    assert CollapseSpace(u, " - b") == " - b";
  }

  /** Stripping the dash out of "a - b" leaves its two spaces side by side. */
  lemma DashExampleStrip(u: CharClasses)
    requires u.Valid()
    requires u.isLetter('a') && u.isLetter('b')
    requires !u.isLetter('-') && !u.isDigit('-') && !u.isSpace('-')
    ensures StripPunctuation(u, "a - b") == "a  b"
  {
    assert " b"[1..] == "b" && " - b"[1..] == "- b" && "- b"[1..] == " b" && "a - b"[1..] == " - b";
    assert StripPunctuation(u, "b") == "b";
    assert StripPunctuation(u, " b") == " b";
    assert StripPunctuation(u, "- b") == " b";
    assert StripPunctuation(u, " - b") == "  b";
  }

  lemma DashExampleSecondPass(u: CharClasses)
    requires u.Valid()
    requires u.isLetter('a') && u.isLetter('b') && !u.isSpace('a') && !u.isSpace('b')
    requires u.toLower('a') == 'a' && u.toLower('b') == 'b'
    ensures Lower(u, Trim(u, StripPunctuation(u, CollapseSpace(u, "a  b")))) == "a b"
  {
    RunOfIsLongest("  b", u.isSpace, 2);
    assert CollapseSpace(u, "b") == "b";
    assert "  b"[2..] == "b";
    assert CollapseSpace(u, "  b") == " b";
    assert StripPunctuation(u, "b") == "b";
    assert StripPunctuation(u, " b") == " b";
    TrimTrimmed(u, "a b");
    assert Lower(u, "a b") == "a b";
  }
}
