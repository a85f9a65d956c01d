/** Turning the downloaded bytes of a page into text when the page does not say reliably which
    encoding it uses: try windows-1251, UTF-8 and windows-1252 in that order and keep the first
    decoding that looks right, else fall back to plain UTF-8. The theme matcher
    (`QuestionThemeMatcher.LoadHtmlAsync`) accepts a decoding that mentions `<html`; the theme
    importer (`TryDecodeWithFallbacks`) also accepts one with Cyrillic letters, and first honours a
    charset the server declares. */
module PageDecoding {
  import opened Wrappers
  import opened Search
  import opened Text

  newtype byte = x: int | 0 <= x < 256

  /** `Encoding.GetEncoding(name).GetString(bytes)`; None when either call throws. */
  type Decoder = seq<byte> -> Option<string>

  /** The encodings the pipeline uses. `systemDefault` is `Encoding.Default`, the importer's last
      resort, which does not throw. */
  datatype Codecs = Codecs(
    windows1251: Decoder,
    utf8: Decoder,
    windows1252: Decoder,
    systemDefault: seq<byte> -> string)

  /** The encodings both loops try, in order. */
  function Candidates(c: Codecs): (r: seq<Decoder>)
    ensures |r| == 3
  {
    [c.windows1251, c.utf8, c.windows1252]
  }

  /** What each decoder makes of the bytes. */
  function Attempts(decoders: seq<Decoder>, bytes: seq<byte>): (r: seq<Option<string>>)
    ensures |r| == |decoders|
    ensures forall i :: 0 <= i < |decoders| ==> r[i] == decoders[i](bytes)
  {
    seq(|decoders|, i requires 0 <= i < |decoders| => decoders[i](bytes))
  }

  /** A decoding that did not throw and passes `accept`. */
  function Accepted(accept: string -> bool): Option<string> -> bool {
    (o: Option<string>) => o.Some? && accept(o.value)
  }

  /** The text of the first decoder whose result is accepted, or None when none is. */
  function FirstAccepted(decoders: seq<Decoder>, bytes: seq<byte>, accept: string -> bool): (r: Option<string>)
    ensures r.Some? ==> accept(r.value)
  {
    var attempts := Attempts(decoders, bytes);
    match FirstIndex(attempts, Accepted(accept))
    case Some(k) => attempts[k]
    case None => None
  }

  /** The early-returning `foreach` over the encodings: decode, return the text if it is accepted,
      swallow a failure and go on to the next. */
  method TryDecoders(decoders: seq<Decoder>, bytes: seq<byte>, accept: string -> bool) returns (r: Option<string>)
    ensures r == FirstAccepted(decoders, bytes, accept)
  {
    ghost var attempts := Attempts(decoders, bytes);
    for i := 0 to |decoders|
      invariant NoneBefore(attempts, Accepted(accept), i)
    {
      var text := decoders[i](bytes);
      if text.Some? && accept(text.value) {
        FirstIndexAt(attempts, Accepted(accept), i);
        return text;
      }
    }
    FirstIndexNone(attempts, Accepted(accept));
    return None;
  }

  /** A decoder that yields an accepted text wins unless an earlier one does. */
  lemma FirstAcceptedAt(decoders: seq<Decoder>, bytes: seq<byte>, accept: string -> bool, k: nat)
    requires k < |decoders|
    requires decoders[k](bytes).Some? && accept(decoders[k](bytes).value)
    requires forall i :: 0 <= i < k ==> decoders[i](bytes).None? || !accept(decoders[i](bytes).value)
    ensures FirstAccepted(decoders, bytes, accept) == decoders[k](bytes)
  {
    FirstIndexAt(Attempts(decoders, bytes), Accepted(accept), k);
  }

  /** None is returned exactly when no decoder yields an accepted text. */
  lemma FirstAcceptedNone(decoders: seq<Decoder>, bytes: seq<byte>, accept: string -> bool)
    ensures FirstAccepted(decoders, bytes, accept).None? <==>
            forall i :: 0 <= i < |decoders| ==> decoders[i](bytes).None? || !accept(decoders[i](bytes).value)
  {
    var attempts := Attempts(decoders, bytes);
    if FirstIndex(attempts, Accepted(accept)).None? {
      assert forall i :: 0 <= i < |decoders| ==> !Accepted(accept)(attempts[i]);
    }
  }

  // ---- QuestionThemeMatcher.LoadHtmlAsync ----

  /** The matcher's test: the text mentions `<html`, ignoring case. */
  predicate MentionsHtml(u: CharClasses, s: string) {
    ContainsIgnoreCase(u, s, "<html")
  }

  function MentionsHtmlTest(u: CharClasses): string -> bool {
    (s: string) => MentionsHtml(u, s)
  }

  /** The page text `LoadHtmlAsync` returns for the downloaded bytes; None when the final UTF-8
      decoding throws, which the matcher treats like a failed download. */
  function PageHtml(u: CharClasses, c: Codecs, bytes: seq<byte>): Option<string> {
    OrElse(FirstAccepted(Candidates(c), bytes, MentionsHtmlTest(u)), c.utf8(bytes))
  }

  /** The decoding part of `LoadHtmlAsync`. */
  method LoadHtml(u: CharClasses, c: Codecs, bytes: seq<byte>) returns (html: Option<string>)
    ensures html == PageHtml(u, c, bytes)
  {
    html := TryDecoders([c.windows1251, c.utf8, c.windows1252], bytes, MentionsHtmlTest(u));
    if html.None? {
      html := c.utf8(bytes);
    }
  }

  /** When some encoding yields a text mentioning `<html`, the page is the first such text in the
      order windows-1251, UTF-8, windows-1252; otherwise it is the plain UTF-8 decoding. */
  lemma PageHtmlChoice(u: CharClasses, c: Codecs, bytes: seq<byte>)
    ensures var attempts := Attempts(Candidates(c), bytes);
            var r := PageHtml(u, c, bytes);
            || (exists k :: 0 <= k < 3 && r == attempts[k] && r.Some? && MentionsHtml(u, r.value)
                  && NoneBefore(attempts, Accepted(MentionsHtmlTest(u)), k))
            || (NoneBefore(attempts, Accepted(MentionsHtmlTest(u)), 3) && r == c.utf8(bytes))
  {
    var attempts := Attempts(Candidates(c), bytes);
    match FirstIndex(attempts, Accepted(MentionsHtmlTest(u)))
    case Some(k) =>
      assert PageHtml(u, c, bytes) == attempts[k];
    case None =>
  }

  /** A windows-1251 decoding that mentions `<html` is taken as it is. */
  lemma PageHtmlPrefersWindows1251(u: CharClasses, c: Codecs, bytes: seq<byte>)
    requires c.windows1251(bytes).Some? && MentionsHtml(u, c.windows1251(bytes).value)
    ensures PageHtml(u, c, bytes) == c.windows1251(bytes)
  {
    FirstAcceptedAt(Candidates(c), bytes, MentionsHtmlTest(u), 0);
  }

  /** When windows-1251 fails or lacks the tag but UTF-8 has it, the UTF-8 text is taken. */
  lemma PageHtmlThenUtf8(u: CharClasses, c: Codecs, bytes: seq<byte>)
    requires c.windows1251(bytes).None? || !MentionsHtml(u, c.windows1251(bytes).value)
    requires c.utf8(bytes).Some? && MentionsHtml(u, c.utf8(bytes).value)
    ensures PageHtml(u, c, bytes) == c.utf8(bytes)
  {
    FirstAcceptedAt(Candidates(c), bytes, MentionsHtmlTest(u), 1);
  }

  // ---- ThemeImport: TryDecodeWithFallbacks and the declared charset ----

  /** Some character in the Cyrillic block U+0400..U+04FF. */
  predicate HasCyrillic(s: string) {
    exists i :: 0 <= i < |s| && 'Ѐ' <= s[i] <= 'ӿ'
  }

  /** The importer's test: not blank, and either mentions `<html` or holds Cyrillic text. */
  predicate Plausible(u: CharClasses, s: string) {
    !IsBlank(u, s) && (MentionsHtml(u, s) || HasCyrillic(s))
  }

  function PlausibleTest(u: CharClasses): string -> bool {
    (s: string) => Plausible(u, s)
  }

  /** The text `TryDecodeWithFallbacks` returns: the first plausible decoding; else the UTF-8
      decoding; else, when that throws, the system default decoding. */
  function FallbackText(u: CharClasses, c: Codecs, bytes: seq<byte>): string {
    OrElse(FirstAccepted(Candidates(c), bytes, PlausibleTest(u)), c.utf8(bytes)).GetOr(c.systemDefault(bytes))
  }

  /** `TryDecodeWithFallbacks`. */
  method TryDecodeWithFallbacks(u: CharClasses, c: Codecs, bytes: seq<byte>) returns (s: string)
    ensures s == FallbackText(u, c, bytes)
  {
    var found := TryDecoders([c.windows1251, c.utf8, c.windows1252], bytes, PlausibleTest(u));
    if found.Some? {
      return found.value;
    }
    var utf8 := c.utf8(bytes);
    if utf8.Some? {
      return utf8.value;
    }
    return c.systemDefault(bytes);
  }

  /** The fallback text is plausible whenever some encoding gives a plausible text; only when none
      does can it be an implausible UTF-8 or system default decoding. */
  lemma FallbackTextPlausible(u: CharClasses, c: Codecs, bytes: seq<byte>)
    ensures var r := FallbackText(u, c, bytes);
            || Plausible(u, r)
            || ((forall i :: 0 <= i < 3 ==> Candidates(c)[i](bytes).None? || !Plausible(u, Candidates(c)[i](bytes).value))
                && (r == c.utf8(bytes).GetOr(c.systemDefault(bytes))))
  {
    FirstAcceptedNone(Candidates(c), bytes, PlausibleTest(u));
  }

  /** A plausible windows-1251 decoding is taken as it is. */
  lemma FallbackTextPrefersWindows1251(u: CharClasses, c: Codecs, bytes: seq<byte>)
    requires c.windows1251(bytes).Some? && Plausible(u, c.windows1251(bytes).value)
    ensures FallbackText(u, c, bytes) == c.windows1251(bytes).value
  {
    FirstAcceptedAt(Candidates(c), bytes, PlausibleTest(u), 0);
  }

  /** Lines 54-70 of the importer: a non-blank charset from the `Content-Type` header is used as
      it is, with no plausibility test; the fallbacks run only when none is declared or decoding
      with it throws. `decodeWith(name, bytes)` is `Encoding.GetEncoding(name).GetString(bytes)`.
      The text is the declared charset's decoding, a plausible text, or the plain UTF-8 (else
      system default) decoding. */
  function ThemesPageText(u: CharClasses, c: Codecs, decodeWith: (string, seq<byte>) -> Option<string>,
                          charset: Option<string>, bytes: seq<byte>): (r: string)
    ensures || (charset.Some? && decodeWith(charset.value, bytes) == Some(r))
            || Plausible(u, r)
            || r == c.utf8(bytes).GetOr(c.systemDefault(bytes))
  {
    FallbackTextPlausible(u, c, bytes);
    if !IsNullOrWhiteSpace(u, charset) && decodeWith(charset.value, bytes).Some? then
      decodeWith(charset.value, bytes).value
    else
      FallbackText(u, c, bytes)
  }

  /** The declared charset wins outright when it decodes, even to an implausible text; any other
      outcome is the fallback's, which is plausible unless no encoding gives a plausible text. */
  lemma ThemesPageTextSource(u: CharClasses, c: Codecs, decodeWith: (string, seq<byte>) -> Option<string>,
                             charset: Option<string>, bytes: seq<byte>)
    ensures var r := ThemesPageText(u, c, decodeWith, charset, bytes);
            if charset.Some? && !IsBlank(u, charset.value) && decodeWith(charset.value, bytes).Some?
            then r == decodeWith(charset.value, bytes).value
            else r == FallbackText(u, c, bytes)
                 && (Plausible(u, r) || r == c.utf8(bytes).GetOr(c.systemDefault(bytes)))
  {
    FallbackTextPlausible(u, c, bytes);
  }
}
