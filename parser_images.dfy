/** Choosing a question's picture (`FindQuestionImage` and its local `ChooseBest`) and naming the
    downloaded file (`DownloadImageAsync`). */
module ParserImages {
  import opened Wrappers
  import opened Search
  import opened Text
  import opened Dom

  /** The markers `ChooseBest` looks for, each compared ignoring case: an `alt` mentioning a
      picture ("картин"), a responsive-image class, or a `src` naming a traffic-rules image. */
  predicate IsPreferredImage(u: CharClasses, img: Node) {
    || ContainsIgnoreCase(u, Attr(img, "alt"), "картин")
    || ContainsIgnoreCase(u, Attr(img, "class"), "img-responsive")
    || ContainsIgnoreCase(u, Attr(img, "src"), "pdd-")
  }

  function PreferredImage(u: CharClasses): Node -> bool {
    (img: Node) => IsPreferredImage(u, img)
  }

  /** `ChooseBest`: the first image carrying any of the markers, else the first image, else null.
      The markers are not ranked against each other: an image matching only the `src` marker
      wins over a later one matching the `alt` marker. */
  function ChooseBest(u: CharClasses, imgs: seq<Node>): (r: Option<Node>)
    ensures r.None? <==> imgs == []
    ensures r.Some? ==> r.value in imgs
    ensures forall j :: 0 <= j < |imgs| && IsPreferredImage(u, imgs[j]) && NoneBefore(imgs, PreferredImage(u), j)
                        ==> r == Some(imgs[j])
    ensures imgs != [] && NoneBefore(imgs, PreferredImage(u), |imgs|) ==> r == Some(imgs[0])
  {
    match FirstIndex(imgs, PreferredImage(u))
    case Some(k) => Some(imgs[k])
    case None => if imgs == [] then None else Some(imgs[0])
  }

  /** `nodes.SelectMany(n => n.Descendants("img"))`. */
  function ImagesUnder(ns: seq<Node>): seq<Node> {
    if ns == [] then [] else DescendantsNamed(ns[0], "img") + ImagesUnder(ns[1..])
  }

  /** `s` repeated `n` times (`Enumerable.Range(0, n).SelectMany(_ => s)`). */
  function Repeat<T>(s: seq<T>, n: nat): (r: seq<T>)
    ensures |r| == |s| * n
  {
    if n == 0 then [] else s + Repeat(s, n - 1)
  }

  /** `FirstOrDefault()`. */
  function FirstOrNone<T>(s: seq<T>): Option<T> {
    if s == [] then None else Some(s[0])
  }

  /** Tier three: the first image below the header's parent's next sibling, enumerated eight times. */
  function NextSiblingImage(parentNext: seq<Node>): Option<Node> {
    FirstOrNone(if parentNext == [] then [] else Repeat(DescendantsNamed(parentNext[0], "img"), 8))
  }

  /** The eightfold repetition in tier three adds nothing: it is the first image of one copy. */
  lemma NextSiblingImageIsFirst(parentNext: seq<Node>)
    ensures parentNext == [] ==> NextSiblingImage(parentNext) == None
    ensures parentNext != [] ==> NextSiblingImage(parentNext) == FirstOrNone(DescendantsNamed(parentNext[0], "img"))
  {
    if parentNext != [] {
      var imgs := DescendantsNamed(parentNext[0], "img");
      if imgs != [] {
        assert Repeat(imgs, 8)[0] == imgs[0];
      }
    }
  }

  /** Tier four's XPath test `contains(translate(@alt, 'К', 'к'), 'картин')`: only the capital
      К is folded, unlike the case-insensitive comparison of tier one. */
  predicate AltMentionsPicture(img: Node) {
    Contains(ReplaceChar(Attr(img, "alt"), 'К', 'к'), "картин")
  }

  /** Tier four: the first image of the whole document whose `alt` mentions a picture. */
  function DocumentPictureImage(root: Node): Option<Node> {
    FirstWhere(DescendantsNamed(root, "img"), AltMentionsPicture)
  }

  /** `FindQuestionImage`: the first of the four tiers that yields an image. */
  function FindQuestionImage(u: CharClasses, header: Located, nodesBetween: seq<Node>, root: Node): (r: Option<Node>)
    ensures r.None? <==>
              && DescendantsNamed(header.parent, "img") == []
              && ImagesUnder(nodesBetween) == []
              && (header.parentNext == [] || DescendantsNamed(header.parentNext[0], "img") == [])
              && forall d :: d in DescendantsNamed(root, "img") ==> !AltMentionsPicture(d)
    ensures DescendantsNamed(header.parent, "img") != [] ==> r == ChooseBest(u, DescendantsNamed(header.parent, "img"))
    ensures r.Some? ==> r.value.kind == Element && r.value.name == "img"
  {
    NextSiblingImageIsFirst(header.parentNext);
    ImagesUnderAreImages(nodesBetween);
    OrElse(ChooseBest(u, DescendantsNamed(header.parent, "img")),
      OrElse(ChooseBest(u, ImagesUnder(nodesBetween)),
        OrElse(NextSiblingImage(header.parentNext), DocumentPictureImage(root))))
  }

  lemma {:induction false} ImagesUnderAreImages(ns: seq<Node>)
    ensures forall d :: d in ImagesUnder(ns) ==> d.kind == Element && d.name == "img"
  {
    if ns != [] {
      ImagesUnderAreImages(ns[1..]);
    }
  }

  // ---- the local file name of a downloaded picture ----

  /** `TrimStart('.', '/')`: drops every leading dot and slash. */
  function TrimDotsAndSlashes(s: string): (r: string)
    ensures |r| <= |s| && r == s[|s| - |r|..]
    ensures r == [] || (r[0] != '.' && r[0] != '/')
    ensures forall i :: 0 <= i < |s| - |r| ==> s[i] == '.' || s[i] == '/'
  {
    if s != [] && (s[0] == '.' || s[0] == '/') then TrimDotsAndSlashes(s[1..]) else s
  }

  /** The `src` as `DownloadImageAsync` resolves it: trimmed, without leading dots and slashes. */
  function RawSrc(u: CharClasses, img: Node): string {
    TrimDotsAndSlashes(Trim(u, Attr(img, "src")))
  }

  /** The extension, `.jpg` when the resolved URL has none. */
  function ExtensionOrJpg(ext: string): string {
    if ext == "" then ".jpg" else ext
  }

  /** `ticket{N}_q{M}{ext}`. */
  function ImageFileName(ticketNumber: nat, questionIndex: nat, ext: string): string {
    "ticket" + NatToString(ticketNumber) + "_q" + NatToString(questionIndex) + ExtensionOrJpg(ext)
  }

  /** `Path.Combine(dir, name)`: a separator is added unless `dir` is empty or already ends in one. */
  function CombinePath(dir: string, name: string, separator: char): string {
    if dir == [] then name
    else if dir[|dir| - 1] == separator || dir[|dir| - 1] == '/' then dir + name
    else dir + [separator] + name
  }

  /** The outside world as `DownloadImageAsync` sees it: the images directory, the platform's
      path separator, the extension of the URL a given `src` resolves to (URI resolution and
      `Path.GetExtension`), and whether fetching and writing the picture of a given `src` for a
      given ticket and question succeeds. Keying the outcome by ticket and question lets the same
      `src` succeed on one page and fail on another. */
  datatype ImageStore = ImageStore(
    imagesDir: string,
    separator: char,
    extensionOf: string -> string,
    downloadSucceeds: (nat, nat, string) -> bool)

  lemma CombinePathEndsWithName(dir: string, name: string, separator: char)
    ensures EndsWith(CombinePath(dir, name, separator), name)
  {
  }

  lemma ReplaceCharSuffix(s: string, k: nat, a: char, b: char)
    requires k <= |s|
    ensures ReplaceChar(s, a, b)[k..] == ReplaceChar(s[k..], a, b)
  {
  }

  /** The returned path ends with the file name, both with backslashes replaced, and has no
      backslash left. */
  lemma SavedPathEndsWithName(dir: string, name: string, separator: char)
    ensures var p := ReplaceChar(CombinePath(dir, name, separator), '\\', '/');
            '\\' !in p && EndsWith(p, ReplaceChar(name, '\\', '/'))
  {
    var path := CombinePath(dir, name, separator);
    CombinePathEndsWithName(dir, name, separator);
    ReplaceCharSuffix(path, |path| - |name|, '\\', '/');
    ReplaceCharRemoves(path, '\\', '/');
  }

  /** `DownloadImageAsync`: the saved path with every backslash turned into a slash, or null when
      the download failed. */
  function DownloadImage(u: CharClasses, store: ImageStore, img: Node, ticketNumber: nat, questionIndex: nat): (r: Option<string>)
    ensures r.Some? ==> '\\' !in r.value
    ensures r.Some? ==> EndsWith(r.value, ReplaceChar(ImageFileName(ticketNumber, questionIndex, store.extensionOf(RawSrc(u, img))), '\\', '/'))
    ensures r.Some? <==> store.downloadSucceeds(ticketNumber, questionIndex, RawSrc(u, img))
  {
    var raw := RawSrc(u, img);
    var name := ImageFileName(ticketNumber, questionIndex, store.extensionOf(raw));
    var path := CombinePath(store.imagesDir, name, store.separator);
    SavedPathEndsWithName(store.imagesDir, name, store.separator);
    if store.downloadSucceeds(ticketNumber, questionIndex, raw) then Some(ReplaceChar(path, '\\', '/')) else None
  }

  /** Length of the run of ASCII digits at the start of `s`. */
  function DigitRun(s: string): (n: nat)
    ensures n <= |s|
  {
    if s != [] && IsAsciiDigit(s[0]) then 1 + DigitRun(s[1..]) else 0
  }

  lemma {:induction false} DigitRunOfNumber(a: string, rest: string)
    requires forall i :: 0 <= i < |a| ==> IsAsciiDigit(a[i])
    requires rest == [] || !IsAsciiDigit(rest[0])
    ensures DigitRun(a + rest) == |a|
  {
    if a != [] {
      assert (a + rest)[1..] == a[1..] + rest;
      DigitRunOfNumber(a[1..], rest);
    } else {
      assert a + rest == rest;
    }
  }

  /** A printed number followed by a non-digit can be read back unambiguously. */
  lemma SplitNumber(m: nat, rest1: string, n: nat, rest2: string)
    requires rest1 == [] || !IsAsciiDigit(rest1[0])
    requires rest2 == [] || !IsAsciiDigit(rest2[0])
    requires NatToString(m) + rest1 == NatToString(n) + rest2
    ensures m == n && rest1 == rest2
  {
    var a1, a2 := NatToString(m), NatToString(n);
    DigitRunOfNumber(a1, rest1);
    DigitRunOfNumber(a2, rest2);
    assert a1 == (a1 + rest1)[..|a1|];
    assert a2 == (a2 + rest2)[..|a2|];
    NatToStringInjective(m, n);
    assert rest1 == (a1 + rest1)[|a1|..];
    assert rest2 == (a2 + rest2)[|a2|..];
  }

  /** Distinct (ticket, question) pairs get distinct file names, so no download overwrites
      another's file. */
  lemma ImageFileNameInjective(t1: nat, q1: nat, e1: string, t2: nat, q2: nat, e2: string)
    requires e1 == "" || e1[0] == '.'
    requires e2 == "" || e2[0] == '.'
    requires ImageFileName(t1, q1, e1) == ImageFileName(t2, q2, e2)
    ensures t1 == t2 && q1 == q2
  {
    var x1, x2 := ExtensionOrJpg(e1), ExtensionOrJpg(e2);
    var tail1, tail2 := "_q" + (NatToString(q1) + x1), "_q" + (NatToString(q2) + x2);
    ImageFileNameParts(t1, q1, e1);
    ImageFileNameParts(t2, q2, e2);
    CancelPrefix("ticket", NatToString(t1) + tail1, NatToString(t2) + tail2);
    SplitNumber(t1, tail1, t2, tail2);
    CancelPrefix("_q", NatToString(q1) + x1, NatToString(q2) + x2);
    SplitNumber(q1, x1, q2, x2);
  }

  /** The file name's parts, grouped from the right. */
  lemma ImageFileNameParts(t: nat, q: nat, e: string)
    ensures ImageFileName(t, q, e) == "ticket" + (NatToString(t) + ("_q" + (NatToString(q) + ExtensionOrJpg(e))))
  {
  }

  lemma CancelPrefix(p: string, x: string, y: string)
    requires p + x == p + y
    ensures x == y
  {
    assert x == (p + x)[|p|..];
  }
}
