/** What the scraper reads out of a question's span: the question text (`ExtractQuestionText`),
    the answer options (`ExtractAnswerOptions`) and the explanation (the `idDivHint` lookup). */
module ParserContent {
  import opened Wrappers
  import opened Search
  import opened Text
  import opened Dom

  // ---- the two numbering patterns ----

  /** `s` starts with `a` white-space characters, then `b > 0` digits, then a dot. */
  ghost predicate NumberedAt(u: CharClasses, s: string, a: nat, b: nat) {
    && 0 < b && a + b < |s|
    && (forall i :: 0 <= i < a ==> u.isSpace(s[i]))
    && (forall i :: a <= i < a + b ==> u.isDigit(s[i]))
    && s[a + b] == '.'
  }

  /** The match of `^\s*\d+\.\s*` is `s[..k]`: a numbering, then the longest run of white space. */
  ghost predicate NumberingMatch(u: CharClasses, s: string, a: nat, b: nat, k: nat) {
    && NumberedAt(u, s, a, b)
    && a + b + 1 <= k <= |s|
    && (forall i :: a + b + 1 <= i < k ==> u.isSpace(s[i]))
    && (k == |s| || !u.isSpace(s[k]))
  }

  /** Length of the text `^\s*\d+\.\s*` matches at the start of `s`, or None when it does not match. */
  function NumberingPrefix(u: CharClasses, s: string): (r: Option<nat>)
    ensures r.Some? ==> 2 <= r.value <= |s| && (s[r.value - 1] == '.' || u.isSpace(s[r.value - 1]))
  {
    var a := RunOf(s, u.isSpace);
    var b := RunOf(s[a..], u.isDigit);
    if b == 0 || a + b >= |s| || s[a + b] != '.' then None
    else Some(a + b + 1 + RunOf(s[a + b + 1..], u.isSpace))
  }

  /** What `NumberingPrefix` reports is a match of the regular expression. */
  lemma NumberingPrefixIsMatch(u: CharClasses, s: string)
    ensures NumberingPrefix(u, s).Some? ==> exists a: nat, b: nat :: NumberingMatch(u, s, a, b, NumberingPrefix(u, s).value)
  {
    if NumberingPrefix(u, s).Some? {
      var a0 := RunOf(s, u.isSpace);
      var b0 := RunOf(s[a0..], u.isDigit);
      assert NumberingMatch(u, s, a0, b0, NumberingPrefix(u, s).value);
    }
  }

  /** `NumberingPrefix` finds a match whenever the text starts with a numbering. */
  lemma NumberingPrefixFindsMatch(u: CharClasses, s: string, a: nat, b: nat)
    requires u.Valid()
    requires NumberedAt(u, s, a, b)
    ensures NumberingPrefix(u, s).Some?
  {
    NumberedAtIsGreedy(u, s, a, b);
  }

  /** The pattern matches at most one length, and that is the one `NumberingPrefix` reports. */
  lemma NumberingPrefixIsUnique(u: CharClasses, s: string, a: nat, b: nat, k: nat)
    requires u.Valid()
    requires NumberingMatch(u, s, a, b, k)
    ensures NumberingPrefix(u, s) == Some(k)
  {
    NumberedAtIsGreedy(u, s, a, b);
  }

  /** The white space and digits of a numbering are the longest such runs. */
  lemma NumberedAtIsGreedy(u: CharClasses, s: string, a: nat, b: nat)
    requires u.Valid()
    requires NumberedAt(u, s, a, b)
    ensures a == RunOf(s, u.isSpace)
    ensures b == RunOf(s[a..], u.isDigit)
  {
    RunOfIsLongest(s, u.isSpace, a);
    RunOfIsLongest(s[a..], u.isDigit, b);
  }

  /** `Regex.IsMatch(t, @"^\d+\.\s")`: a number, a dot and one white-space character. */
  predicate StartsNumbered(u: CharClasses, t: string) {
    var b := RunOf(t, u.isDigit);
    0 < b && b + 1 < |t| && t[b] == '.' && u.isSpace(t[b + 1])
  }

  /** `StartsNumbered` agrees with the pattern: a numbering with no leading space followed by
      white space. */
  lemma StartsNumberedIsMatch(u: CharClasses, t: string)
    requires u.Valid()
    ensures StartsNumbered(u, t) <==> exists b: nat :: NumberedAt(u, t, 0, b) && b + 1 < |t| && u.isSpace(t[b + 1])
  {
    var b0 := RunOf(t, u.isDigit);
    if StartsNumbered(u, t) {
      assert NumberedAt(u, t, 0, b0);
    }
    forall b: nat | NumberedAt(u, t, 0, b) && b + 1 < |t| && u.isSpace(t[b + 1])
      ensures StartsNumbered(u, t)
    {
      NumberedAtIsGreedy(u, t, 0, b);
      assert t[0..] == t;
    }
  }

  // ---- the question text ----

  /** A `div` whose lower-cased style asks for bold text. */
  predicate IsBoldTextDiv(u: CharClasses, n: Node) {
    n.name == "div" && Contains(Lower(u, Attr(n, "style")), "font-weight: bold")
  }

  function BoldTextDiv(u: CharClasses): Node -> bool {
    (n: Node) => IsBoldTextDiv(u, n)
  }

  /** A trimmed text long enough to be a question and not an answer's numbering. */
  predicate IsQuestionCandidate(u: CharClasses, t: string) {
    t != [] && |t| > 10 && !StartsNumbered(u, t)
  }

  /** An element whose trimmed text is a question candidate. */
  predicate HasCandidateText(u: CharClasses, n: Node) {
    IsElement(n) && IsQuestionCandidate(u, Trim(u, InnerText(n)))
  }

  function CandidateNode(u: CharClasses): Node -> bool {
    (n: Node) => HasCandidateText(u, n)
  }

  /** `ExtractQuestionText`: the first bold `div`; failing that, the first element with a
      candidate text; failing that, the header itself. The chosen text is trimmed and then
      entity-decoded. */
  function QuestionText(u: CharClasses, deEntitize: string -> string, nodes: seq<Node>, header: Node): string {
    match FirstIndex(nodes, BoldTextDiv(u))
    case Some(k) => deEntitize(Trim(u, InnerText(nodes[k])))
    case None =>
      match FirstIndex(nodes, CandidateNode(u))
      case Some(k) => deEntitize(Trim(u, InnerText(nodes[k])))
      case None => deEntitize(Trim(u, InnerText(header)))
  }

  /** The question text always comes from the header or a node of the span, trimmed and decoded. */
  lemma QuestionTextSource(u: CharClasses, deEntitize: string -> string, nodes: seq<Node>, header: Node)
    ensures exists n :: (n == header || n in nodes) && QuestionText(u, deEntitize, nodes, header) == deEntitize(Trim(u, InnerText(n)))
  {
    var r := QuestionText(u, deEntitize, nodes, header);
    match FirstIndex(nodes, BoldTextDiv(u))
    case Some(k) =>
      assert nodes[k] in nodes && r == deEntitize(Trim(u, InnerText(nodes[k])));
    case None =>
      match FirstIndex(nodes, CandidateNode(u))
      case Some(k) =>
        assert nodes[k] in nodes && r == deEntitize(Trim(u, InnerText(nodes[k])));
      case None =>
        assert r == deEntitize(Trim(u, InnerText(header)));
  }

  /** First priority: the first bold `div` wins, whatever else the span holds. */
  lemma QuestionTextFromBoldDiv(u: CharClasses, deEntitize: string -> string, nodes: seq<Node>, header: Node, j: nat)
    requires j < |nodes| && IsBoldTextDiv(u, nodes[j]) && NoneBefore(nodes, BoldTextDiv(u), j)
    ensures QuestionText(u, deEntitize, nodes, header) == deEntitize(Trim(u, InnerText(nodes[j])))
  {
    FirstIndexAt(nodes, BoldTextDiv(u), j);
  }

  /** Second priority: with no bold `div`, the first element with a candidate text. */
  lemma QuestionTextFromCandidate(u: CharClasses, deEntitize: string -> string, nodes: seq<Node>, header: Node, j: nat)
    requires NoneBefore(nodes, BoldTextDiv(u), |nodes|)
    requires j < |nodes| && HasCandidateText(u, nodes[j]) && NoneBefore(nodes, CandidateNode(u), j)
    ensures QuestionText(u, deEntitize, nodes, header) == deEntitize(Trim(u, InnerText(nodes[j])))
    ensures |Trim(u, InnerText(nodes[j]))| > 10 && !StartsNumbered(u, Trim(u, InnerText(nodes[j])))
  {
    FirstIndexAt(nodes, CandidateNode(u), j);
  }

  /** Last resort: with neither, the header's own text. */
  lemma QuestionTextFromHeader(u: CharClasses, deEntitize: string -> string, nodes: seq<Node>, header: Node)
    requires NoneBefore(nodes, BoldTextDiv(u), |nodes|) && NoneBefore(nodes, CandidateNode(u), |nodes|)
    ensures QuestionText(u, deEntitize, nodes, header) == deEntitize(Trim(u, InnerText(header)))
  {
    FirstIndexNone(nodes, BoldTextDiv(u));
    FirstIndexNone(nodes, CandidateNode(u));
  }

  // ---- the answer options ----

  /** `AnswerOptionDto`. */
  datatype AnswerOption = AnswerOption(text: string, isCorrect: bool)

  /** A `div` whose lower-cased style carries the answer padding. */
  predicate IsAnswerDiv(u: CharClasses, n: Node) {
    n.name == "div" && Contains(Lower(u, Attr(n, "style")), "padding:5px")
  }

  /** The correctness rule: a green style, or any bold element inside. */
  predicate IsMarkedCorrect(u: CharClasses, n: Node) {
    Contains(Lower(u, Attr(n, "style")), "forestgreen") || DescendantsNamed(n, "b") != []
  }

  /** The option an answer `div` yields: none when its trimmed text has no numbering, else the
      text after the numbering (entity-decoded) and the correctness mark. */
  function AnswerOf(u: CharClasses, deEntitize: string -> string, n: Node): (r: Option<AnswerOption>)
    ensures r.Some? <==> NumberingPrefix(u, Trim(u, InnerText(n))).Some?
    ensures r.Some? ==> r.value.isCorrect == IsMarkedCorrect(u, n)
    ensures r.Some? ==> var raw := Trim(u, InnerText(n));
                        r.value.text == deEntitize(raw[NumberingPrefix(u, raw).value..])
  {
    var raw := Trim(u, InnerText(n));
    match NumberingPrefix(u, raw)
    case None => None
    case Some(k) => Some(AnswerOption(deEntitize(raw[k..]), IsMarkedCorrect(u, n)))
  }

  /** A node that contributes an option. */
  predicate YieldsAnswer(u: CharClasses, deEntitize: string -> string, n: Node) {
    IsAnswerDiv(u, n) && AnswerOf(u, deEntitize, n).Some?
  }

  function Yields(u: CharClasses, deEntitize: string -> string): Node -> bool {
    (n: Node) => YieldsAnswer(u, deEntitize, n)
  }

  /** The option a node contributes: none unless it is a numbered answer `div`. */
  function AnswerFrom(u: CharClasses, deEntitize: string -> string): Node -> Option<AnswerOption> {
    (n: Node) => if IsAnswerDiv(u, n) then AnswerOf(u, deEntitize, n) else None
  }

  /** The options `ExtractAnswerOptions` lists for `nodes`. */
  function Answers(u: CharClasses, deEntitize: string -> string, nodes: seq<Node>): seq<AnswerOption> {
    Collect(nodes, AnswerFrom(u, deEntitize))
  }

  /** `ExtractAnswerOptions`: one pass over the nodes, appending an option per numbered answer `div`. */
  method ExtractAnswerOptions(u: CharClasses, deEntitize: string -> string, nodes: seq<Node>)
    returns (list: seq<AnswerOption>)
    ensures list == Answers(u, deEntitize, nodes)
  {
    ghost var from := AnswerFrom(u, deEntitize);
    list := [];
    for i := 0 to |nodes|
      invariant list == Collect(nodes[..i], from)
    {
      CollectSnoc(nodes, from, i);
      var a := nodes[i];
      if !IsAnswerDiv(u, a) {
        continue;
      }
      var raw := Trim(u, InnerText(a));
      var k := NumberingPrefix(u, raw);
      if k.None? {
        assert from(a).None?;
        continue;
      }
      var text := raw[k.value..];
      var isCorrect := IsMarkedCorrect(u, a);
      assert from(a) == Some(AnswerOption(deEntitize(text), isCorrect));
      list := list + [AnswerOption(deEntitize(text), isCorrect)];
    }
    assert nodes[..|nodes|] == nodes;
  }

  /** Options keep the order of their `div`s: the options of two consecutive stretches of nodes
      are those of the first followed by those of the second. */
  lemma AnswersAppend(u: CharClasses, deEntitize: string -> string, xs: seq<Node>, ys: seq<Node>)
    ensures Answers(u, deEntitize, xs + ys) == Answers(u, deEntitize, xs) + Answers(u, deEntitize, ys)
  {
    CollectAppend(xs, ys, AnswerFrom(u, deEntitize));
  }

  /** Exactly one option per qualifying `div`: as many options as nodes that yield one. */
  lemma AnswersCount(u: CharClasses, deEntitize: string -> string, nodes: seq<Node>)
    ensures |Answers(u, deEntitize, nodes)| == |Filter(nodes, Yields(u, deEntitize))|
  {
    CollectCount(nodes, AnswerFrom(u, deEntitize), Yields(u, deEntitize));
  }

  /** Every option comes from an answer `div` among the nodes, with that `div`'s text and mark. */
  lemma AnswersFromDivs(u: CharClasses, deEntitize: string -> string, nodes: seq<Node>)
    ensures forall o :: o in Answers(u, deEntitize, nodes) ==>
              exists n :: n in nodes && IsAnswerDiv(u, n) && AnswerOf(u, deEntitize, n) == Some(o)
  {
    var from := AnswerFrom(u, deEntitize);
    CollectOrigin(nodes, from);
    forall o | o in Answers(u, deEntitize, nodes)
      ensures exists n :: n in nodes && IsAnswerDiv(u, n) && AnswerOf(u, deEntitize, n) == Some(o)
    {
      var n :| n in nodes && from(n) == Some(o);
      assert IsAnswerDiv(u, n);
    }
  }

  // ---- the explanation ----

  /** A node whose `id` is non-empty and starts with `idDivHint`, ignoring case. */
  predicate IsHint(u: CharClasses, n: Node) {
    Attr(n, "id") != "" && StartsWithIgnoreCase(u, Attr(n, "id"), "idDivHint")
  }

  function Hint(u: CharClasses): Node -> bool {
    (n: Node) => IsHint(u, n)
  }

  /** The explanation: the raw inner text of the first hint node, or null when there is none. */
  function Explanation(u: CharClasses, nodes: seq<Node>): (r: Option<string>)
    ensures r.None? <==> NoneBefore(nodes, Hint(u), |nodes|)
  {
    match FirstIndex(nodes, Hint(u))
    case None => None
    case Some(k) => Some(InnerText(nodes[k]))
  }

  /** The first hint node gives the explanation, as its raw inner text. */
  lemma ExplanationFromHint(u: CharClasses, nodes: seq<Node>, j: nat)
    requires j < |nodes| && IsHint(u, nodes[j]) && NoneBefore(nodes, Hint(u), j)
    ensures Explanation(u, nodes) == Some(InnerText(nodes[j]))
  {
    FirstIndexAt(nodes, Hint(u), j);
  }
}
