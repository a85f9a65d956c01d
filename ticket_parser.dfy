/** The scraper's main loop: for every ticket page, find the question headers, cut the page into
    one span per header, build a question from each span and keep the non-empty ones. */
module TicketParser {
  import opened Wrappers
  import opened Search
  import opened Text
  import opened Dom
  import opened ParserSpan
  import opened ParserImages
  import opened ParserContent

  /** The number of ticket pages the scraper walks. */
  const TotalTickets := 40

  /** `QuestionDto`. */
  datatype Question = Question(
    text: string,
    imageUrl: Option<string>,
    explanation: Option<string>,
    answerOptions: seq<AnswerOption>)

  /** `TicketDto`. */
  datatype Ticket = Ticket(title: string, questions: seq<Question>)

  /** What the scraper depends on besides the page: the character tables, HtmlAgilityPack's
      `HtmlEntity.DeEntitize`, and the image download. */
  datatype ParserEnv = ParserEnv(u: CharClasses, deEntitize: string -> string, store: ImageStore)

  // ---- headers ----

  /** A question header: a `<b>` element whose text is not blank and names both a ticket and a
      question. */
  predicate IsHeader(u: CharClasses, l: Located) {
    var t := InnerText(l.node);
    IsElement(l.node) && l.node.name == "b" && !IsBlank(u, t) && Contains(t, "Билет") && Contains(t, "Вопрос")
  }

  /** `//b` filtered to the headers, in document order: exactly the nodes of the page that pass
      the header test. */
  function Headers(u: CharClasses, root: Node): (r: seq<Located>)
    ensures forall l :: l in r <==> l in Locate(root) && IsHeader(u, l)
  {
    var p := (l: Located) => IsHeader(u, l);
    FilterMembers(Locate(root), p);
    Filter(Locate(root), p)
  }

  /** The identity of the parent of the header after the `i`-th, where that header's span ends. */
  function EndParent(headers: seq<Located>, i: nat): Option<nat> {
    if i + 1 < |headers| then Some(headers[i + 1].parent.id) else None
  }

  // ---- questions ----

  /** The question the `i`-th header yields (before the keep test): text, image path, explanation
      and options are all read from the span between this header and the next. Its picture is
      saved under the question's 1-based position. */
  function QuestionAt(env: ParserEnv, ticketNumber: nat, root: Node, headers: seq<Located>, i: nat): Question
    requires i < |headers|
  {
    var start := headers[i];
    var nodes := NodesBetween(start.parent.children, start.node.id, start.parentNext, EndParent(headers, i));
    var image := FindQuestionImage(env.u, start, nodes, root);
    Question(
      QuestionText(env.u, env.deEntitize, nodes, start.node),
      if image.Some? then DownloadImage(env.u, env.store, image.value, ticketNumber, i + 1) else None,
      Explanation(env.u, nodes),
      Answers(env.u, env.deEntitize, nodes))
  }

  /** The keep test: a question is stored unless it is completely empty. */
  predicate KeepQuestion(u: CharClasses, q: Question) {
    || !IsBlank(u, q.text)
    || |q.answerOptions| > 0
    || !IsNullOrWhiteSpace(u, q.explanation)
    || !IsNullOrWhiteSpace(u, q.imageUrl)
  }

  /** The question of every header, kept or not, in header order. */
  function AllQuestions(env: ParserEnv, ticketNumber: nat, root: Node, headers: seq<Located>): (r: seq<Question>)
    ensures |r| == |headers|
  {
    seq(|headers|, i requires 0 <= i < |headers| => QuestionAt(env, ticketNumber, root, headers, i))
  }

  lemma AllQuestionsAt(env: ParserEnv, ticketNumber: nat, root: Node, headers: seq<Located>, i: nat)
    requires i < |headers|
    ensures AllQuestions(env, ticketNumber, root, headers)[i] == QuestionAt(env, ticketNumber, root, headers, i)
  {
  }

  function Keep(u: CharClasses): Question -> bool {
    (q: Question) => KeepQuestion(u, q)
  }

  /** The title of ticket `n`. */
  function TicketTitle(ticketNumber: nat): string {
    "Билет " + NatToString(ticketNumber)
  }

  /** What one ticket page yields: nothing when it has no header, else the titled ticket holding
      the non-empty questions in header order. */
  function TicketOf(env: ParserEnv, ticketNumber: nat, root: Node): Option<Ticket> {
    var headers := Headers(env.u, root);
    if headers == [] then None
    else Some(Ticket(TicketTitle(ticketNumber), Filter(AllQuestions(env, ticketNumber, root, headers), Keep(env.u))))
  }

  /** One pass of the header loop: collect the span after the `i`-th header, read the options,
      text and explanation out of it, and download the picture when one is found. */
  method ReadQuestion(env: ParserEnv, ticketNumber: nat, root: Node, headers: seq<Located>, i: nat)
    returns (question: Question)
    requires i < |headers|
    ensures question == AllQuestions(env, ticketNumber, root, headers)[i]
  {
    AllQuestionsAt(env, ticketNumber, root, headers, i);
    var start := headers[i];
    var end := EndParent(headers, i);
    var nodes := GetNodesBetween(start.parent.children, start.node.id, start.parentNext, end);
    var options := ExtractAnswerOptions(env.u, env.deEntitize, nodes);
    question := Question(QuestionText(env.u, env.deEntitize, nodes, start.node), None, Explanation(env.u, nodes), options);
    var imgNode := FindQuestionImage(env.u, start, nodes, root);
    if imgNode.Some? {
      question := question.(imageUrl := DownloadImage(env.u, env.store, imgNode.value, ticketNumber, i + 1));
    }
  }

  /** The header loop: read each header's question in turn and append it unless it is empty. */
  method KeptQuestions(env: ParserEnv, ticketNumber: nat, root: Node, headers: seq<Located>)
    returns (questions: seq<Question>)
    ensures questions == Filter(AllQuestions(env, ticketNumber, root, headers), Keep(env.u))
  {
    ghost var all := AllQuestions(env, ticketNumber, root, headers);
    questions := [];
    for i := 0 to |headers|
      invariant questions == Filter(all[..i], Keep(env.u))
    {
      var question := ReadQuestion(env, ticketNumber, root, headers, i);
      FilterSnoc(all, Keep(env.u), i);
      if KeepQuestion(env.u, question) {
        questions := questions + [question];
      }
    }
    assert all[..|headers|] == all;
  }

  /** The body of the ticket loop for one page: select the headers; with none, skip the page;
      otherwise collect the kept questions under the ticket's title. */
  method ExtractTicket(env: ParserEnv, ticketNumber: nat, root: Node) returns (ticket: Option<Ticket>)
    ensures ticket == TicketOf(env, ticketNumber, root)
  {
    var headers := Headers(env.u, root);
    if |headers| == 0 {
      return None;
    }
    var questions := KeptQuestions(env, ticketNumber, root, headers);
    ticket := Some(Ticket(TicketTitle(ticketNumber), questions));
  }

  /** Every stored question passes the keep test, and every question of the page that passes it
      is stored. */
  lemma KeptQuestionsAreNonEmpty(env: ParserEnv, ticketNumber: nat, root: Node)
    requires TicketOf(env, ticketNumber, root).Some?
    ensures var t := TicketOf(env, ticketNumber, root).value;
            var all := AllQuestions(env, ticketNumber, root, Headers(env.u, root));
            forall q :: q in t.questions <==> q in all && KeepQuestion(env.u, q)
  {
    FilterMembers(AllQuestions(env, ticketNumber, root, Headers(env.u, root)), Keep(env.u));
  }

  /** `path` names the file `ticket{N}_q{M}` with some extension, backslashes turned into slashes. */
  ghost predicate SavedAs(path: string, ticketNumber: nat, questionIndex: nat) {
    exists ext :: EndsWith(path, ReplaceChar(ImageFileName(ticketNumber, questionIndex, ext), '\\', '/'))
  }

  /** A question's picture is saved as `ticket{N}_q{i+1}` plus the extension, with backslashes
      turned into slashes, and only when the image search found a picture. */
  lemma QuestionImagePath(env: ParserEnv, ticketNumber: nat, root: Node, headers: seq<Located>, i: nat)
    requires i < |headers|
    ensures var q := QuestionAt(env, ticketNumber, root, headers, i);
            q.imageUrl.Some? ==> '\\' !in q.imageUrl.value && SavedAs(q.imageUrl.value, ticketNumber, i + 1)
  {
    var start := headers[i];
    var nodes := NodesBetween(start.parent.children, start.node.id, start.parentNext, EndParent(headers, i));
    var image := FindQuestionImage(env.u, start, nodes, root);
    if image.Some? {
      var r := DownloadImage(env.u, env.store, image.value, ticketNumber, i + 1);
      if r.Some? {
        var ext := env.store.extensionOf(RawSrc(env.u, image.value));
        assert EndsWith(r.value, ReplaceChar(ImageFileName(ticketNumber, i + 1, ext), '\\', '/'));
        assert SavedAs(r.value, ticketNumber, i + 1);
      }
    }
  }

  /** The `i`-th question is read from the `i`-th header and its own span only: its text is the
      trimmed, decoded text of that header or of a node of the span, every option comes from a
      numbered answer `div` of the span, a non-null explanation is the raw text of a hint node of
      the span, and its picture, when saved, is named after ticket `N` and question `i + 1`. */
  lemma QuestionFromItsSpan(env: ParserEnv, ticketNumber: nat, root: Node, headers: seq<Located>, i: nat)
    requires i < |headers|
    ensures var q := AllQuestions(env, ticketNumber, root, headers)[i];
            var start := headers[i];
            var nodes := NodesBetween(start.parent.children, start.node.id, start.parentNext, EndParent(headers, i));
            && (exists n :: (n == start.node || n in nodes) && q.text == env.deEntitize(Trim(env.u, InnerText(n))))
            && (forall o :: o in q.answerOptions ==>
                  exists n :: n in nodes && IsAnswerDiv(env.u, n) && AnswerOf(env.u, env.deEntitize, n) == Some(o))
            && (q.explanation.Some? ==> exists n :: n in nodes && IsHint(env.u, n) && q.explanation.value == InnerText(n))
            && (q.imageUrl.Some? ==> '\\' !in q.imageUrl.value && SavedAs(q.imageUrl.value, ticketNumber, i + 1))
  {
    AllQuestionsAt(env, ticketNumber, root, headers, i);
    var start := headers[i];
    var nodes := NodesBetween(start.parent.children, start.node.id, start.parentNext, EndParent(headers, i));
    QuestionTextSource(env.u, env.deEntitize, nodes, start.node);
    AnswersFromDivs(env.u, env.deEntitize, nodes);
    var hint := FirstIndex(nodes, Hint(env.u));
    if hint.Some? {
      assert nodes[hint.value] in nodes;
    }
    QuestionImagePath(env, ticketNumber, root, headers, i);
  }

  // ---- all tickets ----

  /** What each of the pages yields, page `k` holding ticket `k + 1`. */
  function Outcomes(env: ParserEnv, pages: seq<Node>): (r: seq<Option<Ticket>>)
    ensures |r| == |pages|
    ensures forall k :: 0 <= k < |pages| ==> r[k] == TicketOf(env, k + 1, pages[k])
  {
    seq(|pages|, k requires 0 <= k < |pages| => TicketOf(env, k + 1, pages[k]))
  }

  /** The outer loop of the scraper over ticket numbers 1 to 40, given each page already parsed:
      the tickets of the pages that have headers, in page order. Every ticket it collects is also
      the one it posts. */
  method ScrapeTickets(env: ParserEnv, pages: seq<Node>) returns (allTickets: seq<Ticket>)
    requires |pages| == TotalTickets
    ensures allTickets == Somes(Outcomes(env, pages))
  {
    ghost var outcomes := Outcomes(env, pages);
    allTickets := [];
    for ticketNumber := 1 to TotalTickets + 1
      invariant allTickets == Somes(outcomes[..ticketNumber - 1])
    {
      SomesSnoc(outcomes, ticketNumber - 1);
      var ticket := ExtractTicket(env, ticketNumber, pages[ticketNumber - 1]);
      if ticket.None? {
        continue;
      }
      allTickets := allTickets + [ticket.value];
    }
    assert outcomes[..TotalTickets] == outcomes;
  }

  /** No two collected tickets share a title: each carries the number of a different page. */
  lemma TicketTitlesDistinct(env: ParserEnv, pages: seq<Node>, k: nat, l: nat)
    requires k < l < |Somes(Outcomes(env, pages))|
    ensures Somes(Outcomes(env, pages))[k].title != Somes(Outcomes(env, pages))[l].title
  {
    var outcomes := Outcomes(env, pages);
    var ts, ps := Somes(outcomes), SomePositions(outcomes);
    SomesOrigin(outcomes);
    TicketOfTitle(env, ps[k] + 1, pages[ps[k]]);
    TicketOfTitle(env, ps[l] + 1, pages[ps[l]]);
    if ts[k].title == ts[l].title {
      TicketTitleInjective(ps[k] + 1, ps[l] + 1);
    }
  }

  /** A page's ticket is titled with the page's number. */
  lemma TicketOfTitle(env: ParserEnv, ticketNumber: nat, root: Node)
    ensures TicketOf(env, ticketNumber, root).Some? ==> TicketOf(env, ticketNumber, root).value.title == TicketTitle(ticketNumber)
  {
  }

  /** Different ticket numbers give different titles. */
  lemma TicketTitleInjective(m: nat, n: nat)
    requires TicketTitle(m) == TicketTitle(n)
    ensures m == n
  {
    assert NatToString(m) == TicketTitle(m)[6..];
    assert NatToString(n) == TicketTitle(n)[6..];
    NatToStringInjective(m, n);
  }
}
