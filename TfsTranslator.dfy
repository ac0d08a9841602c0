/**
 * The TFS check-in translator: accepts messages whose User-Agent names Team
 * Foundation, pulls the embedded check-in event out of the HTML-encoded body,
 * maps it to one commit record, and always answers with the SOAP
 * NotifyResponse acknowledgment.
 */
module TfsTranslator {
  import opened Wrappers
  import opened Text
  import opened CommitTypes
  import opened Translation
  import opened Xml
  import opened Platform

  const UserAgentHeader := "User-Agent"
  const UserAgentPrefix := "Team Foundation"
  const EventOpen := "<eventXml>"
  const EventClose := "</eventXml>"
  const ParseFailureReason := "It was not possible to parse the message."
  const SoapContentType := "application/soap+xml; charset=utf-8"
  const XmlDeclaration := "<?xml version=\"1.0\"?>"
  const SoapResponseBody :=
    XmlDeclaration +
    "<s:Envelope xmlns:a=\"http://www.w3.org/2005/08/addressing\" xmlns:s=\"http://www.w3.org/2003/05/soap-envelope\"><s:Header><a:Action s:mustUnderstand=\"1\">http://schemas.microsoft.com/TeamFoundation/2005/06/Services/Notification/03/IService/NotifyResponse</a:Action></s:Header><s:Body xmlns:xsd=\"http://www.w3.org/2001/XMLSchema\" xmlns:xsi=\"http://www.w3.org/2001/XMLSchema-instance\"><NotifyResponse xmlns=\"http://schemas.microsoft.com/TeamFoundation/2005/06/Services/Notification/03\"/></s:Body>" +
    "</s:Envelope>"

  /** `string.IsNullOrEmpty(body)`. */
  predicate IsNullOrEmpty(body: Option<string>)
    ensures IsNullOrEmpty(body) <==> body == None || body == Some("")
  {
    body.None? || body.value == ""
  }

  // ---------------------------------------------------------------------------
  // Capability check
  // ---------------------------------------------------------------------------

  /** `Headers["User-Agent"].StartsWith("Team Foundation")`; the indexer throws on a missing key. */
  function IsUserAgentFromTfs(message: InboundMessage): (r: Outcome<bool>)
    ensures r.Threw? <==> UserAgentHeader !in message.headers
    ensures r.Threw? ==> r.exc == KeyNotFound(UserAgentHeader)
    ensures r == Returned(true) <==>
              UserAgentHeader in message.headers && StartsWith(message.headers[UserAgentHeader], UserAgentPrefix)
  {
    if UserAgentHeader in message.headers then
      Returned(StartsWith(message.headers[UserAgentHeader], UserAgentPrefix))
    else
      Threw(KeyNotFound(UserAgentHeader))
  }

  /**
   * A null or empty body is never processable; otherwise the answer is the
   * User-Agent test alone (the body's content is not looked at).
   */
  function CanProcess(message: InboundMessage): (r: Outcome<bool>)
    ensures IsNullOrEmpty(message.body) ==> r == Returned(false)
    ensures r == Returned(true) <==>
              !IsNullOrEmpty(message.body) && UserAgentHeader in message.headers &&
              StartsWith(message.headers[UserAgentHeader], UserAgentPrefix)
    ensures r.Threw? <==> !IsNullOrEmpty(message.body) && UserAgentHeader !in message.headers
  {
    if IsNullOrEmpty(message.body) then Returned(false) else IsUserAgentFromTfs(message)
  }

  /** Two non-empty bodies under the same headers get the same answer, whatever they say. */
  lemma CanProcessIgnoresBodyContent(m1: InboundMessage, m2: InboundMessage)
    requires !IsNullOrEmpty(m1.body) && !IsNullOrEmpty(m2.body)
    requires m1.headers == m2.headers
    ensures CanProcess(m1) == CanProcess(m2)
  {
  }

  /** The User-Agent a TFS job agent sends is accepted; an unrelated one is refused. */
  lemma CanProcessExamples(body: string)
    requires body != ""
    ensures CanProcess(InboundMessage(Some(body), map[UserAgentHeader := "Team Foundation (TfsJobAgent.exe, 10.0.40219.1)"]))
            == Returned(true)
    ensures CanProcess(InboundMessage(Some(body), map[UserAgentHeader := "nonsense"])) == Returned(false)
  {
    var tfs := "Team Foundation (TfsJobAgent.exe, 10.0.40219.1)";
    assert tfs[..|UserAgentPrefix|] == UserAgentPrefix;
    assert "nonsense"[0] != UserAgentPrefix[0];
  }

  /** As written, a non-empty body without a User-Agent header makes CanProcess throw. */
  lemma CanProcessThrowsWithoutUserAgent()
    ensures CanProcess(InboundMessage(Some("x"), map[])) == Threw(KeyNotFound(UserAgentHeader))
  {
  }

  /**
   * The capability check as a translator is meant to behave: a missing
   * User-Agent means "cannot process" instead of an exception. It agrees with
   * CanProcess wherever CanProcess returns.
   */
  function CanProcessWithoutThrowing(message: InboundMessage): (r: bool)
    ensures r <==> CanProcess(message) == Returned(true)
    ensures CanProcess(message).Returned? ==> r == CanProcess(message).value
    ensures UserAgentHeader !in message.headers ==> !r
  {
    !IsNullOrEmpty(message.body) && UserAgentHeader in message.headers &&
    StartsWith(message.headers[UserAgentHeader], UserAgentPrefix)
  }

  // ---------------------------------------------------------------------------
  // The `(?<=<eventXml>).*?(?=<\/eventXml>)` extraction
  // ---------------------------------------------------------------------------

  /** Position `i` is just after an `<eventXml>` (the lookbehind holds there). */
  predicate OpensAt(s: string, i: int) {
    |EventOpen| <= i <= |s| && s[i - |EventOpen|..i] == EventOpen
  }

  /** A `</eventXml>` starts at position `j` (the lookahead holds there). */
  predicate ClosesAt(s: string, j: int) {
    0 <= j && j + |EventClose| <= |s| && s[j..j + |EventClose|] == EventClose
  }

  /** `s[i..j]` is a candidate match: opened, closed, and free of newlines (`.` stops at `\n`). */
  predicate IsEventSpan(s: string, i: int, j: int) {
    OpensAt(s, i) && i <= j && ClosesAt(s, j) && '\n' !in s[i..j]
  }

  /** The lazy `.*?` from position `j`: the nearest close tag reachable without crossing a newline. */
  function LazyEnd(s: string, j: nat): (r: Option<nat>)
    requires j <= |s|
    ensures r.Some? ==> j <= r.value <= |s| && ClosesAt(s, r.value) && '\n' !in s[j..r.value]
    ensures r.Some? ==> forall k :: j <= k < r.value ==> !ClosesAt(s, k)
    ensures r.None? ==> forall k :: j <= k <= |s| && '\n' !in s[j..k] ==> !ClosesAt(s, k)
    decreases |s| - j
  {
    if ClosesAt(s, j) then Some(j)
    else if j < |s| && s[j] != '\n' then
      var r := LazyEnd(s, j + 1);
      assert forall k :: j + 1 <= k <= |s| ==> s[j..k] == [s[j]] + s[j + 1..k];
      r
    else None
  }

  /**
   * The regex engine's scan: try each start position from `i` on; the first
   * that has a match wins, with its shortest span.
   */
  function MatchFrom(s: string, i: nat): (r: Option<(nat, nat)>)
    requires i <= |s|
    ensures r.Some? ==>
              var (a, b) := r.value;
              i <= a && IsEventSpan(s, a, b) &&
              forall a', b' :: i <= a' && IsEventSpan(s, a', b') ==> a < a' || (a == a' && b <= b')
    ensures r.None? ==> forall a', b' :: i <= a' ==> !IsEventSpan(s, a', b')
    decreases |s| - i
  {
    if OpensAt(s, i) && LazyEnd(s, i).Some? then Some((i, LazyEnd(s, i).value))
    else if i < |s| then MatchFrom(s, i + 1)
    else None
  }

  /**
   * `_eventPattern.Match(s)`: the leftmost start position that has a match
   * and, there, the shortest span; nothing exactly when no candidate span exists.
   */
  function EventMatch(s: string): (r: Option<(nat, nat)>)
    ensures r.Some? ==>
              var (i, j) := r.value;
              IsEventSpan(s, i, j) &&
              forall i', j' :: IsEventSpan(s, i', j') ==> i < i' || (i == i' && j <= j')
    ensures r.None? <==> forall i', j' :: !IsEventSpan(s, i', j')
  {
    MatchFrom(s, 0)
  }

  /**
   * `match.Value`: the leftmost-shortest candidate span, or the empty string
   * when there is none; it never holds a newline.
   */
  function MatchValue(s: string): (t: string)
    ensures '\n' !in t
    ensures (forall i, j :: !IsEventSpan(s, i, j)) ==> t == ""
    ensures forall i, j ::
              IsEventSpan(s, i, j) &&
              (forall i', j' :: IsEventSpan(s, i', j') ==> i < i' || (i == i' && j <= j')) ==>
              t == s[i..j]
  {
    match EventMatch(s)
    case Some((i, j)) => s[i..j]
    case None => ""
  }

  /**
   * A one-line fragment between the two tags is exactly what is extracted, as
   * long as it holds no closing tag of its own (XML markup is allowed).
   */
  lemma {:induction false} WrappedFragmentIsExtracted(t: string)
    requires '\n' !in t && !Contains(t, EventClose)
    ensures MatchValue(EventOpen + t + EventClose) == t
  {
    var s := EventOpen + t + EventClose;
    var n := |t|;
    assert s[0..10] == EventOpen;
    assert s[10..10 + n] == t;
    assert s[10 + n..10 + n + 11] == EventClose;
    assert IsEventSpan(s, 10, 10 + n);
    forall k | 10 <= k < 10 + n
      ensures !ClosesAt(s, k)
    {
      if k + 11 <= 10 + n {
        // a closing tag wholly inside the fragment
        assert !StartsWith(t[k - 10..], EventClose);
        assert s[k..k + 11] == t[k - 10..][..11];
      } else {
        // a closing tag straddling the end: its '<' is only at its start
        var d := 10 + n - k;
        assert s[k..k + 11][d] == s[10 + n] == '<';
        assert EventClose[d] != '<';
      }
    }
  }

  /** A closing tag cannot lie wholly inside a stretch `a` of `s` free of `</eventXml>`. */
  lemma NoCloseInside(s: string, lo: nat, a: string, k: int)
    requires lo + |a| <= |s| && s[lo..lo + |a|] == a && !Contains(a, EventClose)
    requires lo <= k && k + |EventClose| <= lo + |a|
    ensures !ClosesAt(s, k)
  {
    assert |EventClose| == 11;
    assert !StartsWith(a[k - lo..], EventClose);
    var window, inA := s[k..k + 11], a[k - lo..][..11];
    forall m | 0 <= m < 11
      ensures window[m] == inA[m]
    {
      assert s[lo..lo + |a|][k - lo + m] == s[k + m];
    }
    assert window == inA;
  }

  /** An opening tag cannot lie wholly inside a stretch `b` of `s` free of `<eventXml>`. */
  lemma NoOpenInside(s: string, lo: nat, b: string, k: int)
    requires lo + |b| <= |s| && s[lo..lo + |b|] == b && !Contains(b, EventOpen)
    requires lo <= k - |EventOpen| && k <= lo + |b|
    ensures !OpensAt(s, k)
  {
    assert |EventOpen| == 10;
    assert !StartsWith(b[k - 10 - lo..], EventOpen);
    var window, inB := s[k - 10..k], b[k - 10 - lo..][..10];
    forall m | 0 <= m < 10
      ensures window[m] == inB[m]
    {
      assert s[lo..lo + |b|][k - 10 - lo + m] == s[k - 10 + m];
    }
    assert window == inB;
  }

  /** Neither tag holds a newline, so none covers position `p` of `s` when `s[p]` is one. */
  lemma NoTagOverNewline(s: string, p: nat, k: int)
    requires p < |s| && s[p] == '\n'
    ensures k <= p < k + |EventClose| ==> !ClosesAt(s, k)
    ensures k - |EventOpen| <= p < k ==> !OpensAt(s, k)
  {
    if k <= p < k + 11 && 0 <= k && k + 11 <= |s| {
      assert s[k..k + 11][p - k] == '\n';
    }
    if k - 10 <= p < k && 10 <= k <= |s| {
      assert s[k - 10..k][p - (k - 10)] == '\n';
    }
  }

  /**
   * A newline between the tags defeats the match (there is no Singleline
   * option): the extracted text is empty, whatever XML lies on either side.
   */
  lemma {:induction false} NewlineBreaksMatch(a: string, b: string)
    requires !Contains(a, EventClose) && !Contains(b, EventOpen)
    ensures MatchValue(EventOpen + a + "\n" + b + EventClose) == ""
  {
    var s := EventOpen + a + "\n" + b + EventClose;
    var p := 10 + |a|;
    var c := p + 1 + |b|;
    assert s[10..p] == a;
    assert s[p] == '\n';
    assert s[p + 1..c] == b;
    forall k | 10 <= k <= p
      ensures !ClosesAt(s, k)
    {
      NoTagOverNewline(s, p, k);
      if k + 11 <= p {
        NoCloseInside(s, 10, a, k);
      }
    }
    forall k | p < k <= c
      ensures !OpensAt(s, k)
    {
      NoTagOverNewline(s, p, k);
      if p + 1 <= k - 10 {
        NoOpenInside(s, p + 1, b, k);
      }
    }
    forall i', j' | 0 <= i' <= p < j' <= |s|
      ensures '\n' in s[i'..j']
    {
      assert s[i'..j'][p - i'] == '\n';
    }
  }

  // ---------------------------------------------------------------------------
  // Parsing and mapping
  // ---------------------------------------------------------------------------

  /**
   * HTML-decode the body, cut out the event fragment and parse it. A null body
   * stays null through HtmlDecode and makes Regex.Match throw.
   */
  function DecodeContentAndCreateDocument(lib: Library, attempt: InboundMessage): (r: Outcome<XDocument>)
    ensures attempt.body.None? ==> r == Threw(ArgumentNull)
    ensures r.Returned? ==>
              attempt.body.Some? && lib.parseXml(MatchValue(lib.htmlDecode(attempt.body.value))) == Some(r.value)
    ensures attempt.body.Some? && lib.parseXml(MatchValue(lib.htmlDecode(attempt.body.value))).Some? ==> r.Returned?
    ensures attempt.body.Some? && lib.parseXml(MatchValue(lib.htmlDecode(attempt.body.value))).None? ==> r == Threw(XmlException)
  {
    match attempt.body
    case None => Threw(ArgumentNull)
    case Some(raw) =>
      var content := lib.htmlDecode(raw);
      match lib.parseXml(MatchValue(content))
      case Some(document) => Returned(document)
      case None => Threw(XmlException)
  }

  /** `Descendants("CheckinEvent").FirstOrDefault()`. */
  function FirstCheckinEvent(document: XDocument): (r: Option<XNode>)
    ensures r.Some? ==> IsNamed(r.value, "CheckinEvent")
    ensures IsNamed(document.root, "CheckinEvent") ==> r == Some(document.root)
    ensures r.None? <==> !Occurs(document.root, "CheckinEvent")
  {
    var events := Descendants(document, "CheckinEvent");
    if |events| > 0 then Some(events[0]) else None
  }

  /**
   * One commit from the first CheckinEvent's Committer, Comment, TeamProject and
   * Number; a missing event or child is a null dereference.
   */
  function ParseXmlDocument(document: XDocument): (r: Outcome<CommitMessage>)
    ensures r.Returned? <==>
              var c := FirstCheckinEvent(document);
              c.Some? && Element(c.value, "Committer").Some? && Element(c.value, "Comment").Some? &&
              Element(c.value, "TeamProject").Some? && Element(c.value, "Number").Some?
    ensures r.Threw? ==> r.exc == NullReference
    ensures r.Returned? ==>
              var c := FirstCheckinEvent(document).value;
              var cm := r.value;
              cm.author == Author(Value(Element(c, "Committer").value), None, None) &&
              cm.comment == Value(Element(c, "Comment").value) &&
              cm.repo == Repo(Some(Value(Element(c, "TeamProject").value)), None) &&
              cm.id == CommitId(Value(Element(c, "Number").value), None) &&
              cm.source == "TFS" && cm.parent.None? && cm.timestamp == DefaultTimestamp
  {
    match FirstCheckinEvent(document)
    case None => Threw(NullReference)
    case Some(c) =>
      var committer := Element(c, "Committer");
      var comment := Element(c, "Comment");
      var project := Element(c, "TeamProject");
      var number := Element(c, "Number");
      if committer.None? || comment.None? || project.None? || number.None? then Threw(NullReference)
      else
        // the CreationDate/TimeZoneOffset parse is disabled in the source: the
        // timestamp is always the default value
        Returned(CommitMessage(
          Author(Value(committer.value), None, None),
          DefaultTimestamp,
          Value(comment.value),
          Repo(Some(Value(project.value)), None),
          "TFS",
          CommitId(Value(number.value), None),
          None))
  }

  function GetResponseHeaders(): (h: map<string, string>)
    ensures h.Keys == {"Content-Type"} && h["Content-Type"] == SoapContentType
  {
    map["Content-Type" := SoapContentType]
  }

  function GetResponseBody(): (r: string)
    ensures StartsWith(r, XmlDeclaration)
    ensures |r| >= 13 && r[|r| - 13..] == "</s:Envelope>"
  {
    SoapResponseBody
  }

  /** The acknowledgment sent on both success and failure. */
  function Acknowledgment(): Response {
    Response(GetResponseBody(), GetResponseHeaders())
  }

  /**
   * Decode, extract, parse, map. Every outcome carries the same acknowledgment;
   * success holds exactly one commit, failure the fixed reason.
   */
  function Execute(lib: Library, message: InboundMessage): (r: Result)
    ensures r.SuccessWithResponse? || r.FailureWithResponse?
    ensures r.response.body == SoapResponseBody
    ensures r.response.headers == map["Content-Type" := SoapContentType]
    ensures r.FailureWithResponse? ==> r.reason == ParseFailureReason
    ensures r.SuccessWithResponse? ==>
              |r.commits| == 1 && r.commits[0].source == "TFS" && r.commits[0].parent.None? &&
              r.commits[0].timestamp == DefaultTimestamp
  {
    var parsed :=
      match DecodeContentAndCreateDocument(lib, message)
      case Threw(e) => Threw(e)
      case Returned(document) => ParseXmlDocument(document);
    match parsed
    case Returned(checkIn) => SuccessWithResponse([checkIn], Acknowledgment())
    case Threw(_) => FailureWithResponse(ParseFailureReason, Acknowledgment())
  }

  // ---------------------------------------------------------------------------
  // Properties of Execute
  // ---------------------------------------------------------------------------

  /** The response does not depend on the message: success and failure acknowledge alike. */
  lemma ResponseIndependentOfMessage(lib: Library, m1: InboundMessage, m2: InboundMessage)
    ensures Execute(lib, m1).response == Execute(lib, m2).response
  {
  }

  /**
   * Execute succeeds exactly when the extracted fragment parses to a document
   * whose first CheckinEvent has all four children, and the single commit then
   * carries their text.
   */
  lemma ExecuteSucceedsIff(lib: Library, message: InboundMessage)
    ensures Execute(lib, message).SuccessWithResponse? <==>
              message.body.Some? &&
              var parsed := lib.parseXml(MatchValue(lib.htmlDecode(message.body.value)));
              parsed.Some? && ParseXmlDocument(parsed.value).Returned?
    ensures Execute(lib, message).SuccessWithResponse? ==>
              var document := lib.parseXml(MatchValue(lib.htmlDecode(message.body.value))).value;
              Execute(lib, message).commits == [ParseXmlDocument(document).value]
  {
  }

  /** A null body fails (Regex.Match throws) but is still acknowledged. */
  lemma NullBodyFails(lib: Library, headers: map<string, string>)
    ensures Execute(lib, InboundMessage(None, headers)) == FailureWithResponse(ParseFailureReason, Acknowledgment())
  {
  }

  /**
   * When the decoded body holds no `<eventXml>…</eventXml>` span on one line,
   * the empty string is parsed; XDocument.Parse rejects it, so the call fails.
   */
  lemma NoEventSpanFails(lib: Library, message: InboundMessage)
    requires message.body.Some?
    requires forall i, j :: !IsEventSpan(lib.htmlDecode(message.body.value), i, j)
    requires lib.parseXml("") == None
    ensures Execute(lib, message) == FailureWithResponse(ParseFailureReason, Acknowledgment())
  {
  }

  /** A document with no CheckinEvent anywhere fails. */
  lemma NoCheckinEventFails(lib: Library, message: InboundMessage, document: XDocument)
    requires message.body.Some?
    requires lib.parseXml(MatchValue(lib.htmlDecode(message.body.value))) == Some(document)
    requires Descendants(document, "CheckinEvent") == []
    ensures Execute(lib, message) == FailureWithResponse(ParseFailureReason, Acknowledgment())
  {
  }

  /** A first CheckinEvent lacking any one of the four children fails. */
  lemma MissingChildFails(lib: Library, message: InboundMessage, document: XDocument, child: string)
    requires message.body.Some?
    requires lib.parseXml(MatchValue(lib.htmlDecode(message.body.value))) == Some(document)
    requires FirstCheckinEvent(document).Some?
    requires child in {"Committer", "Comment", "TeamProject", "Number"}
    requires forall n :: n in FirstCheckinEvent(document).value.nodes ==> !IsNamed(n, child)
    ensures Execute(lib, message) == FailureWithResponse(ParseFailureReason, Acknowledgment())
  {
  }

  /** A check-in event with the four children maps to the commit that carries their text. */
  lemma SampleCheckinEvent()
    ensures ParseXmlDocument(XDocument(XElement("CheckinEvent", [
              XElement("Comment", [XText("fix")]),
              XElement("Committer", [XText("dev")]),
              XElement("CreationDate", [XText("2012-01-01")]),
              XElement("Number", [XText("42")]),
              XElement("TeamProject", [XText("proj")])])))
            == Returned(CommitMessage(Author("dev", None, None), DefaultTimestamp, "fix",
                                      Repo(Some("proj"), None), "TFS", CommitId("42", None), None))
  {
    var nodes := [XElement("Comment", [XText("fix")]), XElement("Committer", [XText("dev")]),
                  XElement("CreationDate", [XText("2012-01-01")]), XElement("Number", [XText("42")]),
                  XElement("TeamProject", [XText("proj")])];
    var root := XElement("CheckinEvent", nodes);
    assert FirstCheckinEvent(XDocument(root)) == Some(root);
    assert FirstNamed(nodes, "Comment") == 0;
    assert FirstNamed(nodes, "Committer") == 1;
    assert FirstNamed(nodes, "Number") == 3;
    assert FirstNamed(nodes, "TeamProject") == 4;
    assert Value(nodes[0]) == "fix";
    assert Value(nodes[1]) == "dev";
    assert Value(nodes[3]) == "42";
    assert Value(nodes[4]) == "proj";
  }
}
