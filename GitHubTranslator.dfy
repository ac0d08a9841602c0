/**
 * The GitHub push-hook translator: accepts messages whose X-Github-Event header
 * is "push", unwraps a form-encoded body, and maps every entry of the payload's
 * `commits` array to a commit record, all or nothing.
 */
module GitHubTranslator {
  import opened Wrappers
  import opened Text
  import opened CommitTypes
  import opened Translation
  import opened Json
  import opened Platform

  const EventHeader := "X-Github-Event"
  const PushEvent := "push"
  const PayloadMarker := "payload="
  const TranslateFailureReason := "It was not possible to translate the message."

  // ---------------------------------------------------------------------------
  // Capability check
  // ---------------------------------------------------------------------------

  /** `ContainsKey("X-Github-Event") && Headers["X-Github-Event"] == "push"`; never throws. */
  function CanProcess(message: InboundMessage): (r: bool)
    ensures r <==> EventHeader in message.headers && message.headers[EventHeader] == PushEvent
  {
    EventHeader in message.headers && message.headers[EventHeader] == PushEvent
  }

  /** The answer depends on the event header alone: not on the body, not on other headers. */
  lemma CanProcessReadsOnlyEventHeader(m1: InboundMessage, m2: InboundMessage)
    requires EventHeader in m1.headers <==> EventHeader in m2.headers
    requires EventHeader in m1.headers ==> m1.headers[EventHeader] == m2.headers[EventHeader]
    ensures CanProcess(m1) == CanProcess(m2)
  {
  }

  /** A push is accepted; a missing header and a pull are refused. */
  lemma CanProcessExamples()
    ensures CanProcess(InboundMessage(Some(""), map[EventHeader := "push"]))
    ensures !CanProcess(InboundMessage(Some(""), map[]))
    ensures !CanProcess(InboundMessage(Some(""), map[EventHeader := "pull"]))
  {
  }

  // ---------------------------------------------------------------------------
  // Body decoding
  // ---------------------------------------------------------------------------

  /**
   * The JSON text a raw body carries: the body itself, or, for a form body
   * holding `payload=`, the URL-decoding of the text between its first and
   * second `=` (the end of the body when there is no second one).
   */
  function FormPayload(lib: Library, rawBody: string): string {
    if !Contains(rawBody, PayloadMarker) then rawBody
    else
      var first := IndexOf(rawBody, '=');
      var rest := if first < |rawBody| then rawBody[first + 1..] else "";
      lib.urlDecode(rest[..IndexOf(rest, '=')])
  }

  /** Split the form body on `=` and URL-decode the second piece; other bodies pass through. */
  method GetDecodedBody(lib: Library, rawBody: string) returns (body: string)
    ensures !Contains(rawBody, PayloadMarker) ==> body == rawBody
    ensures body == FormPayload(lib, rawBody)
  {
    body := rawBody;
    if Contains(body, PayloadMarker) {
      ContainsChar(body, PayloadMarker, '=');
      SecondPiece(body, '=');
      var items := Split(body, '=');
      body := lib.urlDecode(items[1]);
    }
  }

  // ---------------------------------------------------------------------------
  // Dynamic access to the payload
  // ---------------------------------------------------------------------------

  /** `JObject.Parse(body)`: the members of the object the text holds; anything else throws. */
  function ParseObject(lib: Library, body: string): (r: Outcome<map<string, JToken>>)
    ensures r.Returned? <==> lib.parseJson(body).Some? && lib.parseJson(body).value.JObject?
    ensures r.Returned? ==> r.value == lib.parseJson(body).value.members
  {
    match lib.parseJson(body)
    case Some(JObject(members)) => Returned(members)
    case _ => Threw(JsonException)
  }

  /** `x.ToString()` on a dynamic: a null reference throws; a JSON null gives the empty string. */
  function TokenString(lib: Library, t: Option<JToken>): (r: Outcome<string>)
    ensures r.Threw? <==> t.None?
    ensures t.Some? && t.value.JString? ==> r == Returned(t.value.s)
  {
    match t
    case None => Threw(RuntimeBinder)
    case Some(JString(s)) => Returned(s)
    case Some(JNull) => Returned("")
    case Some(other) => Returned(lib.formatToken(other))
  }

  /** `x.name.ToString()` on a dynamic `x`. */
  function MemberText(lib: Library, t: Option<JToken>, name: string): (r: Outcome<string>)
    ensures r.Returned? <==> t.Some? && t.value.JObject? && name in t.value.members
    ensures r.Returned? && t.value.members[name].JString? ==> r.value == t.value.members[name].s
  {
    var member :- Member(t, name);
    TokenString(lib, member)
  }

  /**
   * A dynamic assigned to a string property: a missing member or a JSON null
   * gives null, a literal its text; an array or object cannot convert.
   */
  function StringValue(lib: Library, t: Option<JToken>): (r: Outcome<Option<string>>)
    ensures r.Threw? <==> t.Some? && (t.value.JArray? || t.value.JObject?)
    ensures t.Some? && t.value.JString? ==> r == Returned(Some(t.value.s))
    ensures t.None? ==> r == Returned(None)
  {
    match t
    case None => Returned(None)
    case Some(JNull) => Returned(None)
    case Some(JString(s)) => Returned(Some(s))
    case Some(JLiteral(text)) => Returned(Some(lib.formatToken(JLiteral(text))))
    case Some(_) => Threw(RuntimeBinder)
  }

  /**
   * Member `f` of object `m` read as a string property would read it: absent or
   * JSON null gives null, a string its characters, another literal its text.
   */
  predicate ReadsAsString(lib: Library, m: map<string, JToken>, f: string, v: Option<string>) {
    if f !in m then v == None
    else match m[f]
      case JNull => v == None
      case JString(text) => v == Some(text)
      case JLiteral(_) => v == Some(lib.formatToken(m[f]))
      case _ => false
  }

  /** Member `f` of `m` can be assigned to a string property (it is neither an array nor an object). */
  predicate ConvertsToString(m: map<string, JToken>, f: string) {
    f !in m || !(m[f].JArray? || m[f].JObject?)
  }

  /** `new Repo() { Name = root.repository.name, Url = root.repository.url }`. */
  function RepoOf(lib: Library, root: map<string, JToken>): (r: Outcome<Repo>)
    ensures r.Returned? <==>
              "repository" in root && root["repository"].JObject? &&
              ConvertsToString(root["repository"].members, "name") &&
              ConvertsToString(root["repository"].members, "url")
    ensures r.Returned? ==>
              ReadsAsString(lib, root["repository"].members, "name", r.value.name) &&
              ReadsAsString(lib, root["repository"].members, "url", r.value.url)
  {
    var repository :- Member(Some(JObject(root)), "repository");
    var nameToken :- Member(repository, "name");
    var name :- StringValue(lib, nameToken);
    match Member(repository, "url")
    case Threw(e) => Threw(e)
    case Returned(urlToken) =>
      var url :- StringValue(lib, urlToken);
      Returned(Repo(name, url))
  }

  /** `DateTimeOffset.Parse(text)`. */
  function ParseDate(lib: Library, text: string): (r: Outcome<Timestamp>)
    ensures r.Returned? <==> lib.parseDate(text).Some?
    ensures r.Returned? ==> r.value == lib.parseDate(text).value
  {
    match lib.parseDate(text)
    case Some(timestamp) => Returned(timestamp)
    case None => Threw(FormatException)
  }

  /**
   * The record for one entry of `commits`: author name and email, timestamp,
   * message and id from the entry itself, the repository from the payload root.
   */
  function CommitOf(lib: Library, root: map<string, JToken>, commit: JToken): (r: Outcome<CommitMessage>)
    ensures r.Returned? <==>
              MemberText(lib, Some(commit), "message").Returned? && MemberText(lib, Some(commit), "id").Returned? &&
              RepoOf(lib, root).Returned? &&
              var stamp := MemberText(lib, Some(commit), "timestamp");
              stamp.Returned? && lib.parseDate(stamp.value).Some? &&
              var author := Member(Some(commit), "author");
              author.Returned? &&
              MemberText(lib, author.value, "email").Returned? && MemberText(lib, author.value, "name").Returned?
    ensures r.Returned? ==>
              var cm := r.value;
              var author := Member(Some(commit), "author").value;
              cm.timestamp == lib.parseDate(MemberText(lib, Some(commit), "timestamp").value).value &&
              cm.author == Author(MemberText(lib, author, "name").value, Some(MemberText(lib, author, "email").value), None) &&
              cm.comment == MemberText(lib, Some(commit), "message").value &&
              cm.id == CommitId(MemberText(lib, Some(commit), "id").value, None) &&
              cm.repo == RepoOf(lib, root).value &&
              cm.source == "GitHub" && cm.parent.None?
  {
    var author :- Member(Some(commit), "author");
    var email :- MemberText(lib, author, "email");
    var name :- MemberText(lib, author, "name");
    var stamp :- MemberText(lib, Some(commit), "timestamp");
    var timestamp :- ParseDate(lib, stamp);
    var message :- MemberText(lib, Some(commit), "message");
    var repo :- RepoOf(lib, root);
    var id :- MemberText(lib, Some(commit), "id");
    Returned(CommitMessage(Author(name, Some(email), None), timestamp, message, repo, "GitHub", CommitId(id, None), None))
  }

  // ---------------------------------------------------------------------------
  // The commits loop
  // ---------------------------------------------------------------------------

  /** The records of `entries` built in order; the first entry that throws ends the whole list. */
  function CommitsOf(lib: Library, root: map<string, JToken>, entries: seq<JToken>): Outcome<seq<CommitMessage>>
    decreases |entries|
  {
    if entries == [] then Returned([])
    else
      var init :- CommitsOf(lib, root, entries[..|entries| - 1]);
      var last :- CommitOf(lib, root, entries[|entries| - 1]);
      Returned(init + [last])
  }

  /** What `GetCommitMessages(root)` returns or throws. */
  function CommitMessagesOf(lib: Library, root: map<string, JToken>): Outcome<seq<CommitMessage>> {
    var commits :- Member(Some(JObject(root)), "commits");
    var entries :- Items(commits);
    CommitsOf(lib, root, entries)
  }

  /**
   * The list holds one record per entry, in the entries' order, each built from
   * its own entry; it exists exactly when no entry throws.
   */
  lemma {:induction false} CommitsOfPointwise(lib: Library, root: map<string, JToken>, entries: seq<JToken>)
    ensures CommitsOf(lib, root, entries).Returned? ==>
              var cs := CommitsOf(lib, root, entries).value;
              |cs| == |entries| && forall k :: 0 <= k < |entries| ==> CommitOf(lib, root, entries[k]) == Returned(cs[k])
    ensures CommitsOf(lib, root, entries).Threw? <==>
              exists k :: 0 <= k < |entries| && CommitOf(lib, root, entries[k]).Threw?
    decreases |entries|
  {
    if entries != [] {
      var init := entries[..|entries| - 1];
      CommitsOfPointwise(lib, root, init);
      assert forall k :: 0 <= k < |init| ==> init[k] == entries[k];
    }
  }

  /** Once a prefix of the entries throws, the whole list throws the same exception. */
  lemma {:induction false} PrefixFailurePropagates(lib: Library, root: map<string, JToken>, entries: seq<JToken>, n: nat)
    requires n <= |entries| && CommitsOf(lib, root, entries[..n]).Threw?
    ensures CommitsOf(lib, root, entries) == CommitsOf(lib, root, entries[..n])
    decreases |entries| - n
  {
    if n < |entries| {
      assert entries[..n + 1][..n] == entries[..n];
      PrefixFailurePropagates(lib, root, entries, n + 1);
    } else {
      assert entries[..n] == entries;
    }
  }

  /** `foreach` over `root.commits`, adding one record per entry to a list. */
  method GetCommitMessages(lib: Library, root: map<string, JToken>) returns (r: Outcome<seq<CommitMessage>>)
    ensures r == CommitMessagesOf(lib, root)
  {
    var entries := Items(Member(Some(JObject(root)), "commits").value);
    if entries.Threw? {
      return Threw(entries.exc);
    }
    var commitMessages: seq<CommitMessage> := [];
    var i := 0;
    while i < |entries.value|
      invariant 0 <= i <= |entries.value|
      invariant CommitsOf(lib, root, entries.value[..i]) == Returned(commitMessages)
    {
      assert entries.value[..i + 1][..i] == entries.value[..i];
      var commitMessage := CommitOf(lib, root, entries.value[i]);
      if commitMessage.Threw? {
        PrefixFailurePropagates(lib, root, entries.value, i + 1);
        return Threw(commitMessage.exc);
      }
      commitMessages := commitMessages + [commitMessage.value];
      i := i + 1;
    }
    assert entries.value[..i] == entries.value;
    return Returned(commitMessages);
  }

  // ---------------------------------------------------------------------------
  // Execute
  // ---------------------------------------------------------------------------

  /** What `Execute` returns: any exception on the way becomes the one plain failure. */
  function Translate(lib: Library, attempt: InboundMessage): (r: Result)
    ensures r.Success? || r.Failure?
    ensures r.Failure? ==> r.reason == TranslateFailureReason
  {
    match attempt.body
    case None => Failure(TranslateFailureReason)  // rawBody.Contains on null
    case Some(rawBody) =>
      match ParseObject(lib, FormPayload(lib, rawBody))
      case Threw(_) => Failure(TranslateFailureReason)
      case Returned(root) =>
        match CommitMessagesOf(lib, root)
        case Returned(commitMessages) => Success(commitMessages)
        case Threw(_) => Failure(TranslateFailureReason)
  }

  method Execute(lib: Library, attempt: InboundMessage) returns (r: Result)
    ensures r == Translate(lib, attempt)
    ensures !r.HasResponse()
  {
    if attempt.body.None? {
      return Failure(TranslateFailureReason);
    }
    var body := GetDecodedBody(lib, attempt.body.value);
    var root := ParseObject(lib, body);
    if root.Threw? {
      return Failure(TranslateFailureReason);
    }
    var commitMessages := GetCommitMessages(lib, root.value);
    if commitMessages.Threw? {
      return Failure(TranslateFailureReason);
    }
    return Success(commitMessages.value);
  }

  // ---------------------------------------------------------------------------
  // Properties of Execute
  // ---------------------------------------------------------------------------

  /** The payload root `Execute` works on, when the body decodes and parses to an object. */
  predicate ParsesTo(lib: Library, attempt: InboundMessage, root: map<string, JToken>) {
    attempt.body.Some? && ParseObject(lib, FormPayload(lib, attempt.body.value)) == Returned(root)
  }

  /**
   * On a parsed payload, Execute succeeds exactly when `commits` is an array none
   * of whose entries throws, and then returns one record per entry, in order.
   */
  lemma SuccessMapsEveryEntry(lib: Library, attempt: InboundMessage, root: map<string, JToken>)
    requires ParsesTo(lib, attempt, root)
    ensures Translate(lib, attempt).Success? <==>
              "commits" in root && root["commits"].JArray? &&
              forall k :: 0 <= k < |root["commits"].items| ==> CommitOf(lib, root, root["commits"].items[k]).Returned?
    ensures Translate(lib, attempt).Success? ==>
              var entries := root["commits"].items;
              var cs := Translate(lib, attempt).commits;
              |cs| == |entries| && forall k :: 0 <= k < |entries| ==> CommitOf(lib, root, entries[k]) == Returned(cs[k])
  {
    if "commits" in root && root["commits"].JArray? {
      CommitsOfPointwise(lib, root, root["commits"].items);
    }
  }

  /** Every record of a success is from GitHub, has no parent, and names the payload's repository. */
  lemma RecordsShareSourceAndRepo(lib: Library, attempt: InboundMessage, root: map<string, JToken>)
    requires ParsesTo(lib, attempt, root)
    requires Translate(lib, attempt).Success?
    ensures forall cm :: cm in Translate(lib, attempt).commits ==>
              cm.source == "GitHub" && cm.parent.None? && cm.author.url.None? && cm.id.url.None? &&
              RepoOf(lib, root).Returned? && cm.repo == RepoOf(lib, root).value &&
              "repository" in root && root["repository"].JObject? &&
              ReadsAsString(lib, root["repository"].members, "name", cm.repo.name) &&
              ReadsAsString(lib, root["repository"].members, "url", cm.repo.url)
  {
    SuccessMapsEveryEntry(lib, attempt, root);
    var cs := Translate(lib, attempt).commits;
    forall cm | cm in cs
      ensures cm.source == "GitHub" && cm.parent.None? && cm.author.url.None? && cm.id.url.None? &&
              RepoOf(lib, root).Returned? && cm.repo == RepoOf(lib, root).value &&
              "repository" in root && root["repository"].JObject? &&
              ReadsAsString(lib, root["repository"].members, "name", cm.repo.name) &&
              ReadsAsString(lib, root["repository"].members, "url", cm.repo.url)
    {
      var k :| 0 <= k < |cs| && cs[k] == cm;
      assert CommitOf(lib, root, root["commits"].items[k]) == Returned(cm);
    }
  }

  /** All or nothing: one entry that throws fails the whole call, with no records at all. */
  lemma OneBadEntryFailsAll(lib: Library, attempt: InboundMessage, root: map<string, JToken>, k: nat)
    requires ParsesTo(lib, attempt, root)
    requires "commits" in root && root["commits"].JArray? && k < |root["commits"].items|
    requires CommitOf(lib, root, root["commits"].items[k]).Threw?
    ensures Translate(lib, attempt) == Failure(TranslateFailureReason)
  {
    SuccessMapsEveryEntry(lib, attempt, root);
  }

  /** A body that is not a JSON object fails. */
  lemma MalformedPayloadFails(lib: Library, attempt: InboundMessage)
    requires attempt.body.Some?
    requires lib.parseJson(FormPayload(lib, attempt.body.value)).None?
    ensures Translate(lib, attempt) == Failure(TranslateFailureReason)
  {
  }

  /**
   * The repository is read inside the loop, so an empty `commits` array succeeds
   * with no records even when the payload has no repository.
   */
  lemma EmptyCommitsSucceed(lib: Library, attempt: InboundMessage, root: map<string, JToken>)
    requires ParsesTo(lib, attempt, root)
    requires "commits" in root && root["commits"] == JArray([])
    ensures Translate(lib, attempt) == Success([])
  {
  }

  /**
   * The single-commit push payload: one record with the author's name and email,
   * the message, the id and the root repository; no author or id URL is set.
   */
  lemma SamplePushPayload(lib: Library, attempt: InboundMessage, stamp: Timestamp)
    requires ParsesTo(lib, attempt, map[
      "repository" := JObject(map["name" := JString("r"), "url" := JString("u")]),
      "commits" := JArray([JObject(map[
        "id" := JString("abc"), "url" := JString("cu"), "message" := JString("m"),
        "timestamp" := JString("2020-01-01T00:00:00Z"),
        "author" := JObject(map["name" := JString("A"), "email" := JString("a@x.com"), "username" := JString("auser")])])])])
    requires lib.parseDate("2020-01-01T00:00:00Z") == Some(stamp)
    ensures Translate(lib, attempt) == Success([
      CommitMessage(Author("A", Some("a@x.com"), None), stamp, "m", Repo(Some("r"), Some("u")), "GitHub", CommitId("abc", None), None)])
  {
    var author := JObject(map["name" := JString("A"), "email" := JString("a@x.com"), "username" := JString("auser")]);
    var commit := JObject(map[
      "id" := JString("abc"), "url" := JString("cu"), "message" := JString("m"),
      "timestamp" := JString("2020-01-01T00:00:00Z"), "author" := author]);
    var root := map[
      "repository" := JObject(map["name" := JString("r"), "url" := JString("u")]),
      "commits" := JArray([commit])];
    var cm := CommitMessage(Author("A", Some("a@x.com"), None), stamp, "m", Repo(Some("r"), Some("u")), "GitHub", CommitId("abc", None), None);
    assert RepoOf(lib, root) == Returned(Repo(Some("r"), Some("u")));
    assert CommitOf(lib, root, commit) == Returned(cm);
    SuccessMapsEveryEntry(lib, attempt, root);
  }
}
