# Commit service translators

A model of the two webhook translators of the commit service. Each translator
takes an inbound message (a body and a header dictionary) and answers two
questions: `CanProcess`, whether the message comes from its provider, and
`Execute`, the translation of the body into canonical commit records, wrapped
in a tagged `Translation.Result`:

- `GitHubTranslator` accepts push hooks (`X-Github-Event: push`). It unwraps a
  form-encoded `payload=` body and turns every entry of the JSON `commits`
  array into one record, in order. On any error it returns a plain `Failure`
  with no records.
- `TfsTranslator` accepts TFS check-in notifications (a `User-Agent` that
  starts with `Team Foundation`). It HTML-decodes the body and cuts out the
  text between `<eventXml>` and `</eventXml>` with a regular expression. It
  parses that text as XML and maps the first `CheckinEvent` to one record.
  Success and failure both carry the same SOAP `NotifyResponse` acknowledgment.

Layout:

- `Wrappers.dfy`: `Option` (a nullable reference) and `Outcome` (a value or
  the .NET exception thrown). Both translators' catch-all handlers turn a
  thrown exception into a failure result.
- `Text.dfy`: the ordinal `StartsWith`, `Contains`, `IndexOf`, `Split` of
  `System.String`, with `Join` as the inverse of `Split`.
- `CommitTypes.dfy`: `InboundMessage`, `CommitMessage` and its value objects,
  `Response`, and the `Translation.Result` union. These are inferred from how
  the translators use them.
- `Xml.dfy`: an element tree with `Value`, `Element(name)` and
  `Descendants(name)` as LINQ to XML defines them.
- `Json.dfy`: a JSON token tree, with the `dynamic` member access and
  `foreach` used on it.
- `Platform.dfy`: the library calls whose code is not part of this model,
  passed in as one `Library` value of total functions. They are HTML and URL
  decoding, XML, JSON and date parsing, and `JToken.ToString()` of non-string
  tokens.
- `TfsTranslator.dfy`, `GitHubTranslator.dfy`: the two translators.

`TfsTranslator.cs` is modelled as pure functions. Its regular expression
`(?<=<eventXml>).*?(?=<\/eventXml>)` is written out concretely. Start
positions are tried from the left, the lazy `.*?` takes the nearest closing tag,
and `.` stops at `\n`. This is proved equal to a declarative definition: the
leftmost, then shortest, newline-free span between the two tags.
`GitHubTranslator.cs` is mixed. `GetDecodedBody` and the `foreach`/`Add` loop
of `GetCommitMessages` are methods. Each is proved equal to a specification
function (`FormPayload`, `CommitMessagesOf`), and the lemmas state the
properties of those functions.

Where the code differs from the documented design of the service, the model
follows the code:

- TFS `CanProcess` never looks at the body's content. It only rejects a null
  or empty body. There is no check-in-event marker test.
- The TFS timestamp is always the default `DateTimeOffset`. The parse of
  `CreationDate` and `TimeZoneOffset` is commented out.
- GitHub sets no author URL and no id URL.
- GitHub's form body is split on every `=`, and the second piece is decoded.
  That is the text between the first and second `=`, not everything after the
  first one.
- Header values are single strings. The code calls `StartsWith` and `==` on
  them.
- GitHub reads `root.repository` inside the loop. So a payload with an empty
  `commits` array succeeds with no records even when it has no repository.

## Model

| member | source | states |
|---|---|---|
| `TfsTranslator.IsNullOrEmpty` | Translators/TfsTranslator/TfsTranslator.cs:20 | true exactly for a null body and for the empty string |
| `TfsTranslator.IsUserAgentFromTfs` | Translators/TfsTranslator/TfsTranslator.cs:92-95 | throws KeyNotFound exactly when there is no User-Agent header; otherwise true iff its value starts with "Team Foundation" |
| `TfsTranslator.CanProcess` | Translators/TfsTranslator/TfsTranslator.cs:18-24 | a null or empty body gives false whatever the headers; otherwise true iff the User-Agent starts with "Team Foundation", and it throws iff that header is missing |
| `TfsTranslator.CanProcessIgnoresBodyContent` | Translators/TfsTranslator/TfsTranslator.cs:18-24 | two non-empty bodies under the same headers get the same answer: the content is never inspected |
| `TfsTranslator.CanProcessExamples` | Translators/TfsTranslator.Tests/TfsTranslatorTests.cs:26-51 | the TfsJobAgent User-Agent is accepted, "nonsense" is refused |
| `TfsTranslator.CanProcessThrowsWithoutUserAgent` | Translators/TfsTranslator/TfsTranslator.cs:94 | a non-empty body with no User-Agent header throws KeyNotFound out of CanProcess |
| `TfsTranslator.CanProcessWithoutThrowing` | Translators/TfsTranslator/TfsTranslator.cs:18-24 | the never-throwing capability check: agrees with CanProcess wherever it returns, false when User-Agent is missing |
| `TfsTranslator.LazyEnd` | Translators/TfsTranslator/TfsTranslator.cs:16 | the lazy `.*?` from a position ends at the nearest closing tag reachable without a newline, and finds none iff no such tag exists |
| `TfsTranslator.MatchFrom` | Translators/TfsTranslator/TfsTranslator.cs:16 | the scan from a start position finds the leftmost start at or after it, then the shortest newline-free span between the tags; nothing iff no such span starts there or later |
| `TfsTranslator.EventMatch` | Translators/TfsTranslator/TfsTranslator.cs:50 | the regex match is the leftmost start, then shortest, newline-free span after `<eventXml>` and before `</eventXml>`; there is no match iff no such span exists |
| `TfsTranslator.MatchValue` | Translators/TfsTranslator/TfsTranslator.cs:50-51 | the text handed to the XML parser is the leftmost-shortest event span, the empty string when there is no span, and never contains a newline |
| `TfsTranslator.WrappedFragmentIsExtracted` | Translators/TfsTranslator/TfsTranslator.cs:16 | a one-line fragment between the two tags that holds no `</eventXml>` of its own is extracted exactly, XML markup included |
| `TfsTranslator.NewlineBreaksMatch` | Translators/TfsTranslator/TfsTranslator.cs:16 | a newline between the tags defeats the match, so the empty string is parsed, for any text around it that holds no stray closing tag before it and no stray opening tag after it |
| `TfsTranslator.DecodeContentAndCreateDocument` | Translators/TfsTranslator/TfsTranslator.cs:47-53 | a null body throws; otherwise a document is returned exactly when the extracted span of the HTML-decoded body parses, and it is that parse; an unparsable span throws an XML exception |
| `TfsTranslator.FirstCheckinEvent` | Translators/TfsTranslator/TfsTranslator.cs:57 | the element found is a CheckinEvent, it is the root when the root is one, and it is null exactly when no CheckinEvent occurs anywhere in the document |
| `TfsTranslator.ParseXmlDocument` | Translators/TfsTranslator/TfsTranslator.cs:55-75 | succeeds iff the first CheckinEvent exists with Committer, Comment, TeamProject and Number children; the record takes author name, comment, repo name and id name from their text, source "TFS", no parent, the default timestamp; otherwise a null dereference |
| `TfsTranslator.GetResponseBody` | Translators/TfsTranslator/TfsTranslator.cs:86-90 | the acknowledgment is an XML document: it opens with the `<?xml version="1.0"?>` declaration and closes the SOAP envelope |
| `TfsTranslator.GetResponseHeaders` | Translators/TfsTranslator/TfsTranslator.cs:78-84 | exactly one header, Content-Type: application/soap+xml; charset=utf-8 |
| `TfsTranslator.Execute` | Translators/TfsTranslator/TfsTranslator.cs:26-45 | always a with-response variant whose body is the SOAP NotifyResponse envelope and whose headers are exactly the SOAP content type; failure carries "It was not possible to parse the message."; success holds exactly one TFS commit with no parent and the default timestamp |
| `TfsTranslator.ResponseIndependentOfMessage` | Translators/TfsTranslator/TfsTranslator.cs:33-43 | the response is the same for every message, success or failure |
| `TfsTranslator.ExecuteSucceedsIff` | Translators/TfsTranslator/TfsTranslator.cs:28-37 | success iff the body is non-null, the extracted span parses and the mapping succeeds; the single commit is then the mapped record |
| `TfsTranslator.NullBodyFails` | Translators/TfsTranslator/TfsTranslator.cs:49-50 | a null body gives FailureWithResponse with the acknowledgment |
| `TfsTranslator.NoEventSpanFails` | Translators/TfsTranslator/TfsTranslator.cs:49-51 | with no event span in the decoded body the empty string is parsed, and since the parser rejects it the result is FailureWithResponse |
| `TfsTranslator.NoCheckinEventFails` | Translators/TfsTranslator/TfsTranslator.cs:57 | a document without CheckinEvent gives FailureWithResponse |
| `TfsTranslator.MissingChildFails` | Translators/TfsTranslator/TfsTranslator.cs:67-73 | a first CheckinEvent missing any of the four children gives FailureWithResponse |
| `TfsTranslator.SampleCheckinEvent` | Translators/TfsTranslator/TfsTranslator.cs:67-74 | a concrete check-in event maps to the record carrying its Committer, Comment, TeamProject and Number text |
| `GitHubTranslator.CanProcess` | Translators/GitHubTranslator/GitHubTranslator.cs:61-64 | true iff X-Github-Event is present with value "push"; never throws |
| `GitHubTranslator.CanProcessReadsOnlyEventHeader` | Translators/GitHubTranslator/GitHubTranslator.cs:34-37 | messages that agree on the X-Github-Event header get the same answer, whatever their bodies and other headers |
| `GitHubTranslator.CanProcessExamples` | Translators/GitHubTranslator.Tests/GitHubTranslatorTests.cs:17-47 | "push" accepted; missing header and "pull" refused |
| `GitHubTranslator.GetDecodedBody` | Translators/GitHubTranslator/GitHubTranslator.cs:66-74 | a body without "payload=" passes through unchanged; otherwise the result is the URL-decoding of the text between the first and second `=` (split-based code equals the index-based definition) |
| `GitHubTranslator.ParseObject` | Translators/GitHubTranslator/GitHubTranslator.cs:22 | returns members iff the text parses to a JSON object |
| `GitHubTranslator.TokenString` | Translators/GitHubTranslator/GitHubTranslator.cs:46-51 | `ToString()` throws exactly on a missing member and gives a string token's own text |
| `GitHubTranslator.MemberText` | Translators/GitHubTranslator/GitHubTranslator.cs:46-51 | `x.name.ToString()` returns iff x is an object that has the member, giving a string member's text |
| `GitHubTranslator.StringValue` | Translators/GitHubTranslator/GitHubTranslator.cs:49 | a missing member assigns null, a string its text, and only arrays and objects fail to convert |
| `GitHubTranslator.RepoOf` | Translators/GitHubTranslator/GitHubTranslator.cs:49 | the repo is read exactly when the root's repository member is an object whose name and url members are not arrays or objects; each field is then null for a missing or null member, a string member's text, or a literal's text |
| `GitHubTranslator.ParseDate` | Translators/GitHubTranslator/GitHubTranslator.cs:47 | returns iff the date parser accepts the text, with its value |
| `GitHubTranslator.CommitOf` | Translators/GitHubTranslator/GitHubTranslator.cs:45-53 | a record is built iff every field read succeeds; it takes author name and email, timestamp, message and id from its own entry, the repo from the root, source "GitHub", no parent, no URLs |
| `GitHubTranslator.CommitsOfPointwise` | Translators/GitHubTranslator/GitHubTranslator.cs:43-56 | the list has one record per entry, each built from the entry at the same index; it fails iff some entry fails |
| `GitHubTranslator.PrefixFailurePropagates` | Translators/GitHubTranslator/GitHubTranslator.cs:43-56 | once the loop throws on an entry, the whole call throws that exception |
| `GitHubTranslator.GetCommitMessages` | Translators/GitHubTranslator/GitHubTranslator.cs:39-59 | the loop returns exactly the in-order list specified by CommitMessagesOf, or the first exception |
| `GitHubTranslator.Translate` | Translators/GitHubTranslator/GitHubTranslator.cs:17-32 | only Success or Failure, and every failure has the reason "It was not possible to translate the message." |
| `GitHubTranslator.Execute` | Translators/GitHubTranslator/GitHubTranslator.cs:17-32 | returns Translate's result and never a variant with a response |
| `GitHubTranslator.SuccessMapsEveryEntry` | Translators/GitHubTranslator/GitHubTranslator.cs:39-58 | on a parsed payload, success iff commits is an array none of whose entries fails; the records then match the entries one to one and in order |
| `GitHubTranslator.RecordsShareSourceAndRepo` | Translators/GitHubTranslator/GitHubTranslator.cs:49-52 | every record of a success has source "GitHub", no parent, no URLs, and as repo the name and url read from the payload's repository object |
| `GitHubTranslator.OneBadEntryFailsAll` | Translators/GitHubTranslator/GitHubTranslator.cs:28-31 | one failing entry makes the whole result the plain Failure, with no partial list |
| `GitHubTranslator.MalformedPayloadFails` | Translators/GitHubTranslator/GitHubTranslator.cs:19-31 | a body whose payload does not parse gives Failure |
| `GitHubTranslator.EmptyCommitsSucceed` | Translators/GitHubTranslator/GitHubTranslator.cs:43-49 | an empty commits array gives Success with no records, repository or not |
| `GitHubTranslator.SamplePushPayload` | Translators/GitHubTranslator/GitHubTranslator.cs:45-53 | a concrete one-commit payload yields one record with its author, message, id and repository, and no author URL |
| `Text.IndexOf` | Translators/GitHubTranslator/GitHubTranslator.cs:70 | the index of the first separator, or the length when there is none |
| `Text.StartsWith` | Translators/TfsTranslator/TfsTranslator.cs:94 | ordinal prefix test: the prefix is no longer than the string and agrees with it character by character |
| `Text.Contains` | Translators/GitHubTranslator/GitHubTranslator.cs:68 | ordinal substring test: true exactly when the part starts at some position of the string |
| `Text.Split` | Translators/GitHubTranslator/GitHubTranslator.cs:70 | at least one piece, no piece holds the separator, and joining the pieces with the separator gives back the original string |
| `Text.SecondPiece` | Translators/GitHubTranslator/GitHubTranslator.cs:70-71 | a string holding the separator has at least two pieces, the second lying between the first and second separator |
| `Xml.Value` | Translators/TfsTranslator/TfsTranslator.cs:68-73 | a text node's text; an element's concatenated text, empty for an empty element and the text itself for an element holding one text node |
| `Xml.ValueOfAllAppend` | Translators/TfsTranslator/TfsTranslator.cs:68-73 | the text of a node list is the text of its first part followed by that of the rest |
| `Xml.Element` | Translators/TfsTranslator/TfsTranslator.cs:68 | a child element with the name and no earlier child with it, and null iff no child has it |
| `Xml.Descendants` | Translators/TfsTranslator/TfsTranslator.cs:57 | every element returned carries the requested name, the root comes first when it has the name, and the list is empty exactly when the name occurs nowhere in the tree |
| `Xml.DescendantsAndSelfEmpty` | Translators/TfsTranslator/TfsTranslator.cs:57 | a subtree yields no element with the name exactly when the name does not occur in it |
| `Xml.ChildIsDescendant` | Translators/TfsTranslator/TfsTranslator.cs:57 | a child element with the name is among the descendants |
| `Json.Member` | Translators/GitHubTranslator/GitHubTranslator.cs:46-49 | dynamic member access returns iff the token is an object, giving the member or null |
| `Json.Items` | Translators/GitHubTranslator/GitHubTranslator.cs:43 | `foreach` yields an array's items, in order |

## Findings

| source | as written | input that shows it | evidently intended | confidence | as-written member | corrected member |
|---|---|---|---|---|---|---|
| Translators/TfsTranslator/TfsTranslator.cs:94 | the `User-Agent` indexer is used without a `ContainsKey` test, so CanProcess throws KeyNotFoundException | body "x", no headers | a translator's capability check never throws; a message without the header is not processable (the GitHub translator tests `ContainsKey` first) | medium, not executed | `TfsTranslator.CanProcessThrowsWithoutUserAgent` | `TfsTranslator.CanProcessWithoutThrowing` |

## Left out

- HTML decoding, URL decoding, `XDocument.Parse`, `JObject.Parse`,
  `DateTimeOffset.Parse` and `JToken.ToString()` of non-string tokens are
  library code. They are parameters (`Platform.Library`). The property that
  the empty string does not parse as XML is a precondition of
  `TfsTranslator.NoEventSpanFails`.
- The `[Export]` plugin registration and any dispatcher that chooses a
  translator are not part of this model.
- The types assembly is not part of this model. Its types are defined from
  how the translators use them.
- Test-side file reading and the approved-output fixtures are I/O with files
  that are not available.
- XML namespaces, attributes, comments and processing instructions are not
  modelled. Element names are compared as plain strings.
- `TfsTranslator.IsUserAgentFromTfs`: `StartsWith(string)` is
  culture-sensitive in .NET. The model compares ordinally, character by
  character.
- `GitHubTranslator.GetCommitMessages`: a `commits` member that is not an
  array is an error in the model. How Json.NET enumerates a non-array token
  under `foreach` is not modelled.
- `GitHubTranslator.StringValue`: the text a number or boolean converts to is
  left to `Library.formatToken`.
- `GitHubTranslator.SamplePushPayload`: `JObject.Parse` reads an ISO-8601
  string such as a commit timestamp as a date token, whose `ToString()` is a
  culture-formatted date and not the original text. The model keeps it as a
  string token. `ToString()` and the conversion to a string property also use
  different cultures, while one `Library.formatToken` stands for both.
- Which exception is thrown is recorded but not observable. Both `Execute`
  methods absorb every exception.
- Multi-valued headers are not modelled. Each header has one string value, as
  the code uses it.
