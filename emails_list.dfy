/** GET /api/emails: for each listed message id, the subject and the body shown in the
    message list. The body is taken from the payload's own data if it has any, else
    from the first part whose type is `text/plain`; sub-parts are never visited. */
module EmailsList {
  import opened Js
  import opened MailPayload
  import opened Handler

  /** One entry of the list the handler returns. */
  datatype EmailSummary = EmailSummary(id: string, subject: string, body: string)

  const NoSubject := "No Subject"
  const NoBodyContent := "No body content"

  /** `part.mimeType === 'text/plain'`, whatever the part's data. */
  predicate IsPlainType(p: Part) {
    HasType(p, PlainText)
  }

  /** `header.name === 'Subject'`: an exact, case-sensitive comparison. */
  predicate IsSubjectHeader(h: Header) {
    h.name == Some("Subject")
  }

  /** The body the handler extracts, before the `'No body content'` default. */
  function ListBody(payload: Option<Part>, decode: Decoder): (r: string)
    ensures payload.None? ==> r == ""
    ensures r == "" || (payload.Some? && HasData(payload.value) && r == DecodedData(payload.value, decode)) ||
            (payload.Some? && payload.value.parts.Some? &&
             exists k :: 0 <= k < |payload.value.parts.value| && IsPlainType(payload.value.parts.value[k]) &&
                         HasData(payload.value.parts.value[k]) && r == DecodedData(payload.value.parts.value[k], decode))
  {
    if payload.Some? && HasData(payload.value) then DecodedData(payload.value, decode)
    else if payload.Some? && payload.value.parts.Some? then
      match Find(payload.value.parts.value, IsPlainType)
      case Some(textPart) => if HasData(textPart) then DecodedData(textPart, decode) else ""
      case None => ""
    else ""
  }

  /** The handler's `let body = ''` and the branches that reassign it. */
  method ExtractListBody(payload: Option<Part>, decode: Decoder) returns (body: string)
    ensures body == ListBody(payload, decode)
  {
    body := "";
    if payload.Some? && Truthy(payload.value.data) {
      body := decode(payload.value.data.value);
    } else if payload.Some? && payload.value.parts.Some? {
      var textPart := Find(payload.value.parts.value, (part: Part) => part.mimeType == Some("text/plain"));
      if textPart.Some? && Truthy(textPart.value.data) {
        body := decode(textPart.value.data.value);
      }
    }
  }

  /** Body data on the payload itself decides the body, whatever its type and parts. */
  lemma TopLevelDataWins(payload: Part, decode: Decoder)
    requires HasData(payload)
    ensures ListBody(Some(payload), decode) == decode(payload.data.value)
  {
  }

  /** Without top-level data only the first `text/plain` part is looked at: its
      decoding if it has data, the empty body otherwise, even when a later
      `text/plain` part has data. */
  lemma FirstPlainPartDecides(payload: Part, decode: Decoder, i: nat)
    requires !HasData(payload) && payload.parts.Some?
    requires i < |payload.parts.value| && IsPlainType(payload.parts.value[i])
    requires forall j :: 0 <= j < i ==> !IsPlainType(payload.parts.value[j])
    ensures var textPart := payload.parts.value[i];
            ListBody(Some(payload), decode) == if HasData(textPart) then decode(textPart.data.value) else ""
  {
    FindIndexIs(payload.parts.value, IsPlainType, i);
  }

  /** Without top-level data and without any `text/plain` part the body is empty. */
  lemma NoPlainPartNoBody(payload: Part, decode: Decoder)
    requires !HasData(payload)
    requires payload.parts.Some? ==> forall j :: 0 <= j < |payload.parts.value| ==> !IsPlainType(payload.parts.value[j])
    ensures ListBody(Some(payload), decode) == ""
  {
  }

  /** `headers.find(h => h.name === 'Subject')?.value || 'No Subject'`. */
  function SubjectOf(headers: seq<Header>): (r: string)
    ensures r != ""
  {
    match Find(headers, IsSubjectHeader)
    case Some(h) => OrElse(h.value, NoSubject)
    case None => NoSubject
  }

  /** The subject comes from the first header named exactly `Subject`; names in other
      cases, and later `Subject` headers, are not considered. */
  lemma SubjectFromFirstExactMatch(headers: seq<Header>, i: nat)
    requires i < |headers| && IsSubjectHeader(headers[i])
    requires forall j :: 0 <= j < i ==> !IsSubjectHeader(headers[j])
    ensures SubjectOf(headers) == if Truthy(headers[i].value) then headers[i].value.value else NoSubject
  {
    FindIndexIs(headers, IsSubjectHeader, i);
  }

  /** Without a header named exactly `Subject` (a `subject` header does not count) the
      subject is `'No Subject'`. */
  lemma SubjectDefault(headers: seq<Header>)
    requires forall j :: 0 <= j < |headers| ==> headers[j].name != Some("Subject")
    ensures SubjectOf(headers) == NoSubject
  {
    assert forall j :: 0 <= j < |headers| ==> !IsSubjectHeader(headers[j]);
  }

  /** The list entry for one fetched message. */
  function Entry(id: string, payload: Option<Part>, decode: Decoder): (e: EmailSummary)
    ensures e.id == id && e.subject != "" && e.body != ""
    ensures e.subject == SubjectOf(if payload.Some? then payload.value.headers else [])
    ensures ListBody(payload, decode) != "" ==> e.body == ListBody(payload, decode)
    ensures ListBody(payload, decode) == "" ==> e.body == NoBodyContent
    ensures payload.None? ==> e.subject == NoSubject && e.body == NoBodyContent
  {
    var headers := if payload.Some? then payload.value.headers else [];
    EmailSummary(id, SubjectOf(headers), OrElse(Some(ListBody(payload, decode)), NoBodyContent))
  }

  /** `.filter(id => id !== null && id !== undefined)` over the listed ids. */
  function PresentIds(ids: seq<Option<string>>): (r: seq<string>)
    ensures |r| <= |ids|
    ensures forall x :: x in r <==> Some(x) in ids
    decreases |ids|
  {
    if ids == [] then []
    else
      var rest := PresentIds(ids[1..]);
      assert forall x :: Some(x) in ids <==> ids[0] == Some(x) || Some(x) in ids[1..];
      match ids[0]
      case None => rest
      case Some(id) => [id] + rest
  }

  /** The filter keeps the order of the listed ids and their repetitions: it works
      piece by piece, keeps a present id and drops a missing one. */
  lemma {:induction false} PresentIdsInOrder(a: seq<Option<string>>, b: seq<Option<string>>)
    ensures PresentIds(a + b) == PresentIds(a) + PresentIds(b)
    ensures PresentIds([None]) == []
    ensures forall x :: PresentIds([Some(x)]) == [x]
    decreases |a|
  {
    assert PresentIds([None]) == PresentIds([]);
    if a != [] {
      assert (a + b)[0] == a[0] && (a + b)[1..] == a[1..] + b;
      PresentIdsInOrder(a[1..], b);
    } else {
      assert a + b == b;
    }
  }

  /** The GET handler: 401 without a token, otherwise one entry per present id, in the
      listed order. `ids` are the ids the list call returned (empty when it returned
      none) and `fetch` gives the payload the provider returns for an id. */
  function Get(authorization: Option<string>, ids: seq<Option<string>>, fetch: string -> Option<Part>, decode: Decoder)
    : (r: Response<seq<EmailSummary>>)
    ensures !Truthy(AccessToken(authorization)) ==> r == Failure(401, "No access token provided")
    ensures Truthy(AccessToken(authorization)) ==> r.Success? && |r.value| == |PresentIds(ids)|
    ensures r.Success? ==> forall k :: 0 <= k < |r.value| ==>
              r.value[k].id == PresentIds(ids)[k] && r.value[k] == Entry(PresentIds(ids)[k], fetch(PresentIds(ids)[k]), decode)
  {
    if !Truthy(AccessToken(authorization)) then Failure(401, "No access token provided")
    else
      var present := PresentIds(ids);
      Success(seq(|present|, k requires 0 <= k < |present| => Entry(present[k], fetch(present[k]), decode)))
  }
}
