/** POST /api/emails (send a reply): look up the original message's headers, choose
    the recipient, normalise the subject, assemble the reply as CRLF-separated lines,
    and hand its base64url encoding to the provider's send call with the original
    thread id. */
module EmailsReply {
  import opened Js
  import opened MailPayload
  import opened Handler
  import Utf8
  import Base64Url

  // ---------------------------------------------------------------------------
  // Header lookup

  /** `header.name?.toLowerCase() === lowerName`. */
  predicate NameIs(h: Header, lowerName: string) {
    h.name.Some? && ToLower(h.name.value) == lowerName
  }

  /** `headers.find(h => h.name?.toLowerCase() === lowerName)?.value`. */
  function HeaderValue(headers: seq<Header>, lowerName: string): (r: Option<string>)
    ensures r.Some? ==> exists k :: 0 <= k < |headers| && NameIs(headers[k], lowerName) && headers[k].value == r
    ensures (forall k :: 0 <= k < |headers| ==> !NameIs(headers[k], lowerName)) ==> r == None
  {
    match Find(headers, h => NameIs(h, lowerName))
    case Some(h) => h.value
    case None => None
  }

  /** The value comes from the first header whose name matches ignoring case, even
      when that value is absent or empty and a later header has one. */
  lemma HeaderLookupFirstMatch(headers: seq<Header>, lowerName: string, i: nat)
    requires i < |headers| && headers[i].name.Some? && ToLower(headers[i].name.value) == lowerName
    requires forall j :: 0 <= j < i ==> !NameIs(headers[j], lowerName)
    ensures HeaderValue(headers, lowerName) == headers[i].value
  {
    FindIndexIs(headers, h => NameIs(h, lowerName), i);
  }

  /** Two names agree ignoring ASCII case, character by character: equal, or the
      first an upper-case letter whose lower-case form is the second. */
  predicate SameIgnoringAsciiCase(a: string, b: string) {
    |a| == |b| &&
    forall i :: 0 <= i < |a| ==> a[i] == b[i] || ('a' <= b[i] <= 'z' && a[i] as int == b[i] as int - 32)
  }

  /** The lookup's name test is case-insensitive: for a lower-case name it accepts
      exactly the header names that spell it in any mix of ASCII cases. */
  lemma NameIsIgnoresCase(h: Header, lowerName: string)
    requires forall i :: 0 <= i < |lowerName| ==> !('A' <= lowerName[i] <= 'Z')
    ensures NameIs(h, lowerName) <==> h.name.Some? && SameIgnoringAsciiCase(h.name.value, lowerName)
  {
    if h.name.Some? && SameIgnoringAsciiCase(h.name.value, lowerName) {
      var n := h.name.value;
      assert forall i :: 0 <= i < |n| ==> ToLower(n)[i] == lowerName[i];
    }
  }

  /** Case does not matter: `FROM` is found when `from` is looked up. */
  lemma HeaderLookupIgnoresCase(address: string)
    ensures HeaderValue([Header(Some("FROM"), Some(address))], "from") == Some(address)
  {
    assert ToLower("FROM") == "from";
    HeaderLookupFirstMatch([Header(Some("FROM"), Some(address))], "from", 0);
  }

  // ---------------------------------------------------------------------------
  // Recipient and subject

  /** `from || to`, with a falsy result as `None` (the handler then answers 400). */
  function Recipient(headers: seq<Header>): (r: Option<string>)
    ensures r.Some? ==> r.value != ""
    ensures r.Some? <==> Truthy(HeaderValue(headers, "from")) || Truthy(HeaderValue(headers, "to"))
    ensures Truthy(HeaderValue(headers, "from")) ==> r == HeaderValue(headers, "from")
    ensures !Truthy(HeaderValue(headers, "from")) && Truthy(HeaderValue(headers, "to")) ==> r == HeaderValue(headers, "to")
  {
    var from := HeaderValue(headers, "from");
    var to := HeaderValue(headers, "to");
    var recipient := if Truthy(from) then from else to;
    if Truthy(recipient) then recipient else None
  }

  const ReplyPrefix := "Re: "

  /** The Subject line's value: the original subject (`'Re: '` when it is absent or
      empty), prefixed with `'Re: '` unless it already starts with `Re:`
      (case-sensitive). */
  function ReplySubject(subject: Option<string>): (r: string)
    ensures StartsWith(r, "Re:")
    ensures Truthy(subject) && StartsWith(subject.value, "Re:") ==> r == subject.value
    ensures Truthy(subject) && !StartsWith(subject.value, "Re:") ==> r == ReplyPrefix + subject.value
    ensures !Truthy(subject) ==> r == ReplyPrefix
  {
    var s := OrElse(subject, ReplyPrefix);
    if StartsWith(s, "Re:") then s
    else
      assert (ReplyPrefix + s)[..3] == "Re:";
      ReplyPrefix + s
  }

  /** Normalising an already normalised subject changes nothing: no `Re: Re:`. */
  lemma ReplySubjectIdempotent(subject: Option<string>)
    ensures ReplySubject(Some(ReplySubject(subject))) == ReplySubject(subject)
  {
  }

  /** A reply to a message from `a@x.com` with subject `Hello` goes to `a@x.com`
      under the subject `Re: Hello`; a reply to `Re: Hello` keeps that subject. */
  lemma ExampleRecipientAndSubject()
    ensures var headers := [Header(Some("From"), Some("a@x.com")), Header(Some("Subject"), Some("Hello"))];
            && Recipient(headers) == Some("a@x.com")
            && ReplySubject(HeaderValue(headers, "subject")) == "Re: Hello"
            && ReplySubject(Some("Re: Hello")) == "Re: Hello"
  {
    var headers := [Header(Some("From"), Some("a@x.com")), Header(Some("Subject"), Some("Hello"))];
    assert ToLower("From") == "from";
    assert ToLower("Subject") == "subject";
    HeaderLookupFirstMatch(headers, "from", 0);
    HeaderLookupFirstMatch(headers, "subject", 1);
    assert !StartsWith("Hello", "Re:") by { FirstCharDiffers("Hello", "Re:"); }
  }

  // ---------------------------------------------------------------------------
  // The reply message

  const ContentTypeLine := "Content-Type: text/plain; charset=\"UTF-8\""
  const MimeVersionLine := "MIME-Version: 1.0"
  const TransferEncodingLine := "Content-Transfer-Encoding: 7bit"

  /** The ten lines of the reply, in order. */
  function ReplyLines(subject: string, recipient: string, emailId: string, replyBody: string): (r: seq<string>)
    ensures |r| == 10 && r[8] == "" && r[9] == replyBody
  {
    [ContentTypeLine, MimeVersionLine, TransferEncodingLine,
     "Subject: " + subject, "From: me", "To: " + recipient,
     "In-Reply-To: " + emailId, "References: " + emailId,
     "", replyBody]
  }

  /** `[...].join('\r\n')`: the header block, an empty line, and the reply body
      verbatim, so the message ends with CRLF CRLF followed by the body. */
  function ComposeMessage(subject: string, recipient: string, emailId: string, replyBody: string): (r: string)
    ensures r == Join(ReplyHeaderLines(subject, recipient, emailId), "\r\n") + "\r\n" + "\r\n" + replyBody
  {
    ReplyLinesJoined(subject, recipient, emailId, replyBody);
    Join(ReplyLines(subject, recipient, emailId, replyBody), "\r\n")
  }

  /** The eight header lines of the reply: the fixed MIME block, the subject, the
      sender, the recipient, and both threading headers set to the provider id. */
  function ReplyHeaderLines(subject: string, recipient: string, emailId: string): seq<string> {
    ReplyLines(subject, recipient, emailId, "")[..8]
  }

  /** The joined reply lines are the joined header lines, an empty line and the body. */
  lemma ReplyLinesJoined(subject: string, recipient: string, emailId: string, replyBody: string)
    ensures Join(ReplyLines(subject, recipient, emailId, replyBody), "\r\n") ==
              Join(ReplyHeaderLines(subject, recipient, emailId), "\r\n") + "\r\n" + "\r\n" + replyBody
  {
    var ls := ReplyLines(subject, recipient, emailId, replyBody);
    var hs := ReplyHeaderLines(subject, recipient, emailId);
    assert ls == hs + ["", replyBody];
    JoinAppend(hs, ["", replyBody], "\r\n");
    assert Join(["", replyBody], "\r\n") == "" + "\r\n" + replyBody;
  }

  /** Joining two non-empty runs of lines puts one separator between them. */
  lemma {:induction false} JoinAppend(a: seq<string>, b: seq<string>, sep: string)
    requires a != [] && b != []
    ensures Join(a + b, sep) == Join(a, sep) + sep + Join(b, sep)
    decreases |a|
  {
    assert (a + b)[0] == a[0];
    if |a| > 1 {
      assert (a + b)[1..] == a[1..] + b;
      JoinAppend(a[1..], b, sep);
    } else {
      assert (a + b)[1..] == b;
    }
  }

  // ---------------------------------------------------------------------------
  // Reading a message back: split off header lines up to the first empty line

  /** The text before the first CRLF, and the text after it (`None` without a CRLF). */
  function BreakLine(s: string): (r: (string, Option<string>))
    ensures r.1.Some? ==> |r.0| + 2 + |r.1.value| == |s|
    decreases |s|
  {
    if |s| < 2 then (s, None)
    else if s[0] == '\r' && s[1] == '\n' then ("", Some(s[2..]))
    else
      var (line, rest) := BreakLine(s[1..]);
      ([s[0]] + line, rest)
  }

  /** The header lines of a message (up to the first empty line) and its body. */
  function ParseMessage(s: string): (seq<string>, string)
    decreases |s|
  {
    match BreakLine(s)
    case (line, None) => if line == "" then ([], "") else ([line], "")
    case (line, Some(rest)) =>
      if line == "" then ([], rest)
      else
        var (headers, body) := ParseMessage(rest);
        ([line] + headers, body)
  }

  /** The value of the first header line of the form `<name>: <value>`. */
  function ParsedHeader(s: string, name: string): Option<string> {
    var prefix := name + ": ";
    match Find(ParseMessage(s).0, (line: string) => StartsWith(line, prefix))
    case Some(line) => Some(line[|prefix|..])
    case None => None
  }

  /** A line without CR ends at the CRLF that follows it. */
  lemma {:induction false} BreakLineAt(a: string, t: string)
    requires '\r' !in a
    ensures BreakLine(a + "\r\n" + t) == (a, Some(t))
    decreases |a|
  {
    var s := a + "\r\n" + t;
    if a == [] {
      assert s == "\r\n" + t && s[2..] == t;
    } else {
      assert s[0] == a[0] && s[0] != '\r';
      assert s[1..] == a[1..] + "\r\n" + t;
      BreakLineAt(a[1..], t);
      assert [a[0]] + a[1..] == a;
    }
  }

  /** Joining non-empty CR-free header lines, an empty line and a body, then parsing,
      gives back the header lines and the body. */
  lemma {:induction false} ParseJoined(headers: seq<string>, body: string)
    requires forall k :: 0 <= k < |headers| ==> headers[k] != "" && '\r' !in headers[k]
    ensures ParseMessage(Join(headers + ["", body], "\r\n")) == (headers, body)
    decreases |headers|
  {
    var sep := "\r\n";
    if headers == [] {
      assert headers + ["", body] == ["", body];
      assert Join(["", body], sep) == "" + sep + body;
      BreakLineAt("", body);
      assert "" + sep + body == "" + "\r\n" + body;
    } else {
      var all := headers + ["", body];
      assert all == [headers[0]] + (headers[1..] + ["", body]);
      JoinCons(headers[0], headers[1..] + ["", body], sep);
      BreakLineAt(headers[0], Join(headers[1..] + ["", body], sep));
      ParseJoined(headers[1..], body);
      var joined := Join(all, sep);
      assert joined == headers[0] + "\r\n" + Join(headers[1..] + ["", body], sep);
      assert BreakLine(joined) == (headers[0], Some(Join(headers[1..] + ["", body], sep)));
      assert headers[0] != "";
      assert [headers[0]] + headers[1..] == headers;
    }
  }

  /** Joining lines ahead of a joined tail. */
  lemma JoinCons(line: string, rest: seq<string>, sep: string)
    requires rest != []
    ensures Join([line] + rest, sep) == line + sep + Join(rest, sep)
  {
    assert ([line] + rest)[1..] == rest;
  }

  /** A line whose first character differs from the prefix's does not start with it. */
  lemma FirstCharDiffers(line: string, prefix: string)
    requires line != "" && prefix != "" && line[0] != prefix[0]
    ensures !StartsWith(line, prefix)
  {
  }

  /** No character of the fixed header lines is a CR, and their first letters differ
      from those of `Subject`, `To`, `In-Reply-To` and `References`. */
  lemma FixedLinesFacts()
    ensures '\r' !in ContentTypeLine && '\r' !in MimeVersionLine && '\r' !in TransferEncodingLine
    ensures '\r' !in "Subject: " && '\r' !in "From: me" && '\r' !in "To: "
    ensures '\r' !in "In-Reply-To: " && '\r' !in "References: "
    ensures ContentTypeLine[0] == 'C' && MimeVersionLine[0] == 'M' && TransferEncodingLine[0] == 'C'
  {
  }

  /** The reply's header lines are non-empty, free of CR, and begin with the letters
      C, M, C, S, F, T, I, R. */
  lemma ReplyHeaderLinesFacts(subject: string, recipient: string, emailId: string)
    requires '\r' !in subject && '\r' !in recipient && '\r' !in emailId
    ensures var hs := ReplyHeaderLines(subject, recipient, emailId);
            && |hs| == 8
            && (forall k :: 0 <= k < |hs| ==> hs[k] != "" && '\r' !in hs[k])
            && hs[0][0] == 'C' && hs[1][0] == 'M' && hs[2][0] == 'C' && hs[3][0] == 'S'
            && hs[4][0] == 'F' && hs[5][0] == 'T' && hs[6][0] == 'I' && hs[7][0] == 'R'
  {
    var hs := ReplyHeaderLines(subject, recipient, emailId);
    FixedLinesFacts();
    assert '\r' !in hs[3] by { assert hs[3] == "Subject: " + subject; }
    assert '\r' !in hs[5] by { assert hs[5] == "To: " + recipient; }
    assert '\r' !in hs[6] by { assert hs[6] == "In-Reply-To: " + emailId; }
    assert '\r' !in hs[7] by { assert hs[7] == "References: " + emailId; }
  }

  /** Parsing the composed reply gives back its header lines and its body. */
  lemma ReplyParses(subject: string, recipient: string, emailId: string, replyBody: string)
    requires '\r' !in subject && '\r' !in recipient && '\r' !in emailId
    ensures ParseMessage(ComposeMessage(subject, recipient, emailId, replyBody)) ==
              (ReplyHeaderLines(subject, recipient, emailId), replyBody)
  {
    var hs := ReplyHeaderLines(subject, recipient, emailId);
    ReplyHeaderLinesFacts(subject, recipient, emailId);
    assert ReplyLines(subject, recipient, emailId, replyBody) == hs + ["", replyBody];
    ParseJoined(hs, replyBody);
  }

  /** Each header the reply sets reads back, from the composed message, as the value
      it was given. */
  lemma ReplyHeadersReadBack(subject: string, recipient: string, emailId: string, replyBody: string)
    requires '\r' !in subject && '\r' !in recipient && '\r' !in emailId
    ensures var msg := ComposeMessage(subject, recipient, emailId, replyBody);
            && ParsedHeader(msg, "Subject") == Some(subject)
            && ParsedHeader(msg, "From") == Some("me")
            && ParsedHeader(msg, "To") == Some(recipient)
            && ParsedHeader(msg, "In-Reply-To") == Some(emailId)
            && ParsedHeader(msg, "References") == Some(emailId)
  {
    SubjectReadsBack(subject, recipient, emailId, replyBody);
    FromReadsBack(subject, recipient, emailId, replyBody);
    ToReadsBack(subject, recipient, emailId, replyBody);
    ThreadingReadsBack(subject, recipient, emailId, replyBody);
  }

  lemma SubjectReadsBack(subject: string, recipient: string, emailId: string, replyBody: string)
    requires '\r' !in subject && '\r' !in recipient && '\r' !in emailId
    ensures ParsedHeader(ComposeMessage(subject, recipient, emailId, replyBody), "Subject") == Some(subject)
  {
    var hs := ReplyHeaderLines(subject, recipient, emailId);
    ReplyParses(subject, recipient, emailId, replyBody);
    ReplyHeaderLinesFacts(subject, recipient, emailId);
    assert hs[3] == "Subject" + ": " + subject by { assert "Subject" + ": " == "Subject: "; }
    ReadsBack(ComposeMessage(subject, recipient, emailId, replyBody), hs, "Subject", 3, subject);
  }

  lemma FromReadsBack(subject: string, recipient: string, emailId: string, replyBody: string)
    requires '\r' !in subject && '\r' !in recipient && '\r' !in emailId
    ensures ParsedHeader(ComposeMessage(subject, recipient, emailId, replyBody), "From") == Some("me")
  {
    var hs := ReplyHeaderLines(subject, recipient, emailId);
    ReplyParses(subject, recipient, emailId, replyBody);
    ReplyHeaderLinesFacts(subject, recipient, emailId);
    assert hs[4] == "From" + ": " + "me" by { assert "From" + ": " + "me" == "From: me"; }
    ReadsBack(ComposeMessage(subject, recipient, emailId, replyBody), hs, "From", 4, "me");
  }

  lemma ToReadsBack(subject: string, recipient: string, emailId: string, replyBody: string)
    requires '\r' !in subject && '\r' !in recipient && '\r' !in emailId
    ensures ParsedHeader(ComposeMessage(subject, recipient, emailId, replyBody), "To") == Some(recipient)
  {
    var hs := ReplyHeaderLines(subject, recipient, emailId);
    ReplyParses(subject, recipient, emailId, replyBody);
    ReplyHeaderLinesFacts(subject, recipient, emailId);
    assert hs[5] == "To" + ": " + recipient by { assert "To" + ": " == "To: "; }
    ReadsBack(ComposeMessage(subject, recipient, emailId, replyBody), hs, "To", 5, recipient);
  }

  lemma ThreadingReadsBack(subject: string, recipient: string, emailId: string, replyBody: string)
    requires '\r' !in subject && '\r' !in recipient && '\r' !in emailId
    ensures ParsedHeader(ComposeMessage(subject, recipient, emailId, replyBody), "In-Reply-To") == Some(emailId)
    ensures ParsedHeader(ComposeMessage(subject, recipient, emailId, replyBody), "References") == Some(emailId)
  {
    var msg := ComposeMessage(subject, recipient, emailId, replyBody);
    var hs := ReplyHeaderLines(subject, recipient, emailId);
    ReplyParses(subject, recipient, emailId, replyBody);
    ReplyHeaderLinesFacts(subject, recipient, emailId);
    assert hs[6] == "In-Reply-To" + ": " + emailId by { assert "In-Reply-To" + ": " == "In-Reply-To: "; }
    ReadsBack(msg, hs, "In-Reply-To", 6, emailId);
    assert hs[7] == "References" + ": " + emailId by { assert "References" + ": " == "References: "; }
    ReadsBack(msg, hs, "References", 7, emailId);
  }

  /** A header line preceded only by lines with a different first letter reads back
      under its name. */
  lemma ReadsBack(msg: string, hs: seq<string>, name: string, i: nat, value: string)
    requires ParseMessage(msg).0 == hs && i < |hs| && name != ""
    requires hs[i] == name + ": " + value
    requires forall j :: 0 <= j < i ==> hs[j] != "" && hs[j][0] != name[0]
    ensures ParsedHeader(msg, name) == Some(value)
  {
    var prefix := name + ": ";
    var starts := (line: string) => StartsWith(line, prefix);
    forall j | 0 <= j < i ensures !starts(hs[j]) {
      FirstCharDiffers(hs[j], prefix);
    }
    assert hs[i][..|prefix|] == prefix;
    FindIndexIs(hs, starts, i);
    assert hs[i][|prefix|..] == value;
  }

  // ---------------------------------------------------------------------------
  // Transport encoding and the handler

  /** What the provider returned for the original message: its thread id and its
      payload (whose headers are read). */
  datatype OriginalMessage = OriginalMessage(threadId: Option<string>, payload: Option<Part>)

  /** The `requestBody` handed to the provider's send call. */
  datatype SendRequest = SendRequest(raw: string, threadId: Option<string>)

  /** `originalEmail.data.payload?.headers || []`. */
  function OriginalHeaders(original: OriginalMessage): (r: seq<Header>)
    ensures original.payload.Some? ==> r == original.payload.value.headers
    ensures original.payload.None? ==> r == [] && Recipient(r).None?
  {
    match original.payload
    case Some(p) => p.headers
    case None => []
  }

  /** `Buffer.from(replyEmail).toString('base64url')`. */
  function EncodeRaw(message: string): (raw: string)
    ensures forall k :: 0 <= k < |raw| ==> Base64Url.IsAlphabetChar(raw[k])
  {
    Base64Url.Encode(Utf8.Encode(message))
  }

  /** Reading a raw message back: base64url, then UTF-8. */
  function DecodeRaw(raw: string): Option<string> {
    match Base64Url.Decode(raw)
    case None => None
    case Some(bytes) => Utf8.Decode(bytes)
  }

  /** The raw form decodes back to the composed message. */
  lemma DecodeRawEncodeRaw(message: string)
    ensures DecodeRaw(EncodeRaw(message)) == Some(message)
  {
    Base64Url.DecodeEncode(Utf8.Encode(message));
    Utf8.DecodeEncode(message);
  }

  /** The POST handler up to the send call. A `Success` carries the request handed to
      the provider's send operation. */
  function Post(authorization: Option<string>, emailId: Option<string>, replyBody: Option<string>, original: OriginalMessage)
    : (r: Response<SendRequest>)
    ensures !Truthy(AccessToken(authorization)) ==> r == Failure(401, "No access token provided")
    ensures Truthy(AccessToken(authorization)) && !(Truthy(emailId) && Truthy(replyBody)) ==>
              r == Failure(400, "Email ID and reply body are required")
    ensures Truthy(AccessToken(authorization)) && Truthy(emailId) && Truthy(replyBody) ==>
              (r.Success? <==> Recipient(OriginalHeaders(original)).Some?) &&
              (r.Failure? ==> r == Failure(400, "No valid recipient found"))
    ensures r.Success? ==>
              var headers := OriginalHeaders(original);
              && Truthy(emailId) && Truthy(replyBody) && Recipient(headers).Some?
              && r.value.threadId == original.threadId
              && DecodeRaw(r.value.raw) == Some(ComposeMessage(ReplySubject(HeaderValue(headers, "subject")),
                                                               Recipient(headers).value, emailId.value, replyBody.value))
  {
    if !Truthy(AccessToken(authorization)) then Failure(401, "No access token provided")
    else if !Truthy(emailId) || !Truthy(replyBody) then Failure(400, "Email ID and reply body are required")
    else
      var headers := OriginalHeaders(original);
      var subject := HeaderValue(headers, "subject");
      match Recipient(headers)
      case None => Failure(400, "No valid recipient found")
      case Some(recipient) =>
        var replyEmail := ComposeMessage(ReplySubject(subject), recipient, emailId.value, replyBody.value);
        DecodeRawEncodeRaw(replyEmail);
        Success(SendRequest(EncodeRaw(replyEmail), original.threadId))
  }

  /** What the provider receives reads back as a reply to the original: decoding the
      raw message and parsing its header block recovers the recipient, the
      `Re:`-subject, the threading headers (both the provider id) and the body. */
  lemma SentReplyReadsBack(authorization: Option<string>, emailId: Option<string>, replyBody: Option<string>, original: OriginalMessage)
    requires Truthy(AccessToken(authorization)) && Truthy(emailId) && Truthy(replyBody)
    requires Recipient(OriginalHeaders(original)).Some?
    requires var headers := OriginalHeaders(original);
             && '\r' !in ReplySubject(HeaderValue(headers, "subject"))
             && '\r' !in Recipient(headers).value
             && '\r' !in emailId.value
    ensures var headers := OriginalHeaders(original);
            var request := Post(authorization, emailId, replyBody, original).value;
            var message := DecodeRaw(request.raw);
            && message.Some?
            && ParsedHeader(message.value, "To") == Recipient(headers)
            && ParsedHeader(message.value, "Subject") == Some(ReplySubject(HeaderValue(headers, "subject")))
            && ParsedHeader(message.value, "In-Reply-To") == emailId
            && ParsedHeader(message.value, "References") == emailId
            && ParseMessage(message.value).1 == replyBody.value
            && request.threadId == original.threadId
  {
    var headers := OriginalHeaders(original);
    var subject := ReplySubject(HeaderValue(headers, "subject"));
    ReplyHeadersReadBack(subject, Recipient(headers).value, emailId.value, replyBody.value);
    ReplyParses(subject, Recipient(headers).value, emailId.value, replyBody.value);
  }
}
