# AI email manager: body extraction and reply composition

This project models the two pieces of logic inside the email route handlers of the
AI email manager, a Next.js app over the Gmail API. It also proves properties of them.

- **Body extraction** picks the text of a fetched message out of its payload. There
  are two variants:
  - The *scan* variant is shared word for word by the summarize and reply-draft
    handlers. It is modelled once, in `ScanExtraction`, and both handlers call it.
  - The *list* variant is used by the GET list handler (`EmailsList`).
- **Reply composition** belongs to the POST handler of `/api/emails` (`EmailsReply`).
  It does these steps:
  - a case-insensitive header lookup;
  - the choice of recipient (`from || to`);
  - `Re:` subject normalisation;
  - the ten CRLF-joined lines of the reply;
  - the base64url encoding of its UTF-8 bytes, handed to the send call together with
    the original thread id.

Modules:

| module | file | models |
|---|---|---|
| `Js` | js.dfy | the JavaScript behaviour the handlers rely on: optional values and truthiness, `find` (with the first-index helper behind it), `join`, `split(' ')`, `startsWith`, `toLowerCase`, bytes |
| `Handler` | handler.dfy | the response datatype and the bearer-token read from the `authorization` header |
| `MailPayload` | mail_payload.dfy | the message payload: parts, headers, body data; the decoder type |
| `ScanExtraction` | scan_extraction.dfy | the summarize/reply extraction loop, its specification and its properties |
| `SummarizeRoute`, `ReplyRoute` | summarize_route.dfy, reply_route.dfy | the two POST handlers, up to the generator call |
| `EmailsList` | emails_list.dfy | the GET handler: body and subject of each listed message |
| `EmailsReply` | emails_reply.dfy | the POST reply handler, plus a re-parser of the composed message |
| `Utf8`, `Base64Url` | utf8.dfy, base64url.dfy | `Buffer.from(string)` and `toString('base64url')`, each with a decoder and a round trip |

Several things are parameters or inputs rather than modelled code:
- Base64 to UTF-8 decoding of body data (`Buffer.from(d, 'base64').toString('utf-8')`)
  is the parameter `decode: string -> string`. Every property holds for every decoder.
- The payloads that the provider returns are inputs. For the GET handler this is a
  function `fetch` from id to payload.
- The send and generate calls are sinks. A `Success` response carries the request or
  prompt that is handed to them.

Some behaviours of the code are easy to misread; the model keeps them as written:
- The scan never recurses into nested multiparts (`NestedPlainIgnored`).
- The *first* HTML part with a non-empty decoding is kept, not the last one.
- The list handler does not use the scan. It takes top-level data first, whatever
  its type. Otherwise it takes the first `text/plain` part, even when that part has
  no data.
- The recipient falls back to `To` when `From` is empty as well as when it is absent.
  An empty `To` is rejected too.

## Model

| member | source | states |
|---|---|---|
| Js.Split | src/app/api/emails/route.ts:6 | `split` on a one-character separator gives at least one field, and no field contains the separator |
| Js.Join | src/app/api/emails/route.ts:117-128 | `join` has no contract of its own; what it does is stated by Js.JoinSplit (a split joined again is the original string), Js.JoinFirstTwo (the first two fields and the separator come first) and EmailsReply.JoinAppend (joining two runs puts one separator between them) |
| Js.JoinSplit | src/app/api/emails/route.ts:6 | joining the fields of a split with the same separator gives the original string back |
| Js.JoinFirstTwo | src/app/api/emails/route.ts:6 | a join of two or more fields starts with the first field, the separator and the second field, followed by the end or by the separator |
| Js.Find | src/app/api/emails/route.ts:40 | `find` returns an element exactly when one satisfies the test, and then the first such element |
| Js.ToLower | src/app/api/emails/route.ts:103-105 | `toLowerCase` on ASCII letters: the length is kept and each character is lower-cased on its own; what the lookup gains from it is stated independently by EmailsReply.NameIsIgnoresCase |
| Handler.AccessToken | src/app/api/emails/route.ts:6-10 | the token is the second space-separated field of the Authorization header: it follows a space-free first field and one space, and is followed by the end of the header or a space; it exists exactly when the header exists and contains a space, and it never contains a space |
| Handler.BearerToken | src/app/api/emails/route.ts:6 | a `Bearer <token>` header yields exactly the token |
| ScanExtraction.ScannedParts | src/app/api/emails/summarize/route.ts:39-41 | `payload.parts \|\| [payload]`: a parts array that is present is scanned as it is (an empty one is truthy, so nothing is scanned); without one the payload itself is scanned |
| ScanExtraction.Scan | src/app/api/emails/summarize/route.ts:43-55 | the scan ends with the body it started from or with the decoding of a part that passed the plain or the HTML test |
| ScanExtraction.ExtractBody | src/app/api/emails/summarize/route.ts:32-56 | no payload gives `''`; otherwise the body is the priority rule (first plain candidate, else first usable HTML, else `''`) applied to the scanned parts |
| ScanExtraction.ExtractBodyLoop | src/app/api/emails/summarize/route.ts:32-56 | the `for`/`break` loop over `payload.parts \|\| [payload]` returns exactly the body the scan specification gives (`''` without a payload) |
| ScanExtraction.ScanIsPriority | src/app/api/emails/summarize/route.ts:44-55 | the scan equals the independent rule "decoding of the first text/plain part with data; otherwise the first text/html part with data whose decoding is non-empty; otherwise empty" |
| ScanExtraction.ScanAfterCapture | src/app/api/emails/summarize/route.ts:46-53 | once a body is captured, only a later text/plain part with data replaces it; HTML never overwrites it |
| ScanExtraction.PlainWins | src/app/api/emails/reply/route.ts:43-54 | the first text/plain part with data decides the body, whatever HTML parts come before it (a later plain part overrides captured HTML) |
| ScanExtraction.FirstHtmlWins | src/app/api/emails/summarize/route.ts:52-53 | without a plain candidate, the first HTML part with a non-empty decoding decides the body; later HTML parts do not overwrite it |
| ScanExtraction.NoCandidateNoBody | src/app/api/emails/summarize/route.ts:43-55 | with no plain candidate and no HTML part that decodes to something, the body is empty |
| ScanExtraction.OnlyCandidatesMatter | src/app/api/emails/summarize/route.ts:43-55 | deleting every part that is not a text/plain or text/html part with data leaves the body unchanged |
| ScanExtraction.SubPartsNeverVisited | src/app/api/emails/reply/route.ts:39-43 | two part lists that agree on each part's type and data give the same body: nested children and headers are never looked at |
| ScanExtraction.NestedPlainIgnored | src/app/api/emails/summarize/route.ts:40-44 | a text/plain part nested inside a multipart container is not found; such a message has an empty body |
| SummarizeRoute.Post | src/app/api/emails/summarize/route.ts:5-66 | missing email id or token gives 400; an empty extracted body gives 500; otherwise the prompt is the fixed prefix followed by the extracted body, which is non-empty |
| ReplyRoute.Post | src/app/api/emails/reply/route.ts:5-65 | the same checks and the same extraction as the summarize handler; on success the prompt is the reply prefix followed by the extracted body |
| EmailsList.ListBody | src/app/api/emails/route.ts:46-54 | the list body is `''`, the decoding of the payload's own data, or the decoding of the data of a `text/plain` part; no payload gives `''` |
| EmailsList.ExtractListBody | src/app/api/emails/route.ts:45-54 | the `let body` / if-else extraction returns exactly the list-body specification |
| EmailsList.TopLevelDataWins | src/app/api/emails/route.ts:47-48 | data on the payload itself decides the body, whatever its type and its parts |
| EmailsList.FirstPlainPartDecides | src/app/api/emails/route.ts:49-53 | without top-level data, only the first text/plain part counts: its decoding if it has data, else `''`, even when a later text/plain part has data |
| EmailsList.NoPlainPartNoBody | src/app/api/emails/route.ts:46-54 | without top-level data and without a text/plain part the body is `''` |
| EmailsList.SubjectOf | src/app/api/emails/route.ts:58 | the listed subject is never empty |
| EmailsList.SubjectFromFirstExactMatch | src/app/api/emails/route.ts:39-40 | the subject comes from the first header named exactly `Subject`, or is `'No Subject'` when that header's value is empty |
| EmailsList.SubjectDefault | src/app/api/emails/route.ts:40 | without a header named exactly `Subject` (a `subject` header does not count) the subject is `'No Subject'` |
| EmailsList.Entry | src/app/api/emails/route.ts:39-60 | an entry keeps the id and has a non-empty subject and body; the subject is the subject rule applied to the payload's headers (no headers without a payload); the body is the extracted body, or `'No body content'` when that is empty |
| EmailsList.PresentIds | src/app/api/emails/route.ts:28-32 | the ids kept are exactly the present ones, and there are no more of them than listed ids |
| EmailsList.PresentIdsInOrder | src/app/api/emails/route.ts:31-32 | the filter works piece by piece (the filter of a concatenation is the concatenation of the filters), drops a missing id and keeps a present one, so order and repetitions are kept |
| EmailsList.Get | src/app/api/emails/route.ts:5-66 | no token gives 401; otherwise one entry per present id, in list order, each the entry of that id's fetched payload |
| EmailsReply.HeaderValue | src/app/api/emails/route.ts:103-105 | a found value belongs to a header whose lower-cased name matches; without such a header the value is absent |
| EmailsReply.HeaderLookupFirstMatch | src/app/api/emails/route.ts:103-105 | the lookup returns the value of the first header whose lower-cased name matches, even if that value is absent and a later header has one |
| EmailsReply.NameIsIgnoresCase | src/app/api/emails/route.ts:103-105 | for a lower-case name, a header passes the lookup's test exactly when its name spells that name in any mix of ASCII upper and lower case, character by character |
| EmailsReply.HeaderLookupIgnoresCase | src/app/api/emails/route.ts:104 | a `FROM` header is found by the `from` lookup |
| EmailsReply.Recipient | src/app/api/emails/route.ts:104-112 | the recipient is From when From is non-empty, else To; there is none exactly when both are absent or empty; it is never empty |
| EmailsReply.ReplySubject | src/app/api/emails/route.ts:103-121 | a missing or empty subject gives `'Re: '`; a subject starting with `Re:` (case-sensitive) is kept; any other subject gets `'Re: '` prepended; the result always starts with `Re:` |
| EmailsReply.ReplySubjectIdempotent | src/app/api/emails/route.ts:121 | normalising a normalised subject changes nothing (no `Re: Re:`) |
| EmailsReply.ExampleRecipientAndSubject | src/app/api/emails/route.ts:103-121 | a reply to a message from `a@x.com` with subject `Hello` goes to `a@x.com` with subject `Re: Hello`, and a reply to `Re: Hello` keeps that subject |
| EmailsReply.ReplyLines | src/app/api/emails/route.ts:117-128 | the reply has ten lines; the ninth is empty and the tenth is the reply body |
| EmailsReply.ComposeMessage | src/app/api/emails/route.ts:117-128 | the message is the eight header lines joined by CRLF, then CRLF CRLF, then the reply body verbatim |
| EmailsReply.ReplyParses | src/app/api/emails/route.ts:117-128 | parsing the composed message up to its first empty line gives back exactly the eight header lines and the body |
| EmailsReply.ReplyHeadersReadBack | src/app/api/emails/route.ts:121-125 | in the composed message, Subject, From, To, In-Reply-To and References read back as the subject, `me`, the recipient and the email id (twice) |
| EmailsReply.OriginalHeaders | src/app/api/emails/route.ts:102 | the headers are the payload's; without a payload there are none (`[]`), so no recipient is found |
| EmailsReply.EncodeRaw | src/app/api/emails/route.ts:134 | the raw form uses only the base64url alphabet: no `+`, `/`, `=` or line breaks |
| EmailsReply.DecodeRawEncodeRaw | src/app/api/emails/route.ts:134 | decoding the raw form (base64url, then UTF-8) gives back the composed message |
| EmailsReply.Post | src/app/api/emails/route.ts:74-135 | no token gives 401; a missing email id or reply body gives 400; no recipient gives 400; otherwise the send request carries the original thread id unchanged and a raw form that decodes to the composed reply |
| EmailsReply.SentReplyReadsBack | src/app/api/emails/route.ts:114-135 | what is sent decodes and parses back to the recipient, the `Re:` subject, both threading headers equal to the email id, the reply body, and the original thread id |
| Utf8.Encode | src/app/api/emails/route.ts:134 | a string of n characters takes between n and 4n bytes, exactly n when every character is ASCII |
| Utf8.KnownAnswers | src/app/api/emails/route.ts:134 | `A`, U+00E9, U+20AC and U+1F600 encode to the RFC 3629 byte sequences 41, C3 A9, E2 82 AC and F0 9F 98 80 |
| Utf8.EncodeChar | src/app/api/emails/route.ts:134 | a character takes one to four bytes, one exactly when it is ASCII, and every byte after the first is a continuation byte |
| Utf8.DecodeEncode | src/app/api/emails/route.ts:134 | strict UTF-8 decoding of the encoding of a string gives the string back |
| Utf8.EncodeInjective | src/app/api/emails/route.ts:134 | different strings have different UTF-8 encodings |
| Base64Url.Encode | src/app/api/emails/route.ts:134 | the unpadded encoding of n bytes has (4n+2)/3 characters, all from the base64url alphabet |
| Base64Url.KnownAnswers | src/app/api/emails/route.ts:134 | `Man` encodes to `TWFu` (the RFC 4648 example), `M` to `TQ` without padding, and bytes FB FF to `-_8` |
| Base64Url.DecodeEncode | src/app/api/emails/route.ts:134 | decoding the base64url encoding of a byte sequence gives the bytes back |
| Base64Url.EncodeInjective | src/app/api/emails/route.ts:134 | different byte sequences have different encodings |

## Left out

- OAuth client setup and the provider calls (`messages.list`, `messages.get`, `messages.send`) are left out. So is the `Promise.all` fan-out. These are network I/O and concurrency. Fetched data is an input, and `send` is the sink that receives the `SendRequest`.
- The `catch` branches are left out. These are the 500 responses when `req.json()`, a provider call or a generator call throws. Their causes are outside the model.
- The `maxResults: 10` limit on the list call is not modelled. The listed ids are an input.
- The calls to the text generator and the unpacking of their responses are left out. These are the 500 on a missing candidate and the returned summary or reply text. They are foreign API calls. The handlers are modelled up to the prompt they send.
- The JSON the POST handlers return after a send is left out: the message `'Reply sent successfully'` and the provider's new message id.
- Base64 to UTF-8 decoding of body data is the parameter `decode`. Its lenient base64 and UTF-8 replacement characters are not modelled.
- `emailId` and `replyBody` come from the request JSON. They are modelled as optional strings. Other JSON value types (numbers, objects) are not modelled.
- Handler.AccessToken: `split(' ')` is modelled for its one-character separator only.
- EmailsReply.HeaderValue: `toLowerCase` is modelled on ASCII letters only. For the names compared (`subject`, `from`, `to`), no other character lower-cases to one of their letters, so the lookups agree with full Unicode lower-casing.
- Utf8.EncodeChar: characters are Unicode scalar values. A JavaScript string can contain a lone surrogate, which `Buffer.from` encodes as U+FFFD. That case cannot be expressed here.
- Base64Url.Decode is a strict decoder. It is the partner for the round trip, not a model of Node's lenient `base64url` decoding.
- EmailsReply.SentReplyReadsBack: the subject, recipient and email id must contain no CR. A header value with a CR would break the header block of the reply.
- The settings echo endpoint, the auth configuration and the UI pages are not part of this model.
