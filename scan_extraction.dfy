/** The body extraction shared, line for line, by the summarize and the reply-draft
    handlers: scan the top-level parts (or the payload itself) in order; the first
    `text/plain` part with data is decoded and ends the scan; a `text/html` part with
    data is decoded only while nothing has been captured yet. Sub-parts are never
    visited. */
module ScanExtraction {
  import opened Js
  import opened MailPayload

  /** `payload.parts || [payload]`. An empty `parts` array is truthy, so it is scanned
      as it is (and yields nothing). */
  function ScannedParts(payload: Part): (r: seq<Part>)
    ensures r == [] <==> payload.parts == Some([])
    ensures payload.parts.Some? ==> r == payload.parts.value
    ensures payload.parts.None? ==> r == [payload]
  {
    match payload.parts
    case Some(ps) => ps
    case None => [payload]
  }

  /** A part the plain-text test accepts. */
  predicate IsPlainCandidate(p: Part) {
    HasType(p, PlainText) && HasData(p)
  }

  /** A part the HTML test accepts (when nothing has been captured yet). */
  predicate IsHtmlCandidate(p: Part) {
    HasType(p, Html) && HasData(p)
  }

  /** An HTML part whose decoding is non-empty: once taken it is never overwritten
      by another HTML part. */
  predicate IsUsableHtml(p: Part, decode: Decoder) {
    IsHtmlCandidate(p) && DecodedData(p, decode) != ""
  }

  /** The body left after scanning `parts`, starting from the body captured so far. */
  function Scan(parts: seq<Part>, decode: Decoder, body: string): (r: string)
    ensures r == body || exists k :: 0 <= k < |parts| && (IsPlainCandidate(parts[k]) || IsHtmlCandidate(parts[k])) &&
                                     r == DecodedData(parts[k], decode)
    decreases |parts|
  {
    if parts == [] then body
    else if IsPlainCandidate(parts[0]) then DecodedData(parts[0], decode)
    else if body == "" && IsHtmlCandidate(parts[0]) then Scan(parts[1..], decode, DecodedData(parts[0], decode))
    else Scan(parts[1..], decode, body)
  }

  /** The body the handlers extract from a fetched payload (`''` when there is none). */
  function ExtractBody(payload: Option<Part>, decode: Decoder): (r: string)
    ensures payload.None? ==> r == ""
    ensures payload.Some? ==> r == PriorityBody(ScannedParts(payload.value), decode)
  {
    match payload
    case None => ""
    case Some(p) =>
      ScanIsPriority(ScannedParts(p), decode);
      Scan(ScannedParts(p), decode, "")
  }

  /** The `for (const part of parts)` loop with its `break`, as the handlers run it. */
  method ExtractBodyLoop(payload: Option<Part>, decode: Decoder) returns (emailBody: string)
    ensures emailBody == ExtractBody(payload, decode)
  {
    emailBody := "";
    if payload.Some? {
      var parts := if payload.value.parts.Some? then payload.value.parts.value else [payload.value];
      assert parts == ScannedParts(payload.value);
      for i := 0 to |parts|
        invariant Scan(parts[i..], decode, emailBody) == Scan(parts, decode, "")
      {
        var part := parts[i];
        if part.mimeType == Some("text/plain") && Truthy(part.data) {
          emailBody := decode(part.data.value);
          break;
        }
        if emailBody == "" && part.mimeType == Some("text/html") && Truthy(part.data) {
          emailBody := decode(part.data.value);
        }
        assert parts[i..][1..] == parts[i + 1..];
      }
    }
  }

  // ---------------------------------------------------------------------------
  // An independent statement of the priority rule, and the lemmas tying Scan to it

  /** Index of the first plain-text candidate. */
  function FirstPlain(parts: seq<Part>): Option<nat> {
    FindIndex(parts, IsPlainCandidate)
  }

  /** The decoding of the first HTML part whose decoding is non-empty, or `""`. */
  function FirstHtmlText(parts: seq<Part>, decode: Decoder): string {
    match FindIndex(parts, p => IsUsableHtml(p, decode))
    case None => ""
    case Some(i) => DecodedData(parts[i], decode)
  }

  /** "First plain text wins, otherwise the first usable HTML, otherwise nothing". */
  function PriorityBody(parts: seq<Part>, decode: Decoder): string {
    match FirstPlain(parts)
    case Some(i) => DecodedData(parts[i], decode)
    case None => FirstHtmlText(parts, decode)
  }

  /** Once a body has been captured, only a plain-text part can replace it. */
  lemma {:induction false} ScanAfterCapture(parts: seq<Part>, decode: Decoder, body: string)
    requires body != ""
    ensures Scan(parts, decode, body) ==
              match FirstPlain(parts)
              case Some(i) => DecodedData(parts[i], decode)
              case None => body
    decreases |parts|
  {
    if parts != [] && !IsPlainCandidate(parts[0]) {
      ScanAfterCapture(parts[1..], decode, body);
      assert FirstPlain(parts) == match FirstPlain(parts[1..]) case None => None case Some(k) => Some(k + 1);
    }
  }

  /** The scan computes exactly the priority rule. */
  lemma {:induction false} ScanIsPriority(parts: seq<Part>, decode: Decoder)
    ensures Scan(parts, decode, "") == PriorityBody(parts, decode)
    decreases |parts|
  {
    if parts != [] && !IsPlainCandidate(parts[0]) {
      var usable := (p: Part) => IsUsableHtml(p, decode);
      assert FirstPlain(parts) == match FirstPlain(parts[1..]) case None => None case Some(k) => Some(k + 1);
      assert FindIndex(parts, usable) ==
        if usable(parts[0]) then Some(0)
        else match FindIndex(parts[1..], usable) case None => None case Some(k) => Some(k + 1);
      if IsHtmlCandidate(parts[0]) && DecodedData(parts[0], decode) != "" {
        ScanAfterCapture(parts[1..], decode, DecodedData(parts[0], decode));
      } else {
        ScanIsPriority(parts[1..], decode);
      }
    }
  }

  /** The first plain-text part with data decides the body, whatever HTML parts come
      before it: a later plain part replaces a captured HTML body. */
  lemma PlainWins(parts: seq<Part>, decode: Decoder, i: nat)
    requires i < |parts| && IsPlainCandidate(parts[i])
    requires forall j :: 0 <= j < i ==> !IsPlainCandidate(parts[j])
    ensures Scan(parts, decode, "") == DecodedData(parts[i], decode)
  {
    ScanIsPriority(parts, decode);
    FindIndexIs(parts, IsPlainCandidate, i);
  }

  /** Without a plain-text candidate, the first HTML part with a non-empty decoding
      decides the body; later HTML parts do not overwrite it. */
  lemma FirstHtmlWins(parts: seq<Part>, decode: Decoder, i: nat)
    requires forall j :: 0 <= j < |parts| ==> !IsPlainCandidate(parts[j])
    requires i < |parts| && IsUsableHtml(parts[i], decode)
    requires forall j :: 0 <= j < i ==> !IsUsableHtml(parts[j], decode)
    ensures Scan(parts, decode, "") == DecodedData(parts[i], decode)
  {
    ScanIsPriority(parts, decode);
    var usable := (p: Part) => IsUsableHtml(p, decode);
    FindIndexIs(parts, usable, i);
  }

  /** With neither a plain-text candidate nor an HTML part that decodes to something,
      the body is empty. */
  lemma NoCandidateNoBody(parts: seq<Part>, decode: Decoder)
    requires forall j :: 0 <= j < |parts| ==> !IsPlainCandidate(parts[j]) && !IsUsableHtml(parts[j], decode)
    ensures Scan(parts, decode, "") == ""
  {
    ScanIsPriority(parts, decode);
    var usable := (p: Part) => IsUsableHtml(p, decode);
    assert forall j :: 0 <= j < |parts| ==> !usable(parts[j]);
  }

  /** Only the mime type and the body data of each scanned part matter: headers and
      nested sub-parts are never looked at. */
  lemma {:induction false} SubPartsNeverVisited(parts: seq<Part>, other: seq<Part>, decode: Decoder, body: string)
    requires |parts| == |other|
    requires forall k :: 0 <= k < |parts| ==> parts[k].mimeType == other[k].mimeType && parts[k].data == other[k].data
    ensures Scan(parts, decode, body) == Scan(other, decode, body)
    decreases |parts|
  {
    if parts != [] {
      var next := if body == "" && IsHtmlCandidate(parts[0]) then DecodedData(parts[0], decode) else body;
      SubPartsNeverVisited(parts[1..], other[1..], decode, next);
    }
  }

  /** The parts that can influence the scan: those passing the plain-text or HTML test. */
  function Candidates(parts: seq<Part>): (r: seq<Part>)
    ensures |r| <= |parts|
    ensures forall k :: 0 <= k < |r| ==> IsPlainCandidate(r[k]) || IsHtmlCandidate(r[k])
    decreases |parts|
  {
    if parts == [] then []
    else if IsPlainCandidate(parts[0]) || IsHtmlCandidate(parts[0]) then [parts[0]] + Candidates(parts[1..])
    else Candidates(parts[1..])
  }

  /** Parts of other types, and parts without data, never affect the body. */
  lemma {:induction false} OnlyCandidatesMatter(parts: seq<Part>, decode: Decoder, body: string)
    ensures Scan(parts, decode, body) == Scan(Candidates(parts), decode, body)
    decreases |parts|
  {
    if parts != [] {
      var next := if body == "" && IsHtmlCandidate(parts[0]) then DecodedData(parts[0], decode) else body;
      OnlyCandidatesMatter(parts[1..], decode, next);
      if IsPlainCandidate(parts[0]) || IsHtmlCandidate(parts[0]) {
        assert ([parts[0]] + Candidates(parts[1..]))[1..] == Candidates(parts[1..]);
      }
    }
  }

  /** A text/plain part nested inside a multipart container is not found: the scan
      stays at the top level, so such a message yields no body. */
  lemma NestedPlainIgnored(decode: Decoder, d: string)
    requires d != ""
    ensures var inner := Part(Some(PlainText), [], Some(d), None);
            var container := Part(Some("multipart/alternative"), [], None, Some([inner]));
            ExtractBody(Some(Part(Some("multipart/mixed"), [], None, Some([container]))), decode) == ""
  {
    var inner := Part(Some(PlainText), [], Some(d), None);
    var container := Part(Some("multipart/alternative"), [], None, Some([inner]));
    assert !IsPlainCandidate(container) && !IsHtmlCandidate(container);
    assert Scan([container], decode, "") == Scan([], decode, "");
  }
}
