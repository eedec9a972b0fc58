/** POST /api/emails/reply (the reply draft), up to the call to the text generator:
    check the request, extract the body of the fetched message with the same scan as
    the summarize handler, and build the prompt. */
module ReplyRoute {
  import opened Js
  import opened MailPayload
  import opened Handler
  import ScanExtraction

  const ReplyPromptPrefix := "Based on the following email, generate a polite and professional reply: "

  /** The handler for one request. `payload` is the payload the provider returned for
      `emailId`; a `Success` carries the prompt handed to the generator. */
  method Post(authorization: Option<string>, emailId: Option<string>, payload: Option<Part>, decode: Decoder)
    returns (r: Response<string>)
    ensures !Truthy(emailId) || !Truthy(AccessToken(authorization)) ==>
              r == Failure(400, "Missing email ID or access token")
    ensures Truthy(emailId) && Truthy(AccessToken(authorization)) ==>
              var body := ScanExtraction.ExtractBody(payload, decode);
              (body == "" ==> r == Failure(500, "Failed to retrieve email body")) &&
              (body != "" ==> r == Success(ReplyPromptPrefix + body))
    ensures r.Success? ==> |r.value| > |ReplyPromptPrefix| && StartsWith(r.value, ReplyPromptPrefix)
  {
    var accessToken := AccessToken(authorization);
    if !Truthy(emailId) || !Truthy(accessToken) {
      return Failure(400, "Missing email ID or access token");
    }
    var emailBody := ScanExtraction.ExtractBodyLoop(payload, decode);
    if emailBody == "" {
      return Failure(500, "Failed to retrieve email body");
    }
    var replyPrompt := ReplyPromptPrefix + emailBody;
    assert replyPrompt[..|ReplyPromptPrefix|] == ReplyPromptPrefix;
    return Success(replyPrompt);
  }
}
