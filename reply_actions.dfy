/**
 * Abstract results of the library's response and action constructors, as the
 * test reply helpers use them. A NULL action is Fail.
 */
module ReplyActions {

  const HttpNoContent: nat := 204

  /** A response reduced to its status code and the headers the helpers add. */
  datatype Reply = Reply(status: nat, headers: seq<(string, string)>)

  /** What a request handler returns (MHD_action_from_response, or NULL). */
  datatype Action = Respond(reply: Reply) | Fail

  /** What an upload callback returns (MHD_upload_action_*, or NULL). */
  datatype UploadAction = UploadContinue | UploadRespond(reply: Reply) | UploadFail

  /** What a dynamic content reader returns (MHD_DCC_action_*). */
  datatype DccAction = DccFinish | DccContinue(size: nat)

  /** An empty reply with status 204, the helpers' success answer. */
  function NoContent(): Reply {
    Reply(HttpNoContent, [])
  }
}
