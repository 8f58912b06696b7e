/**
 * The request handlers of the test reply helpers that split their closure text
 * and compare it with the request
 * (src/tests/client_server/libtest_convenience_server_reply.c). The library's
 * MHD_request_get_value becomes a map lookup: a key that is absent is NULL, a
 * key present without a value maps to None.
 */
module ReplyHandlers {
  import opened Wrappers
  import opened TextSplit
  import opened ReplyActions
  import opened CStrings

  /** Request values of one kind (headers or GET arguments). */
  type Values = map<string, Option<string>>

  /**
   * MHDT_server_reply_with_header: the closure is "Name:Value"; reply 204 with that
   * header. addHeader stands for MHD_response_add_header accepting the header.
   */
  function ReplyWithHeader(header: string, addHeader: (string, string) -> bool): (r: Action)
    requires '\0' !in header && ':' in header
    ensures r.Fail? <==> !addHeader(SplitAtFirst(header, ':').0, SplitAtFirst(header, ':').1.value)
    ensures r.Respond? ==>
      && r.reply.status == HttpNoContent
      && |r.reply.headers| == 1
      && r.reply.headers[0].0 + ":" + r.reply.headers[0].1 == header
      && ':' !in r.reply.headers[0].0
  {
    var (name, value) := SplitAtFirst(header, ':');
    if !addHeader(name, value.value) then Fail
    else Respond(Reply(HttpNoContent, [(name, value.value)]))
  }

  /**
   * MHDT_server_reply_check_header: the closure is "Key:Value" or just "Key"
   * (the header must then be present without a value). Succeeds with 204
   * exactly when the request's header has that value, as strcmp compares it.
   */
  function CheckHeader(want: string, headers: Values): (r: Action)
    requires '\0' !in want
    ensures r == Respond(NoContent()) || r == Fail
    ensures r.Respond? <==>
      var (key, value) := SplitAtFirst(want, ':');
      key in headers && NStrEq(value, headers[key])
  {
    var (key, value) := SplitAtFirst(want, ':');
    if key !in headers then Fail
    else
      var have := headers[key];
      if value.None? then
        if have.Some? then Fail else Respond(NoContent())
      else if have.None? then Fail
      else if !StrEq(have.value, value.value) then Fail
      else Respond(NoContent())
  }

  /** A name without a colon, joined to a value with one, splits back into the two. */
  lemma SplitAtFirstOfJoined(name: string, value: string, c: char)
    requires c !in name
    ensures SplitAtFirst(name + [c] + value, c) == (name, Some(value))
  {
    var s := name + [c] + value;
    FirstIndexAfter(name, value, c);
    assert s[..|name|] == name;
    assert s[|name| + 1..] == value;
  }

  /**
   * The header text MHDT_server_reply_with_header sends is the text
   * MHDT_server_reply_check_header accepts: for "Name:Value" the reply carries
   * (Name, Value), and the check succeeds exactly when the request has header
   * Name with value Value.
   */
  lemma HeaderTextRoundTrip(name: string, value: string, headers: Values)
    requires '\0' !in name && '\0' !in value && ':' !in name
    ensures ReplyWithHeader(name + ":" + value, (n, v) => true)
         == Respond(Reply(HttpNoContent, [(name, value)]))
    ensures CheckHeader(name + ":" + value, headers).Respond? <==>
      name in headers && headers[name].Some? && CString(headers[name].value) == value
  {
    assert name + ":" + value == name + [':'] + value;
    assert '\0' !in name + ":" + value;
    SplitAtFirstOfJoined(name, value, ':');
    CStringOfNulFree(value);
  }

  /**
   * The header check compares the request's value with strcmp, so a value that
   * goes on past an embedded NUL still matches the text before it.
   */
  lemma CheckHeaderStopsAtNul(name: string, value: string, rest: string, headers: Values)
    requires '\0' !in name && '\0' !in value && ':' !in name
    requires name in headers && headers[name] == Some(value + ['\0'] + rest)
    ensures CheckHeader(name + ":" + value, headers) == Respond(NoContent())
  {
    HeaderTextRoundTrip(name, value, headers);
    StrEqStopsAtNul(value, rest);
  }

  /** One query token "arg=val" or "arg" agrees with the request's GET arguments. */
  predicate QueryArgMatches(tok: string, args: Values) {
    var (arg, val) := SplitAtFirst(tok, '=');
    arg in args && NStrEq(val, args[arg])
  }

  /**
   * MHDT_server_reply_check_query: every '&'-separated token of the closure must
   * match a GET argument; the first mismatch fails the request.
   */
  method CheckQuery(equery: string, args: Values) returns (act: Action)
    requires '\0' !in equery
    ensures act == Respond(NoContent()) || act == Fail
    ensures act.Respond? <==>
      forall i :: 0 <= i < |Tokens(equery, '&')| ==> QueryArgMatches(Tokens(equery, '&')[i], args)
  {
    var toks := Tokens(equery, '&');
    var i := 0;
    while i < |toks|
      invariant 0 <= i <= |toks|
      invariant forall j :: 0 <= j < i ==> QueryArgMatches(toks[j], args)
    {
      var (arg, val) := SplitAtFirst(toks[i], '=');
      if arg !in args {
        return Fail;
      }
      var sn := args[arg];
      if val.None? {
        if sn.Some? {
          return Fail;
        }
      } else {
        if sn.None? {
          return Fail;
        }
        if !StrEq(val.value, sn.value) {
          return Fail;
        }
      }
      i := i + 1;
    }
    return Respond(NoContent());
  }

  /**
   * check_upload_cb: the full upload must have the expected length and bytes;
   * then the answer is an empty 204 reply, otherwise the upload fails (NULL).
   */
  function CheckUpload(want: string, content: string): (r: UploadAction)
    requires '\0' !in want
    ensures r == UploadRespond(NoContent()) || r == UploadFail
    ensures r.UploadRespond? <==> content == want
  {
    if |content| != |want| then UploadFail
    else if content != want then UploadFail
    else UploadRespond(NoContent())
  }
}
