# libmicrohttpd: response option setter and test reply helpers, in Dafny

This project models two pieces of GNU libmicrohttpd's sequential logic and proves
properties of them.

1. `MHD_response_set_options` (`src/mhd2/response_set_options.c`) is the generated
   setter for per-response options. It refuses with `MHD_SC_TOO_LATE` once the
   response has been finalised, which is when its settings pointer is NULL.
   Otherwise it walks at most `options_max_num` tagged entries in order. Each
   recognised tag overwrites one field of the settings record. `MHD_R_O_END` stops
   the walk with `MHD_SC_OK`. Any other tag, `MHD_R_O_SENTINEL` included, stops it
   with `MHD_SC_OPTION_UNKNOWN`.
   - Module `ResponseOptions` holds the model: class `Response` with field
     `psettings: Option<ResponseSettings>` and method `SetOptions`.
   - `SetOptions`'s loop is proved equal to the reference function `SetOptionsSpec`.
   - Lemmas about `SetOptionsSpec` and `ApplyAll` give the stop, order, frame and
     last-duplicate-wins properties.
2. The request and upload callbacks of the client/server test library
   (`src/tests/client_server/libtest_convenience_server_reply.c`):
   - `ChunkReader` models `chunk_return`, a pull-style content reader that hands out
     a text piece by piece and cuts after the first space.
   - `CStrings` models C string comparison: `strcmp`, which reads each side only
     up to its first NUL, and `nstrcmp`, its NULL-aware variant.
   - `PostCheck` models the incremental POST matcher
     `post_stream_reader`, `check_complete_value` and `post_stream_done`. These
     update an array of expected fields in place.
   - `ReplyHandlers` models the header, query and full-upload checks.
   - `TextSplit` holds the `strchr`/`strtok` splitting they rely on.
   - `ReplyActions` holds the abstract results of the library's response and
     action constructors: `Respond`, `Fail` (a NULL action), `UploadContinue`,
     `DccContinue(n)` and `DccFinish`.

Library calls the helpers make are abstracted as follows:
- `MHD_request_get_value` becomes a lookup in a `map<string, Option<string>>`.
  An absent key is NULL; a key present without a value maps to `None`.
- `MHD_response_add_header` becomes a parameter saying whether the header is
  accepted.
- `MHD_request_get_values_cb` becomes a loop that offers the POST values in order
  until the callback answers NO.

Each `char` of a modelled string stands for one byte, and every length (`strlen`,
a buffer size, `value_size`, an upload size) is a count of those characters.

A closure text the C code measures with `strlen` or splits with `strchr`/`strtok`
is a C string: its characters before the terminating NUL, so it never holds
`'\0'`. The members that take one state this as a precondition (`'\0' !in ...`):
the chunked reader's constructor, `ReplyWithHeader`, `CheckHeader`, `CheckQuery`
and the expected text of `CheckUpload`. The strings the library hands over carry
their own length and may hold a NUL byte (a GET argument decoded from `%00`, say).
These are header and argument values, POST names and values, file names and
content types. Where the C code compares them with `strcmp` (directly or through
`nstrcmp`), the model compares `CString` of each side, the characters before the
first NUL, so text after an embedded NUL is ignored as in C. `memcmp` with an
explicit length becomes plain sequence equality.

Note on the sentinel tag. One might expect an end *or sentinel* marker to end option
processing successfully, but in the code only `MHD_R_O_END` does. `MHD_R_O_SENTINEL`
falls into the unknown-option branch and returns `MHD_SC_OPTION_UNKNOWN`
(`src/mhd2/response_set_options.c:62-66`). The model follows the code.

## Model

| member | source | states |
|---|---|---|
| `ResponseOptions.Response.SetOptions` | src/mhd2/response_set_options.c:18-69 | The returned status and the new settings pointer equal the reference outcome `SetOptionsSpec` of the old pointer, the entries and `options_max_num`. When the settings pointer is NULL nothing is required and the answer is TOO_LATE for any entries. For an open response it is required only that every entry the loop reads exists. |
| `ResponseOptions.SetOptionsOutcome` | src/mhd2/response_set_options.c:24-68 | A NULL settings pointer gives TOO_LATE and stays NULL. Otherwise let k be the first END or unknown entry among the first `options_max_num`. The status is OPTION_UNKNOWN exactly when that entry exists and is not END, and OK otherwise. The new settings are the in-order fold of the entries before k. |
| `ResponseOptions.WalkStopsAtFirstStop` | src/mhd2/response_set_options.c:30-67 | The loop stops at the first END or unknown entry. Entries before it stay applied and entries after it are not applied. END and running out of entries give OK; an unknown tag, SENTINEL included, gives OPTION_UNKNOWN. |
| `ResponseOptions.OnlyReadEntriesMatter` | src/mhd2/response_set_options.c:30-36 | Two option arrays that agree on the first `ReadCount` entries give the same outcome. `ReadCount` counts up to and including the first stop, and at most `options_max_num`. So no entry after the stop, and none at an index of `options_max_num` or above, is ever read. |
| `ResponseOptions.WalkAgreesUpToStop` | src/mhd2/response_set_options.c:62-66 | Walks over two entry lists that agree up to and including the first stop have the same outcome. |
| `ResponseOptions.ApplyFrame` | src/mhd2/response_set_options.c:37-61 | A recognised entry sets its own field to the entry's value and leaves every other field unchanged. |
| `ResponseOptions.TerminationCallbackSetsBoth` | src/mhd2/response_set_options.c:58-60 | The termination-callback entry sets the callback and its closure together. |
| `ResponseOptions.LastDuplicateWins` | src/mhd2/response_set_options.c:30-61 | In a run of recognised entries, a field ends up holding the value of the last entry that names it. |
| `ResponseOptions.UntouchedFieldKept` | src/mhd2/response_set_options.c:30-61 | A field that no applied entry names keeps its old value. |
| `ResponseOptions.ZeroMaxChangesNothing` | src/mhd2/response_set_options.c:30-68 | With `options_max_num == 0` on an open response, the result is OK and the settings are unchanged. |
| `ResponseOptions.EndFirstChangesNothing` | src/mhd2/response_set_options.c:35-36 | A leading END entry returns OK at once, and nothing after it is applied. |
| `ResponseOptions.FirstStop` | src/mhd2/response_set_options.c:30-66 | The stop index is the first entry that is not a recognised setter, or the length when every entry is one. |
| `TextSplit.FirstIndexOf` | src/tests/client_server/libtest_convenience_server_reply.c:111 | `strchr`: None exactly when the character is absent. Otherwise the index of an occurrence with no earlier occurrence. |
| `TextSplit.SplitAtFirst` | src/tests/client_server/libtest_convenience_server_reply.c:237-252 | Without the separator, the key is the whole text and there is no value. With it, key + separator + value is the text and the key holds no separator. |
| `TextSplit.SplitOn` | src/tests/client_server/libtest_convenience_server_reply.c:148-150 | Cutting the text at every delimiter gives at least one field, and no field holds the delimiter. |
| `TextSplit.JoinSplitOn` | src/tests/client_server/libtest_convenience_server_reply.c:148-150 | Joining the delimiter-separated fields with the delimiter gives back the text. |
| `TextSplit.Tokens` | src/tests/client_server/libtest_convenience_server_reply.c:148-150 | The `strtok` tokens are non-empty and free of the delimiter. |
| `TextSplit.NonEmpty` | src/tests/client_server/libtest_convenience_server_reply.c:148-150 | The empty fields are dropped and the others kept in order: every kept field is non-empty and one of the input fields, and there are no more of them than fields. |
| `TextSplit.NonEmptyAppend` | src/tests/client_server/libtest_convenience_server_reply.c:148-150 | Dropping empty fields works field by field: it distributes over concatenation. |
| `TextSplit.TokensStep` | src/tests/client_server/libtest_convenience_server_reply.c:148-150 | Pins `strtok` for every input. Without the delimiter, the text is the only token, or there is none when the text is empty. With it, the part before the first delimiter (if non-empty) is the first token, and tokenising continues after that delimiter. |
| `TextSplit.FirstIndexAfter` | src/tests/client_server/libtest_convenience_server_reply.c:111 | In field + delimiter + rest, with a delimiter-free field, the first delimiter is right after the field. |
| `TextSplit.TokensOfField` | src/tests/client_server/libtest_convenience_server_reply.c:148-150 | A delimiter-free text is its own single token, or gives none when empty. |
| `TextSplit.TokensAfterField` | src/tests/client_server/libtest_convenience_server_reply.c:148-150 | In field + delimiter + rest, the field (unless empty) is the first token and the rest is tokenised on its own. |
| `TextSplit.TokensSkipLeadingDelimiter` | src/tests/client_server/libtest_convenience_server_reply.c:148-150 | A leading delimiter gives no token. |
| `TextSplit.TokensSkipDoubledDelimiter` | src/tests/client_server/libtest_convenience_server_reply.c:148-150 | "x&&y" gives exactly the tokens x and y: a doubled delimiter yields no empty token. |
| `TextSplit.TokensSkipOuterDelimiters` | src/tests/client_server/libtest_convenience_server_reply.c:148-150 | "&x&" gives exactly the token x: delimiters at either end yield no empty token. |
| `TextSplit.NonEmptyKeepsAll` | src/tests/client_server/libtest_convenience_server_reply.c:148-150 | When no field is empty, dropping empty fields returns the fields unchanged. |
| `TextSplit.TokensOfWellFormed` | src/tests/client_server/libtest_convenience_server_reply.c:148-150 | Without empty fields the tokens are exactly the fields, and joining them gives back the query text. |
| `ReplyHandlers.ReplyWithHeader` | src/tests/client_server/libtest_convenience_server_reply.c:100-130 | The handler fails exactly when the header is refused. Otherwise it replies 204 with one header whose name has no colon and with name + ":" + value equal to the closure text. |
| `ReplyHandlers.CheckHeader` | src/tests/client_server/libtest_convenience_server_reply.c:226-298 | Replies 204 exactly when the request has the key before the first colon. When a colon is present, the header's value must be set and equal, as `strcmp` compares, to the text after it; when absent, the header must have no value. Fails (NULL) otherwise. |
| `ReplyHandlers.HeaderTextRoundTrip` | src/tests/client_server/libtest_convenience_server_reply.c:108-119 | For "Name:Value", with a colon-free Name and no NUL in either part, the reply carries the header (Name, Value). The header check accepts that text exactly when the request has header Name with a value whose characters before any NUL are Value. |
| `ReplyHandlers.CheckHeaderStopsAtNul` | src/tests/client_server/libtest_convenience_server_reply.c:283-284 | A request header value of Value, a NUL and anything after still satisfies the check for "Name:Value", as `strcmp` stops at the NUL. |
| `ReplyHandlers.CheckQuery` | src/tests/client_server/libtest_convenience_server_reply.c:133-223 | Replies 204 exactly when every `&`-token "arg=val" (or "arg") finds the GET argument arg with a value equal to val as `strcmp` compares (or with no value). Fails (NULL) otherwise. |
| `ReplyHandlers.CheckUpload` | src/tests/client_server/libtest_convenience_server_reply.c:322-350 | Replies 204 exactly when the uploaded body equals the expected text, length and bytes. Fails (NULL) otherwise. |
| `ChunkReader.ChunkLen` | src/tests/client_server/libtest_convenience_server_reply.c:409-417 | A chunk is never longer than the buffer or the remaining text. It is non-empty whenever the buffer is. |
| `ChunkReader.ChunkEndsAfterFirstSpace` | src/tests/client_server/libtest_convenience_server_reply.c:410-417 | A chunk holds no space before its last byte. When shorter than both the buffer and the remaining text, it ends right after a space. |
| `ChunkReader.ChunkContext.constructor` | src/tests/client_server/libtest_convenience_server_reply.c:435-441 | The closure starts with its cursor at the beginning of the text. |
| `ChunkReader.ChunkContext.ChunkReturn` | src/tests/client_server/libtest_convenience_server_reply.c:401-424 | With nothing left, the reader finishes and the cursor stays put. Otherwise it copies the next `ChunkLen` bytes and reports that count. The cursor advances by exactly that count, so it is the sum of the sizes reported so far. For a non-empty buffer, the bytes handed out are the first of the `Chunks` still to come. |
| `ChunkReader.ChunksCoverText` | src/tests/client_server/libtest_convenience_server_reply.c:389-395 | The chunks handed out by repeated calls concatenate to exactly the text. |
| `ChunkReader.ChunksFitBuffer` | src/tests/client_server/libtest_convenience_server_reply.c:416-417 | Each chunk handed out by repeated calls is non-empty and fits the buffer. |
| `CStrings.CString` | src/tests/client_server/libtest_convenience_server_reply.c:470-471 | The C string a buffer holds: a NUL-free prefix of it that is either the whole buffer or stops right before a NUL. |
| `CStrings.CStringOfNulFree` | src/tests/client_server/libtest_convenience_server_reply.c:470-471 | A string without NUL is its own C string. |
| `CStrings.StrEqNulFree` | src/tests/client_server/libtest_convenience_server_reply.c:470-471 | On NUL-free strings, `strcmp` finding them equal is plain equality. |
| `CStrings.StrEqStopsAtNul` | src/tests/client_server/libtest_convenience_server_reply.c:470-471 | `strcmp` ignores everything after an embedded NUL: a + NUL + rest compares equal to a. |
| `CStrings.NStrEq` | src/tests/client_server/libtest_convenience_server_reply.c:460-472 | True exactly when both strings are NULL, or both are set and their C strings are equal. |
| `CStrings.NStrEqNulFree` | src/tests/client_server/libtest_convenience_server_reply.c:460-472 | On NUL-free strings, `nstrcmp` is equality of the optional strings. |
| `PostCheck.StreamStep` | src/tests/client_server/libtest_convenience_server_reply.c:516-540 | A want changes if and only if all of these hold: it is unsatisfied and incremental; key, filename and content type match as `strcmp`/`nstrcmp` compare them; the fragment starts at its offset, fits in its value and equals those bytes. When they hold, the offset advances by the fragment size and the want is satisfied exactly when its whole value is seen. When any fails, the want is unchanged. The expectation itself never changes, and the offset never passes the value size. |
| `PostCheck.PostStreamReader` | src/tests/client_server/libtest_convenience_server_reply.c:499-545 | Always answers continue. Each want in the array becomes `StreamStep` of itself, and the offset bound is preserved. With no wants array nothing changes. |
| `PostCheck.DeliveryInPiecesSatisfies` | src/tests/client_server/libtest_convenience_server_reply.c:531-540 | An unsatisfied incremental want whose remaining value arrives in order, in any non-empty list of pieces at the reported offsets, ends satisfied with its whole value seen. |
| `PostCheck.DeliverSatisfiedStays` | src/tests/client_server/libtest_convenience_server_reply.c:518-519 | A satisfied want is not touched by later fragments. |
| `PostCheck.CompleteStep` | src/tests/client_server/libtest_convenience_server_reply.c:575-589 | Only `satisfied` may change. A want is satisfied afterwards exactly when it already was, or it is non-incremental, its key equals the value's name as `strcmp` compares, and its value has the value's length and bytes. |
| `PostCheck.CheckCompleteValue` | src/tests/client_server/libtest_convenience_server_reply.c:563-592 | Answers NO exactly when there is no wants array. Otherwise each want becomes `CompleteStep` of itself for this value. |
| `PostCheck.CompleteAllSatisfied` | src/tests/client_server/libtest_convenience_server_reply.c:573-590 | After all POST values, a want is satisfied exactly when it already was, or it is non-incremental and some POST value has its key (as `strcmp` compares names) and exactly its value. Only `satisfied` changes. |
| `PostCheck.PostHasNulFree` | src/tests/client_server/libtest_convenience_server_reply.c:581-589 | When neither the key nor any POST name holds a NUL, that match is plain membership of the (key, value) pair among the POST values. |
| `PostCheck.PostStreamDone` | src/tests/client_server/libtest_convenience_server_reply.c:602-632 | Each want ends as the complete-value pass over all POST values. The upload fails (NULL) exactly when some want is still unsatisfied; otherwise the answer is an empty 204 reply. |
| `PostCheck.PostStreamDoneSucceedsIff` | src/tests/client_server/libtest_convenience_server_reply.c:608-631 | The final check succeeds exactly when every want was already satisfied by streaming, or is a complete want whose key (as `strcmp` compares) and value are among the POST values. |

## Left out

- `ResponseOptions.Response.SetOptions` requires, for an open response (non-NULL settings pointer), that every entry the loop reads exists: either `options_max_num` entries, or an END or unknown entry earlier. The C code reads `options[i]` unchecked, and reading past the array is undefined.
- `ReplyHandlers.ReplyWithHeader` requires a colon in the closure text, because the C code does pointer arithmetic on a NULL `strchr` result otherwise.
- The option values are modelled as booleans and opaque handles. The termination callback is never invoked here.
- The connection state machine, transport sessions, the upload parser and chunked wire framing are not part of this model: no modelled file implements them.
- The OpenSSL connection wrapper, the TLS plugin macro table, and the MD5 and SHA-1 OpenSSL wrappers are left out. They only call into OpenSSL or generate a function-pointer table.
- `MHDT_server_reply_text`, `MHDT_server_reply_file` (temporary file I/O), `MHDT_server_reply_check_upload` and `MHDT_server_reply_check_post` only pass their closure to library constructors, so they are not modelled. `MHDT_server_reply_chunked_text` appears only as the `ChunkContext` constructor; its `malloc` failure path is left out.
- All `fprintf` diagnostics are left out.
- `ChunkReader.ChunkContext.ChunkReturn` does not take the library's position argument, which the source ignores. The cursor offset stands in for it.
- `PostCheck.CheckCompleteValue` treats the POST value as a string whose length is its `len`. A NULL value string is not distinguished from an empty one.
- `PostCheck.Want` has no separate `value_size` field; the model takes it to be the length of `value`. The NULL-key terminator of the wants array is the end of the Dafny array.
- The key lookup of `MHD_request_get_value` is exact map membership; how the library matches a key is not part of this model.
- `PostCheck.StreamStep` does not model wrap-around of `off + size` in 64-bit arithmetic. The `encoding` argument, unused by the source, is left out.
- The internals of `MHD_request_get_value`, `MHD_request_get_values_cb`, `MHD_response_add_header`, `MHD_action_parse_post` and the response and action constructors are left out. They appear only as the abstractions described above.
