# KmsHttpEPServer, modelled in Dafny

`KmsHttpEPServer` is the HTTP front end of the Kurento media server's HTTP
endpoints. Each `httpendpoint` element is registered under a random URL path.
A GET on that path streams the element's media out as `video/webm`. A POST
pushes the request body into the element. For a multipart POST, the intent is
to push only the part between the boundary delimiters. As written, only a
content type that is a prefix of `multipart/` is handled this way, so a
`multipart/form-data` body is pushed raw. A cookie binds each path to the
first client that used it. When a request finishes, a timer is armed. The
server reports `url-expired` when the cookie lapses or the endpoint stays idle.

The project models the deterministic core of
`httpepserver/KmsHttpEPServer.cpp`:

- `MultipartPart.dfy` covers `find_content_part` and the slice arithmetic of
  `got_chunk_handler`.
  - There are two views of the locator. A function, `LocatePart`, states the
    scan. An imperative method, `FindContentPart`, with the same pointer
    loops, is proved to compute it.
  - Both keep the code's quirks:
    - the reversed `g_str_has_prefix`;
    - the strict loop guard;
    - the `b + 2` and `c + 4` search steps;
    - `content_start` landing on the LF.
  - Every read outside the chunk, pointer before it, or NULL dereference is a
    `Fault` outcome, with one exception. The `strlen` inside `g_str_has_prefix`
    (line 494) runs past the end of a NUL-free chunk. `CText` stops at the
    chunk's end instead, which cannot change the test's result.
  - Lemmas characterise:
    - which markers set each out-parameter;
    - the framing of a payload located at both ends;
    - that the boundary text is never compared in NUL-free chunks;
    - a few worked chunks, including the failing ones.
- `PostContent.dfy`: the content-type decision of the POST handler (406, raw
  or multipart with a boundary), with its reversed prefix test.
- `Session.dfy`:
  - the cookie session: issue on the first request, then a check by name and
    value against the request's cookies;
  - the expiration plan `min(expires - now, timeout)`;
  - the 32-bit millisecond interval.
- `Bootstrap.dfy`:
  - `get_address` over already-classified local addresses;
  - the start decision;
  - the mapping from resolution status to error.
- `Server.dfy`: class `HttpEPServer`, which holds:
  - the handler table;
  - the data slots of each endpoint: lifetime, timeout, cookie, timer id and
    bound message;
  - the pending timers;
  - a log of emitted signals and of commands sent to elements.

  Its methods are register, unregister, destroy/stop, got-headers (arbitration
  and preemption by `destroy_pending_message`), GET/POST finish, chunk
  arrival, and timer fire. Every method keeps the invariant `Consistent`: each
  pending timer matches the timer slot of its endpoint one to one while the
table exists, and a bound
  message always has a cookie and no timer.

The code departs from its evident intent at several points, and the model
follows the code:

- A POST whose content type is `multipart/form-data` is pushed raw. Only a
  prefix of `multipart/` counts as multipart.
- A request with a method other than GET or POST keeps its binding. So does a
  406 POST. Replacing either of them later dereferences a missing handler id
  (`TeardownFaultsAfterRefusedRequest`).
- Records outlive `destroy_handlers`, provided something else still holds a
  reference to each element. Only the table is dropped. Messages still
  bound can finish and arm timers, and those timers still report
  `url-expired`.
- `stop` never clears the server pointer, so a later `start` only warns.
- An interval above 4294967 seconds wraps in `interval * 1000`
  (`TimerMillisWraps`).

## Model

| member | source | states |
|---|---|---|
| MultipartPart.FindContentPart | httpepserver/KmsHttpEPServer.cpp:479-518 | the pointer loops compute exactly the locator function: both outputs start unset, each accepted marker overwrites them, and the CR search moves `content_start` past a blank line; every out-of-bounds step is a `Fault` |
| MultipartPart.SkipToBlankLine | httpepserver/KmsHttpEPServer.cpp:509-516 | the CR search loop, stepping by `c + 4`, yields the position just after the first CRLFCRLF it reaches, or the overread or NULL dereference it makes |
| MultipartPart.FindByte | httpepserver/KmsHttpEPServer.cpp:491-492 | `memchr`: the first position at or after `from` holding the byte, or none when no such position exists |
| MultipartPart.FindByteIsFirst | httpepserver/KmsHttpEPServer.cpp:491-492 | a position holding the byte, with no earlier one from `from`, is what `memchr` finds |
| MultipartPart.AtLineStart | httpepserver/KmsHttpEPServer.cpp:497-498 | the start-of-line test holds iff the dash is at the chunk start or follows CRLF; it reads before the chunk exactly when the dash is at offset 1 after an LF |
| MultipartPart.HasPrefix | httpepserver/KmsHttpEPServer.cpp:494 | definition: `g_str_has_prefix (str, prefix)` holds when `str` begins with `prefix` |
| MultipartPart.InScanWindow | httpepserver/KmsHttpEPServer.cpp:492 | definition: the loop guard `b + boundary_len + 4 < end` |
| MultipartPart.ScanRest | httpepserver/KmsHttpEPServer.cpp:491-492 | definition: the loop entered from the first `memchr`, which runs no pass when it finds no dash |
| MultipartPart.Skipped | httpepserver/KmsHttpEPServer.cpp:494 | definition: a candidate is passed over unless its second byte is a dash and the text after the dashes is not a prefix of the boundary |
| MultipartPart.Examine | httpepserver/KmsHttpEPServer.cpp:494-506 | one loop pass: a skipped candidate changes nothing; it faults only at offset 0 (pointer before the chunk) or offset 1 (read before it); `content_start` either keeps its value or becomes `b + boundary_len + 3`, and `content_end` either keeps its value or becomes `b - 2` |
| MultipartPart.ExamineCandidate | httpepserver/KmsHttpEPServer.cpp:494-506 | the imperative loop body computes exactly one pass `Examine` |
| MultipartPart.ScanFrom | httpepserver/KmsHttpEPServer.cpp:491-507 | the loop from a candidate: outside the guard's window nothing changes, and the only faults it can raise are the two before the chunk's start |
| MultipartPart.LocatePart | httpepserver/KmsHttpEPServer.cpp:479-518 | a chunk without a dash locates nothing; a fault is never a negative length; a set `content_start` lies just after a CRLFCRLF inside the chunk |
| MultipartPart.SeekBlankLine | httpepserver/KmsHttpEPServer.cpp:509-516 | a success lies at least 4 bytes after the CR it starts from and just after a CRLFCRLF inside the chunk; a failure is an overread or a NULL dereference |
| MultipartPart.BlankLineAfter | httpepserver/KmsHttpEPServer.cpp:509-516 | the moved `content_start` lies at least 4 bytes further on and just after a CRLFCRLF; a failure is an overread or a NULL dereference |
| MultipartPart.CText | httpepserver/KmsHttpEPServer.cpp:494 | the text `g_str_has_prefix` sees at a pointer: the bytes up to the first NUL or the chunk's end |
| MultipartPart.VisitsInWindow | httpepserver/KmsHttpEPServer.cpp:491-492 | every dash the loop examines is a dash satisfying the strict guard `b + boundary_len + 4 < end` |
| MultipartPart.ExamineEnd | httpepserver/KmsHttpEPServer.cpp:500-503 | one loop pass changes `content_end` only on an accepted `--boundary--`, to `b - 2` |
| MultipartPart.ExamineStart | httpepserver/KmsHttpEPServer.cpp:504-505 | one loop pass changes `content_start` only on an accepted `--boundary\r\n`, to `b + boundary_len + 3` |
| MultipartPart.ScanClosesAll | httpepserver/KmsHttpEPServer.cpp:491-507 | after the loop, every examined closing marker has left `content_end` set, at most two before it |
| MultipartPart.ScanClosesLast | httpepserver/KmsHttpEPServer.cpp:491-507 | a `content_end` changed by the loop is two before an examined closing marker |
| MultipartPart.ScanOpensAll | httpepserver/KmsHttpEPServer.cpp:491-507 | after the loop, every examined opening marker has left `content_start` set, at or past its own setting `m + boundary_len + 3` |
| MultipartPart.ScanOpensLast | httpepserver/KmsHttpEPServer.cpp:491-507 | a `content_start` changed by the loop is the setting of an examined opening marker |
| MultipartPart.LocateEndIsLastCloseMarker | httpepserver/KmsHttpEPServer.cpp:487-507 | `content_end` is set exactly when an examined dash starts a closing marker at line start, and then it is two bytes before the last such marker (later markers overwrite earlier ones) |
| MultipartPart.LocateStartFollowsLastOpenMarker | httpepserver/KmsHttpEPServer.cpp:487-517 | `content_start` is set exactly when an examined dash starts an opening marker, and its final value is the CR search's result from the last such marker's LF |
| MultipartPart.SliceLow | httpepserver/KmsHttpEPServer.cpp:541-554 | definition: the copy starts at `content_start` when it is set, otherwise at the chunk's first byte |
| MultipartPart.SliceHigh | httpepserver/KmsHttpEPServer.cpp:541-554 | definition: the copy ends at `content_end` when it is set, otherwise at the chunk's end |
| MultipartPart.Slice | httpepserver/KmsHttpEPServer.cpp:541-562 | the copied bytes are those from `content_start` (or the chunk start) up to `content_end` (or the chunk end); a `content_end` before `content_start` is a negative length |
| MultipartPart.ScanStaysInChunk | httpepserver/KmsHttpEPServer.cpp:491-507 | the loop only sets out-parameters that point into the chunk |
| MultipartPart.LocatedInChunk | httpepserver/KmsHttpEPServer.cpp:487-517 | both out-parameters of a successful locate point into the chunk or at its end |
| MultipartPart.SelectPayload | httpepserver/KmsHttpEPServer.cpp:537-554 | without a boundary the whole chunk is pushed verbatim; a locator fault is passed on; otherwise the located pointers lie in the chunk and the payload is their `Slice`: from `content_start` (or the chunk start) to `content_end` (or the chunk end), or a negative-length fault |
| MultipartPart.PayloadFramedByDelimiters | httpepserver/KmsHttpEPServer.cpp:537-554 | with both ends located, the pushed bytes are `s[start..end)`, they follow a CRLFCRLF, and they end just before the `\r\n--` of the last closing marker |
| MultipartPart.CloseFramesEnd | httpepserver/KmsHttpEPServer.cpp:497-503 | a set `content_end` lies before a CRLF `--`, with room for the boundary after it |
| MultipartPart.BlankLineBefore | httpepserver/KmsHttpEPServer.cpp:509-516 | a set `content_start` always follows a CRLFCRLF |
| MultipartPart.ClosingFrame | httpepserver/KmsHttpEPServer.cpp:497-503 | a closing marker not at the chunk start sits right after CRLF, with room for the boundary |
| MultipartPart.BoundaryTextIgnored | httpepserver/KmsHttpEPServer.cpp:494 | in a NUL-free chunk, a candidate inside the guard's window is skipped iff its second byte is not a dash: the boundary's value is never compared |
| MultipartPart.TextLongerThanBoundary | httpepserver/KmsHttpEPServer.cpp:494 | text longer than the boundary is never a prefix of it |
| MultipartPart.NoDashPairScansNothing | httpepserver/KmsHttpEPServer.cpp:491-507 | with no `--` in the chunk, the loop leaves both outputs as they were |
| MultipartPart.BodyChunkPushedWhole | httpepserver/KmsHttpEPServer.cpp:537-554 | a chunk without `--` locates nothing and is pushed whole even when a boundary is stored |
| MultipartPart.LeadingCloseMarkerFaults | httpepserver/KmsHttpEPServer.cpp:502-503 | a closing marker at the chunk's first byte forms `content_end` before the chunk |
| MultipartPart.LeadingLineFeedFaults | httpepserver/KmsHttpEPServer.cpp:497-498 | a delimiter at offset 1 after an LF makes the start-of-line test read `b[-2]` |
| MultipartPart.WellFormedPartLocated | httpepserver/KmsHttpEPServer.cpp:479-554 | `--B\r\nH\r\n\r\nDATA\r\n--B--\r\n` is located at `DATA`, which is what is pushed |
| MultipartPart.UnterminatedPartReadsPastChunk | httpepserver/KmsHttpEPServer.cpp:491-516 | in `--B\r\nContent\r\n--B--` the strict guard misses the closing marker and the CR search runs past the chunk |
| MultipartPart.BlankLineMissedAfterStrayCR | httpepserver/KmsHttpEPServer.cpp:509-516 | the `c + 4` step jumps over a blank line that starts one byte after a stray CR |
| MultipartPart.NoHeaderPartReadsPastChunk | httpepserver/KmsHttpEPServer.cpp:479-516 | in `--B\r\n\r\nDATA\r\n--B--\r\n`, `content_start` lands on the LF at 4, the CR search starts past the CRLFCRLF at 3, and it reads past the chunk |
| PostContent.TreatedAsMultipart | httpepserver/KmsHttpEPServer.cpp:622 | definition: the reversed `g_str_has_prefix ("multipart/", content_type)` holds when the content type is a prefix of `multipart/` |
| PostContent.PostDecide | httpepserver/KmsHttpEPServer.cpp:613-633 | 406 iff there is no content type, or it counts as multipart and has no boundary; multipart with the boundary iff it counts as multipart and has one; raw iff it does not count as multipart |
| PostContent.PostStatus | httpepserver/KmsHttpEPServer.cpp:616-637 | the status is 406 exactly for the refused decision and 200 otherwise |
| PostContent.FullMediaTypeTreatedAsRaw | httpepserver/KmsHttpEPServer.cpp:622 | a content type longer than `multipart/` is always taken raw |
| PostContent.FormDataTreatedAsRaw | httpepserver/KmsHttpEPServer.cpp:622 | `multipart/form-data` with a boundary is taken raw |
| PostContent.PrefixOfMultipartNeedsBoundary | httpepserver/KmsHttpEPServer.cpp:622-631 | any prefix of `multipart/`, the empty type included, counts as multipart: 406 without a boundary, multipart with one |
| PostContent.MultipartOnlyForPrefixes | httpepserver/KmsHttpEPServer.cpp:622 | a multipart decision implies that the content type is a prefix of `multipart/` |
| Session.IssueCookie | httpepserver/KmsHttpEPServer.cpp:757-781 | the new cookie carries the fixed name, the given value, the announced address as domain, and the path; it expires `lifetime` seconds from now |
| Session.CheckCookie | httpepserver/KmsHttpEPServer.cpp:783-818 | accepted iff the stored cookie has not expired and some presented cookie has its name and its value; a request with no cookies is refused |
| Session.ManageSession | httpepserver/KmsHttpEPServer.cpp:820-834 | without a stored cookie the request is accepted and a new cookie is issued and stored; otherwise the stored cookie is kept and the check decides |
| Session.AdmitRequest | httpepserver/KmsHttpEPServer.cpp:820-834 | the imperative session step decides exactly as `ManageSession` |
| Session.Expired | httpepserver/KmsHttpEPServer.cpp:152-158 | definition: the cookie's expiry date lies before now |
| Session.IssuedCookieAcceptedWithinLifetime | httpepserver/KmsHttpEPServer.cpp:757-818 | a client that returns the cookie it was issued is accepted until the lifetime has passed |
| Session.IssuedCookieRefusedAfterLifetime | httpepserver/KmsHttpEPServer.cpp:152-158 | after the lifetime every request is refused |
| Session.ForeignCookiesRefused | httpepserver/KmsHttpEPServer.cpp:801-811 | a request presenting no cookie with both the right name and the right value is refused |
| Session.PlanExpiration | httpepserver/KmsHttpEPServer.cpp:351-386 | no cookie means nothing happens; an expired cookie expires at once; otherwise the interval is the minimum of the remaining lifetime and the timeout |
| Session.TimerMillis | httpepserver/KmsHttpEPServer.cpp:389 | `interval * 1000` in 32 bits: exact up to 4294967 seconds, and congruent modulo 2^32 always |
| Session.TimerMillisWraps | httpepserver/KmsHttpEPServer.cpp:389 | 4294968 seconds gives a 704 ms timer |
| Bootstrap.IsIPv4 | httpepserver/KmsHttpEPServer.cpp:130-142 | definition: the family switch takes an entry only when it parses with the IPv4 family |
| Bootstrap.FirstIPv4 | httpepserver/KmsHttpEPServer.cpp:110-150 | the index of the first IPv4 entry, with none before it, or none if there is no IPv4 entry |
| Bootstrap.PickedAddress | httpepserver/KmsHttpEPServer.cpp:110-150 | the address `get_address` returns is never NULL: it is the text of an IPv4 entry with none before it, and indeterminate exactly when no entry is IPv4 |
| Bootstrap.GetAddress | httpepserver/KmsHttpEPServer.cpp:110-150 | the loop returns the first IPv4 entry's text; the result is indeterminate exactly when there is no IPv4 entry |
| Bootstrap.ResolutionError | httpepserver/KmsHttpEPServer.cpp:934-961 | OK gives no error, CANCELLED gives the canceled error, CANT_RESOLVE gives the cannot-resolve error, and every other status gives the unexpected error |
| Bootstrap.StartDecision | httpepserver/KmsHttpEPServer.cpp:963-985 | a running server only warns; without an interface the server starts at once; otherwise it starts iff resolution succeeds, and any failure reports the status's error |
| Server.FreshEndpoint | httpepserver/KmsHttpEPServer.cpp:1049-1050 | an element's first registration has the given lifetime and timeout and no cookie, timer or bound message (a re-registered element keeps its cookie, see Left out) |
| Server.BindingFor | httpepserver/KmsHttpEPServer.cpp:862-881 | GET always has handler ids; POST has them iff the content decision is not 406, and keeps a boundary iff it is multipart; other methods never have them |
| Server.StatusFor | httpepserver/KmsHttpEPServer.cpp:862-881 | 200 for GET, the content decision's status for POST, 405 for other methods |
| Server.ActionEvents | httpepserver/KmsHttpEPServer.cpp:871-885 | `action-requested` is emitted for GET and POST, the 406 POST included, and for no other method |
| Server.Teardown | httpepserver/KmsHttpEPServer.cpp:702-736 | the teardown faults iff the message lacks handler ids; otherwise a GET stops the flow and other methods send nothing |
| Server.TeardownFaultsAfterRefusedRequest | httpepserver/KmsHttpEPServer.cpp:702-736 | replacing a bound message faults exactly when that message was refused by method (405) or content type (406) |
| Server.Cancel | httpepserver/KmsHttpEPServer.cpp:160-174 | removing a timer drops exactly that source id and keeps all the others unchanged |
| Server.CancelAndStore | httpepserver/KmsHttpEPServer.cpp:160-174 | cancelling an endpoint's timer and storing slots without a timer keeps the state consistent |
| Server.CancelAndDrop | httpepserver/KmsHttpEPServer.cpp:1055-1081 | cancelling an endpoint's timer and dropping the entry keeps the state consistent |
| Server.ArmFresh | httpepserver/KmsHttpEPServer.cpp:388-392 | arming a fresh source id for an endpoint without a timer keeps the state consistent |
| Server.FiredTimerGone | httpepserver/KmsHttpEPServer.cpp:324-343 | while the table exists, a fired timer is its endpoint's timer, and clearing the slot and dropping the source keeps the state consistent |
| Server.RemovalSignals | httpepserver/KmsHttpEPServer.cpp:678-681 | the signals emitted while walking the table's keys name each key exactly once and nothing else |
| Server.RemovedOneMore | httpepserver/KmsHttpEPServer.cpp:663-681 | one more distinct key's `url-removed` extends a log that names each key once |
| Server.HttpEPServer.constructor | httpepserver/KmsHttpEPServer.cpp:1268-1282 | an empty table, no server, no timers and no signals; the announced address is the construct-time value, or for NULL the first local IPv4 address, as the property setter (lines 1146-1157) makes it |
| Server.HttpEPServer.SetAnnouncedAddress | httpepserver/KmsHttpEPServer.cpp:1146-1157 | setting NULL picks the first local IPv4 address; any other value is taken as given |
| Server.HttpEPServer.Start | httpepserver/KmsHttpEPServer.cpp:963-985 | the outcome is the start decision, and the server exists afterwards iff it existed before or has just started |
| Server.HttpEPServer.RegisterEndPoint | httpepserver/KmsHttpEPServer.cpp:1009-1053 | refused for a non-`httpendpoint` element and for a path already registered (the table is then unchanged); otherwise the path is returned and a fresh record is stored while the table exists |
| Server.HttpEPServer.UnregisterEndPoint | httpepserver/KmsHttpEPServer.cpp:1055-1081 | false with nothing changed when the table is gone or the path is absent; otherwise the timer is cancelled, the bound message is torn down, the entry is removed and exactly one `url-removed` is emitted |
| Server.HttpEPServer.DestroyHandlers | httpepserver/KmsHttpEPServer.cpp:673-686 | exactly one `url-removed` per key is appended, then the table is gone |
| Server.HttpEPServer.Stop | httpepserver/KmsHttpEPServer.cpp:688-700 | nothing happens while no server was created; otherwise the table is destroyed |
| Server.HttpEPServer.GotHeaders | httpepserver/KmsHttpEPServer.cpp:836-886 | 404 for an unknown path and 400 on a cookie failure, both leaving everything as it was; otherwise the timer is cancelled, the old message is torn down, and the new one is bound and dispatched on its method with the status, WebM content type, Set-Cookie and signals that follow from it |
| Server.HttpEPServer.BindMessage | httpepserver/KmsHttpEPServer.cpp:861-885 | the accepted request's cookie is stored and the timer cancelled; a bound message without handler ids faults in its teardown; otherwise the old message is torn down, the new binding stored, a GET starts the flow and `action-requested` follows for GET and POST |
| Server.HttpEPServer.MessageFinished | httpepserver/KmsHttpEPServer.cpp:395-415 | only a message with a finished handler acts; GET stops the flow, POST ends the stream; the message is unbound and the expiration plan is carried out: `url-expired` now, or a timer of the planned interval |
| Server.HttpEPServer.ChunkReceived | httpepserver/KmsHttpEPServer.cpp:520-576 | a chunk for a POST with a got-chunk handler pushes exactly the selected payload, or faults as the locator does; otherwise nothing is pushed |
| Server.HttpEPServer.TimerFired | httpepserver/KmsHttpEPServer.cpp:324-343 | one `url-expired` for the timer's path, the source is gone, and while the table holds the path its timer slot is cleared |

## Left out

- Sockets, the libsoup server, the `request-started` and `got-headers` wiring, and body accumulation are left out. They are I/O around library calls.
  - Requests appear as calls carrying the path, method, presented cookies, content type and boundary.
- `send_buffer_cb` and `new_sample_handler` are left out because they exist for cross-thread hand-off. With them go the GET media path (samples appended to the response), the `msg_has_finished` guard, and the finished flag.
- The teardown of a GET also unpauses the message and completes its body. Only the flow stop is kept, because the rest is libsoup I/O.
- The random cookie value (`g_rand_double_range`) and the UUID path are parameters. They are random, and the cookie value is produced in floating point.
- Time is integer seconds. `difftime` subtracts only whole `time_t` values, so nothing is lost.
- Session.IssueCookie: libsoup's own handling of a max-age of 0 or of one at or above 2^31 is not modelled. libsoup is not part of this model.
- The `httpendpoint` type check is a boolean input, because it asks the GObject type system.
- DNS resolution, `nice_interfaces_get_local_ips` and `g_inet_address` parsing are foreign calls. Only their classified results are modelled, and a pending resolution is collapsed into its final status.
- Port and interface writeback and `create_server` are left out. They are socket setup, and `Start` records only that the server exists.
- The property machinery, dispose/finalize, signal registration, reference counting and GstBuffer handling are left out as boilerplate.
- MultipartPart.LocatePart assumes the boundary is ASCII. `boundary_len` is `g_utf8_strlen`, which equals the byte length only for ASCII text.
- MultipartPart.CText measures text to the first NUL or to the chunk's end. C would go on reading past the end while measuring. That overread is not flagged, because it cannot change the result: text that long is never a prefix of the boundary.
- Server.HttpEPServer.ChunkReceived: the `push-buffer` return value is only logged in the source, so it is not modelled.
  - `len` is a C `gint`, and its overflow on chunks over 2^31 bytes is not modelled.
- PostContent.PostDecide: when there is no `Content-Type` header, libsoup's handling of the params out-parameter is not visible. The model takes that path as a plain 406.
- Server.HttpEPServer: records are kept one per registered path. An element registered under two paths shares one set of data slots in the source. In the model the two paths have separate records. A path registered after `destroy_handlers` is not stored.
- Server.FreshEndpoint: an element that is unregistered and registered again keeps its cookie, because neither `unregister_end_point` (lines 1055-1081) nor `register_end_point` (lines 1049-1050) clears it. The model gives every registration a fresh record without a cookie, so it describes an element's first registration only.
- Server.HttpEPServer.DestroyHandlers: records outlive the table only if something else holds a reference to each element. `g_hash_table_remove_all` (line 684) drops the table's reference (line 1279). If that was the last one, the element is finalised there, and its bound message is torn down as the slot is destroyed. The model assumes another reference exists.
- Server.HttpEPServer: after a `Fault` (a NULL dereference in a teardown), the state is recorded as before the teardown. The process has crashed at that point, and the later effects of the source's slot replacement are not modelled.
