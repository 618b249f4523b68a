/** The request handler of `/api/parse` and the audit record it keeps for
    every request: the record is created with status 200, changed at most
    once on the exit path the request takes, and handed to the audit store
    exactly once, by the deferred call, in the state it ended in. */
module Handler {
  import opened Wrappers
  import opened Parser

  const StatusOK: int := 200
  const StatusMethodNotAllowed: int := 405
  const StatusInternalServerError: int := 500

  const MethodPost: string := "POST"
  const MsgMethodNotAllowed: string := "Method not allowed"
  const MsgBodyReadFailed: string := "Could not read request body"
  const MsgMarshalFailed: string := "Error creating JSON response"

  /** What the handler looks at in the request besides its body. */
  datatype Request = Request(verb: string, remoteAddr: string)

  /** The JSON text of the response, as the value it encodes: `Unset` while
      nothing has been encoded, `JsonNull` for the nil slice of entries and
      `JsonArray` for a non-empty one. */
  datatype Payload = Unset | JsonNull | JsonArray(entries: seq<LogEntry>)

  /** One audit row. `timestamp` is the arrival instant, taken as given. */
  datatype LogRecord = LogRecord(
    timestamp: int,
    remoteAddr: string,
    requestBody: string,
    responseBody: Payload,
    statusCode: int,
    errorMsg: string)

  /** What the client gets: an error status with its text, or the JSON
      payload with status 200 and whether writing it reached the client. */
  datatype Reply = ErrorReply(status: int, text: string) | JsonReply(payload: Payload, delivered: bool) {
    function Status(): int {
      if ErrorReply? then status else StatusOK
    }
  }

  /** `json.Marshal(parsedData)`: the slice starts nil and only grows, so it is
      nil, and encodes as `null`, exactly when there are no entries. */
  function Marshal(entries: seq<LogEntry>): (p: Payload)
    ensures p != Unset
    ensures p == JsonNull <==> entries == []
    ensures p.JsonArray? ==> p.entries == entries
  {
    if entries == [] then JsonNull else JsonArray(entries)
  }

  /** The audit record a request leaves behind, as a function of what happened
      to it: the method, whether the body could be read, and whether the
      entries could be encoded. */
  function FinalRecord(req: Request, arrival: int, body: Option<string>, marshalOk: bool): (r: LogRecord)
    ensures r.timestamp == arrival && r.remoteAddr == req.remoteAddr
    ensures r.statusCode in {StatusOK, StatusMethodNotAllowed, StatusInternalServerError}
    ensures r.statusCode == StatusOK <==> r.errorMsg == []
    ensures r.statusCode == StatusOK <==> r.responseBody != Unset
    ensures r.statusCode == StatusOK <==> req.verb == MethodPost && body.Some? && marshalOk
    ensures r.statusCode == StatusMethodNotAllowed <==> req.verb != MethodPost
    ensures r.requestBody != [] ==> req.verb == MethodPost && body == Some(r.requestBody)
    ensures req.verb == MethodPost && body.Some? ==> r.requestBody == body.value
    ensures r.responseBody != Unset ==> r.responseBody == Marshal(Entries(r.requestBody))
    ensures req.verb != MethodPost ==> r.errorMsg == MsgMethodNotAllowed
    ensures req.verb == MethodPost && body.None? ==> r.errorMsg == MsgBodyReadFailed
    ensures req.verb == MethodPost && body.Some? && !marshalOk ==> r.errorMsg == MsgMarshalFailed
  {
    var created := LogRecord(arrival, req.remoteAddr, [], Unset, StatusOK, []);
    if req.verb != MethodPost then
      created.(statusCode := StatusMethodNotAllowed, errorMsg := MsgMethodNotAllowed)
    else if body.None? then
      created.(statusCode := StatusInternalServerError, errorMsg := MsgBodyReadFailed)
    else if !marshalOk then
      created.(requestBody := body.value, statusCode := StatusInternalServerError, errorMsg := MsgMarshalFailed)
    else
      created.(requestBody := body.value, responseBody := Marshal(Entries(body.value)))
  }

  /** The reply sent to the client on the same exit path. */
  function FinalReply(req: Request, body: Option<string>, marshalOk: bool, writeOk: bool): (reply: Reply)
    ensures reply.Status() in {StatusOK, StatusMethodNotAllowed, StatusInternalServerError}
  {
    if req.verb != MethodPost then ErrorReply(StatusMethodNotAllowed, MsgMethodNotAllowed)
    else if body.None? then ErrorReply(StatusInternalServerError, MsgBodyReadFailed)
    else if !marshalOk then ErrorReply(StatusInternalServerError, MsgMarshalFailed)
    else JsonReply(Marshal(Entries(body.value)), writeOk)
  }

  /** The audit store behind `recordLog`. Each call is one insert attempt; a
      failed insert is logged and dropped, so the caller never sees it. */
  class AuditSink {
    var attempts: seq<LogRecord>
    var stored: seq<LogRecord>

    constructor ()
      ensures attempts == [] && stored == []
    {
      attempts := [];
      stored := [];
    }

    /** `recordLog(record)`; `insertOk` is the outcome of the insert. */
    method RecordLog(record: LogRecord, insertOk: bool)
      modifies this
      ensures attempts == old(attempts) + [record]
      ensures stored == if insertOk then old(stored) + [record] else old(stored)
    {
      attempts := attempts + [record];
      if insertOk {
        stored := stored + [record];
      }
    }
  }

  /** `parseHandler`. Each early `return` of the handler is a `break` out of
      the labeled block; the deferred `recordLog` runs after the block, so it
      runs once on every path and sees the record as that path left it.
      `body` is None when reading the body fails; `marshalOk`, `writeOk` and
      `insertOk` are the outcomes of encoding, of writing the reply and of the
      audit insert. */
  method ParseHandler(req: Request, arrival: int, body: Option<string>, marshalOk: bool, writeOk: bool,
                      sink: AuditSink, insertOk: bool)
    returns (reply: Reply)
    modifies sink
    ensures |sink.attempts| == |old(sink.attempts)| + 1
    ensures sink.attempts == old(sink.attempts) + [FinalRecord(req, arrival, body, marshalOk)]
    ensures sink.stored == if insertOk then old(sink.stored) + [FinalRecord(req, arrival, body, marshalOk)]
                           else old(sink.stored)
    ensures reply == FinalReply(req, body, marshalOk, writeOk)
    ensures reply.Status() == FinalRecord(req, arrival, body, marshalOk).statusCode
  {
    var record := LogRecord(arrival, req.remoteAddr, [], Unset, StatusOK, []);
    label handle: {
      if req.verb != MethodPost {
        reply := ErrorReply(StatusMethodNotAllowed, MsgMethodNotAllowed);
        record := record.(statusCode := StatusMethodNotAllowed, errorMsg := MsgMethodNotAllowed);
        break handle;
      }
      if body.None? {
        reply := ErrorReply(StatusInternalServerError, MsgBodyReadFailed);
        record := record.(statusCode := StatusInternalServerError, errorMsg := MsgBodyReadFailed);
        break handle;
      }
      var logText := body.value;
      record := record.(requestBody := logText);
      var parsedData := ParseLines(logText);
      if !marshalOk {
        reply := ErrorReply(StatusInternalServerError, MsgMarshalFailed);
        record := record.(statusCode := StatusInternalServerError, errorMsg := MsgMarshalFailed);
        break handle;
      }
      var responseBody := Marshal(parsedData);
      record := record.(responseBody := responseBody);
      // a failed write is only logged: the record stays as it is
      reply := JsonReply(responseBody, writeOk);
    }
    sink.RecordLog(record, insertOk);
  }
}
