/** The end of `processFinalReport` in src/script.js: what is sent to the backend, and
    the choice between the report the backend returns and the one built locally. The
    request itself (`fetch`, its 10 s abort, `resp.json()`) is reduced to its outcome, a
    `Reply`. */
module Selection {
  import opened Optional
  import opened Text
  import LocalReport

  /** A parsed JSON value. */
  datatype Json =
    | JNull
    | JBool(b: bool)
    | JNumber(n: real)
    | JString(s: string)
    | JArray(items: seq<Json>)
    | JObject(fields: map<string, Json>)

  /** JavaScript truthiness of a parsed JSON value (parsing never yields `NaN`). */
  predicate Truthy(j: Json) {
    match j
    case JNull => false
    case JBool(b) => b
    case JNumber(n) => n != 0.0
    case JString(s) => s != []
    case JArray(_) => true
    case JObject(_) => true
  }

  /** What the request to the ingest endpoint ended with. */
  datatype Reply =
      /** `fetch` rejected: a network error, or the abort after 10 seconds. */
    | Failed
      /** A response with its status; `body` is `None` when `resp.json()` rejects. */
    | Response(status: int, body: Option<Json>)

  /** `resp.ok`. */
  predicate Ok(status: int) {
    200 <= status <= 299
  }

  /** `j.report || j` for a non-null `j`: a `report` member of an object when it is
      truthy, otherwise `j` itself. */
  function ReportOf(j: Json): (r: Json)
    ensures r == j || (j.JObject? && "report" in j.fields && r == j.fields["report"])
    ensures Truthy(r) <==> Truthy(j)
  {
    if j.JObject? && "report" in j.fields && Truthy(j.fields["report"]) then j.fields["report"] else j
  }

  /** `backendReport` once the `try` block is done: `null` (here `None`) when the
      request fails, the status is not ok, the body is not JSON, or the body is `null`
      (reading `j.report` then throws, and the `catch` swallows it); otherwise
      `j.report || j`. */
  function BackendReport(reply: Reply): (r: Option<Json>)
    ensures r.Some? ==> reply.Response? && Ok(reply.status) && reply.body.Some? && reply.body.value != JNull
  {
    match reply
    case Failed => None
    case Response(status, body) =>
      if !Ok(status) || body.None? || body.value == JNull then None
      else Some(ReportOf(body.value))
  }

  /** The report shown: the backend's when it is truthy, the local one otherwise. */
  datatype Source = Remote(json: Json) | Local(report: LocalReport.Report)

  /** `backendReport || generateLocalReport(transcript)`. */
  function SelectReport(reply: Reply, transcript: string, datetime: string): (r: Source)
    ensures r.Remote? ==> Truthy(r.json) && reply.Response? && Ok(reply.status) && reply.body.Some?
    ensures r.Remote? ==> var j := reply.body.value;
      r.json == j || (j.JObject? && "report" in j.fields && r.json == j.fields["report"])
    ensures r.Local? ==> r.report == LocalReport.GenerateLocalReport(transcript, datetime)
    ensures reply.Failed? || !Ok(reply.status) || reply.body.None? ==> r.Local?
  {
    var b := BackendReport(reply);
    if b.Some? && Truthy(b.value) then Remote(b.value)
    else Local(LocalReport.GenerateLocalReport(transcript, datetime))
  }

  /** `Boolean(backendReport)`: whether `showReport` announces a report from the
      backend. */
  function FromBackend(reply: Reply): (r: bool)
    ensures r <==> reply.Response? && Ok(reply.status) && reply.body.Some? && Truthy(reply.body.value)
  {
    var b := BackendReport(reply);
    b.Some? && Truthy(b.value)
  }

  /** The report is the backend's exactly when `showReport` is told so. */
  lemma FromBackendIffRemote(reply: Reply, transcript: string, datetime: string)
    ensures FromBackend(reply) <==> SelectReport(reply, transcript, datetime).Remote?
  {
  }

  /** Which replies give the backend's report: an ok response whose JSON body has a
      truthy `report` member gives that member; one without it gives the body itself
      when the body is truthy; every other reply gives the local report. */
  lemma SelectReportCases(reply: Reply, transcript: string, datetime: string)
    ensures var r := SelectReport(reply, transcript, datetime);
      match reply
      case Failed => r.Local?
      case Response(status, body) =>
        if !Ok(status) || body.None? then r.Local?
        else
          var j := body.value;
          if j.JObject? && "report" in j.fields && Truthy(j.fields["report"]) then r == Remote(j.fields["report"])
          else if Truthy(j) then r == Remote(j)
          else r.Local?
  {
  }

  /** A chunk of recorded audio. */
  datatype Chunk = Chunk(bytes: seq<bv8>)

  /** The audio part of the form: the chunks as one blob, and its file name. */
  datatype Audio = Audio(chunks: seq<Chunk>, fileName: string)

  /** The `FormData` posted to the ingest endpoint. */
  datatype Submission = Submission(sessionId: string, transcript: string, audio: Option<Audio>)

  /** The form `processFinalReport` builds: the session id, the trimmed transcript,
      and the audio under the name `<sessionId>.webm` when any chunk was recorded. */
  function BuildSubmission(sessionId: string, text: string, chunks: seq<Chunk>): (r: Submission)
    ensures r.sessionId == sessionId && r.transcript == Trim(text)
    ensures r.audio.Some? <==> chunks != []
    ensures r.audio.Some? ==> r.audio.value.chunks == chunks
                              && r.audio.value.fileName == sessionId + ".webm"
  {
    Submission(sessionId, Trim(text),
               if |chunks| > 0 then Some(Audio(chunks, sessionId + ".webm")) else None)
  }
}
