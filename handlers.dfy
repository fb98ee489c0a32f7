/**
  The two HTTP handlers: templateHandler on /template and rootHandler on /.

  Each one decides, from the request alone, either to answer at once with an
  error, or to run the template pipeline on a payload, or (on / without `c`) to
  hand the request to the static file server. JSON decoding is a parameter
  `codec`: it decodes a POST body or a `values` query parameter, or fails.
 */
module Handlers {
  import opened Wrappers
  import opened Text
  import opened FileSystem
  import opened Render

  /** The parts of an *http.Request the handlers read; `verb` is r.Method. */
  datatype Request = Request(verb: string, query: map<string, seq<string>>, body: string)

  const MethodGet := "GET"
  const MethodPost := "POST"

  /** url.Values.Get: the first value of the key, or "" when there is none. */
  function QueryGet(r: Request, key: string): (v: string)
    ensures key !in r.query ==> v == ""
    ensures key in r.query && |r.query[key]| > 0 ==> v == r.query[key][0]
  {
    if key in r.query && |r.query[key]| > 0 then r.query[key][0] else ""
  }

  datatype Codec = Codec(
    decodePayload: string -> Option<Payload>,
    decodeValues: string -> Option<map<string, Json>>)

  /** What a handler does with a request. */
  datatype Dispatch =
    | Reply(response: Response)
    | Render(payload: Payload, renderJSON: bool)
    | ServeStatic

  const InvalidBody := "Invalid JSON request body"
  const MissingUrl := "Missing 'chartUrl' query parameter"
  const InvalidValues := "Invalid 'values' query parameter. Must be a JSON string."
  const UnsupportedMethod := "Only POST and GET methods are supported"
  const InvalidUrl := "Invalid or missing 'chartUrl'. Must be a .tgz URL."

  /** templateHandler. */
  function TemplateHandler(r: Request, codec: Codec): Dispatch
  {
    var decoded :=
      if r.verb == MethodPost then
        match codec.decodePayload(r.body)
        case None => Err(HttpError(InvalidBody, StatusBadRequest))
        case Some(p) => Ok(p)
      else if r.verb == MethodGet then
        var chartUrl := QueryGet(r, "chartUrl");
        if chartUrl == "" then Err(HttpError(MissingUrl, StatusBadRequest))
        else
          var valuesParam := QueryGet(r, "values");
          if valuesParam == "" then Ok(Payload(chartUrl, map[]))
          else
            match codec.decodeValues(valuesParam)
            case None => Err(HttpError(InvalidValues, StatusBadRequest))
            case Some(v) => Ok(Payload(chartUrl, v))
      else Err(HttpError(UnsupportedMethod, StatusMethodNotAllowed));
    match decoded
    case Err(response) => Reply(response)
    case Ok(payload) =>
      if !HasSuffix(payload.chartUrl, ".tgz") then Reply(HttpError(InvalidUrl, StatusBadRequest))
      else Render(payload, QueryGet(r, "raw") != "true")
  }

  /** rootHandler. */
  function RootHandler(r: Request): Dispatch
  {
    var chartUrl := QueryGet(r, "c");
    if chartUrl != "" then Render(Payload(chartUrl, map[]), false) else ServeStatic
  }

  /**
    Carrying out a handler's decision: the answer, or the pipeline run on the
    payload. None stands for the static file server, which is not modelled.
   */
  function Handle<C>(fs: FS, env: Env<C>, d: Dispatch): Option<Served>
  {
    match d
    case Reply(response) => Some(Served(fs, response))
    case Render(payload, renderJSON) => Some(Pipeline(fs, env, payload, renderJSON))
    case ServeStatic => None
  }

  /** /template always answers; it never falls through to the static files. */
  lemma TemplateAlwaysAnswers<C>(fs: FS, env: Env<C>, codec: Codec, r: Request)
    ensures Handle(fs, env, TemplateHandler(r, codec)).Some?
  {
  }

  /** Only GET and POST reach the pipeline; every other method gets 405 and that message. */
  lemma MethodNotAllowed(r: Request, codec: Codec)
    ensures TemplateHandler(r, codec) == Reply(HttpError(UnsupportedMethod, StatusMethodNotAllowed))
        <==> r.verb != MethodGet && r.verb != MethodPost
    ensures TemplateHandler(r, codec).Reply? && TemplateHandler(r, codec).response.status == StatusMethodNotAllowed
        <==> r.verb != MethodGet && r.verb != MethodPost
  {
  }

  /** The 400 answers a GET can get, in the order they are checked. */
  lemma GetRejections(r: Request, codec: Codec)
    requires r.verb == MethodGet
    ensures QueryGet(r, "chartUrl") == "" ==>
      TemplateHandler(r, codec) == Reply(HttpError(MissingUrl, StatusBadRequest))
    ensures QueryGet(r, "chartUrl") != "" && QueryGet(r, "values") != "" && codec.decodeValues(QueryGet(r, "values")).None? ==>
      TemplateHandler(r, codec) == Reply(HttpError(InvalidValues, StatusBadRequest))
    ensures
      (&& QueryGet(r, "chartUrl") != "" && !HasSuffix(QueryGet(r, "chartUrl"), ".tgz")
       && (QueryGet(r, "values") == "" || codec.decodeValues(QueryGet(r, "values")).Some?)) ==>
      TemplateHandler(r, codec) == Reply(HttpError(InvalidUrl, StatusBadRequest))
  {
  }

  /** The 400 answers a POST can get: a body that does not decode, or a URL without ".tgz". */
  lemma PostRejections(r: Request, codec: Codec)
    requires r.verb == MethodPost
    ensures codec.decodePayload(r.body).None? ==>
      TemplateHandler(r, codec) == Reply(HttpError(InvalidBody, StatusBadRequest))
    ensures codec.decodePayload(r.body).Some? && !HasSuffix(codec.decodePayload(r.body).value.chartUrl, ".tgz") ==>
      TemplateHandler(r, codec) == Reply(HttpError(InvalidUrl, StatusBadRequest))
  {
  }

  /** An empty chartUrl in a POST body fails the suffix check, not a missing-URL check. */
  lemma EmptyPostUrl(r: Request, codec: Codec)
    requires r.verb == MethodPost && codec.decodePayload(r.body).Some?
    requires codec.decodePayload(r.body).value.chartUrl == ""
    ensures TemplateHandler(r, codec) == Reply(HttpError(InvalidUrl, StatusBadRequest))
  {
  }

  /**
    What reaches the pipeline from /template: a ".tgz" URL, the payload taken
    from the body (POST) or the query (GET), and JSON output unless `raw` is
    exactly "true".
   */
  lemma TemplateRenders(r: Request, codec: Codec)
    requires TemplateHandler(r, codec).Render?
    ensures
      var payload := TemplateHandler(r, codec).payload;
      && HasSuffix(payload.chartUrl, ".tgz")
      && TemplateHandler(r, codec).renderJSON == (QueryGet(r, "raw") != "true")
      && (r.verb == MethodPost ==> codec.decodePayload(r.body) == Some(payload))
      && (r.verb == MethodGet ==> payload.chartUrl == QueryGet(r, "chartUrl"))
      && (r.verb == MethodGet && QueryGet(r, "values") == "" ==> payload.values == map[])
      && (r.verb == MethodGet && QueryGet(r, "values") != "" ==> codec.decodeValues(QueryGet(r, "values")) == Some(payload.values))
    ensures r.verb == MethodGet || r.verb == MethodPost
  {
  }

  /** And conversely: a request that passes every check is rendered. */
  lemma TemplateAccepts(r: Request, codec: Codec)
    requires
      || (r.verb == MethodPost && codec.decodePayload(r.body).Some?
          && HasSuffix(codec.decodePayload(r.body).value.chartUrl, ".tgz"))
      || (r.verb == MethodGet && HasSuffix(QueryGet(r, "chartUrl"), ".tgz")
          && (QueryGet(r, "values") == "" || codec.decodeValues(QueryGet(r, "values")).Some?))
    ensures TemplateHandler(r, codec).Render?
  {
  }

  /**
    A request the handler answers itself leaves the file system alone and never
    reaches the network or the Helm engine: its outcome is the same whatever
    they would have done.
   */
  lemma RejectionDownloadsNothing<C>(fs: FS, env: Env<C>, env': Env<C>, codec: Codec, r: Request)
    requires TemplateHandler(r, codec).Reply?
    ensures Handle(fs, env, TemplateHandler(r, codec)) == Some(Served(fs, TemplateHandler(r, codec).response))
    ensures Handle(fs, env, TemplateHandler(r, codec)) == Handle(fs, env', TemplateHandler(r, codec))
    ensures TemplateHandler(r, codec).response.status in {StatusBadRequest, StatusMethodNotAllowed}
  {
  }

  /**
    `c` on / renders raw output with no values, whatever the method and
    whatever the URL looks like; without it / serves the static files.
   */
  lemma RootShortcut<C>(fs: FS, env: Env<C>, r: Request)
    ensures QueryGet(r, "c") != "" <==> RootHandler(r).Render?
    ensures QueryGet(r, "c") == "" <==> Handle(fs, env, RootHandler(r)).None?
    ensures RootHandler(r).Render? ==>
      Handle(fs, env, RootHandler(r)) == Some(Pipeline(fs, env, Payload(QueryGet(r, "c"), map[]), false))
  {
  }

  /** So a URL that /template would turn away is rendered through `c` on /. */
  lemma RootSkipsSuffixCheck(codec: Codec)
    ensures
      var url := "https://example.com/chart";
      var viaRoot := Request(MethodGet, map["c" := [url]], "");
      var viaTemplate := Request(MethodGet, map["chartUrl" := [url]], "");
      && RootHandler(viaRoot) == Render(Payload(url, map[]), false)
      && TemplateHandler(viaTemplate, codec) == Reply(HttpError(InvalidUrl, StatusBadRequest))
  {
    var url := "https://example.com/chart";
    assert url[|url| - 1] == 't';
  }
}
