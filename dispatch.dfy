/** Sending a request: the cancellation check, the preparation of the configuration
    (URL, body, headers), the transport call and the transformation of the response. */
module Dispatch {
  import opened Js
  import opened Types
  import opened Url
  import opened Xhr

  /** The URL before the query is added: a relative URL is joined to the base URL when
      one is set; an absolute URL (or one without a base URL) is used as it is. */
  function TargetURL(baseURL: Option<string>, url: string): (u: string)
    ensures Given(baseURL) && !IsAbsoluteURL(url) ==> u == CombineURL(baseURL.value, Some(url))
    ensures !Given(baseURL) || IsAbsoluteURL(url) ==> u == url
  {
    if Given(baseURL) && !IsAbsoluteURL(url) then CombineURL(baseURL.value, Some(url)) else url
  }

  /** A base URL and a URL that is not absolute are joined by exactly one '/', however
      many slashes end the base and whether or not one slash starts the URL. Two
      leading slashes make the URL protocol-relative, which is never joined (see
      `ProtocolRelativeKept`). */
  lemma TargetURLJoins(base: string, rel: string, m: nat, n: nat)
    requires base != [] && base[|base| - 1] != '/'
    requires rel != [] && rel[0] != '/' && !IsAbsoluteURL(rel)
    requires n <= 1
    ensures TargetURL(Some(base + Slashes(m)), Slashes(n) + rel) == base + "/" + rel
  {
    var u := Slashes(n) + rel;
    assert !IsAbsoluteURL(u) by {
      if n == 0 {
        assert u == rel;
      } else {
        assert u[0] == '/' && u[1] == rel[0];
      }
    }
    assert Given(Some(base + Slashes(m)));
    CombineURLSlashes(base, rel, m, n);
  }

  /** A URL that starts with "//" is used as it is, whatever the base URL. */
  lemma ProtocolRelativeKept(baseURL: Option<string>, rest: string)
    ensures TargetURL(baseURL, "//" + rest) == "//" + rest
  {
    var u := "//" + rest;
    assert u[0] == '/' && u[1] == '/';
  }

  /** `transformURL(config)`. */
  method TransformURL(h: Host, config: Config) returns (u: string)
    ensures u == BuiltURL(h, TargetURL(config.baseURL, config.url), config.params, config.paramsSerializer)
  {
    var url := config.url;
    if Given(config.baseURL) && !IsAbsoluteURL(url) {
      url := CombineURL(config.baseURL.value, Some(url));
    }
    u := BuildURL(h, url, config.params, config.paramsSerializer);
  }

  /** `throwIfCancellationRequested(config)`: the reason of a token that was already
      cancelled is thrown (Some); without a token nothing happens. */
  method ThrowIfCancellationRequested(config: Config) returns (thrown: Option<Cancel>)
    ensures config.cancelToken.None? ==> thrown.None?
    ensures config.cancelToken.Some? ==> thrown == config.cancelToken.value.reason
  {
    thrown := None;
    if config.cancelToken.Some? {
      thrown := config.cancelToken.value.reason;
    }
  }

  /** `processConfig(config)`: the URL is built, then the body is transformed with the
      headers as they were, then the headers are flattened; nothing else changes. */
  method ProcessConfig(h: Host, config: Config)
    modifies config`url, config`data, config`headers
    ensures config.url == BuiltURL(h, TargetURL(config.baseURL, old(config.url)), config.params, config.paramsSerializer)
    ensures config.data == h.transform(old(config.data), old(config.headers), config.transformRequest)
    ensures config.headers == h.flattenHeaders(old(config.headers), config.httpMethod)
  {
    config.url := TransformURL(h, config);
    config.data := h.transform(config.data, config.headers, config.transformRequest);
    config.headers := h.flattenHeaders(config.headers, config.httpMethod);
    assert config.baseURL == old(config.baseURL) && config.params == old(config.params)
           && config.paramsSerializer == old(config.paramsSerializer);
  }

  /** `transformResponseData(res)`: only the body of the response is replaced, and the
      same response object is returned. */
  method TransformResponseData(h: Host, res: Response) returns (r: Response)
    modifies res`data
    ensures r == res
    ensures res.data == h.transform(old(res.data), res.headers, res.config.transformResponse)
  {
    res.data := h.transform(res.data, res.headers, res.config.transformResponse);
    r := res;
  }

  /** What `dispatchRequest` does synchronously: it throws the reason of a cancelled
      token, or sends a request. */
  datatype Dispatched = Thrown(reason: Cancel) | Sent(request: Request)

  /** `dispatchRequest(config)` up to the transport call. A token cancelled beforehand
      stops it before the configuration is touched and before any request exists;
      otherwise the configuration is processed and the transport opens and sends a
      request for the processed URL, body and headers. */
  method DispatchRequest(h: Host, b: Browser, config: Config) returns (d: Dispatched)
    modifies config`url, config`data, config`headers
    ensures config.cancelToken.Some? && config.cancelToken.value.reason.Some? ==>
              d == Thrown(config.cancelToken.value.reason.value) && unchanged(config)
    ensures !(config.cancelToken.Some? && config.cancelToken.value.reason.Some?) ==>
              d.Sent? && fresh(d.request) && d.request.config == config
              && config.url == BuiltURL(h, TargetURL(config.baseURL, old(config.url)), config.params, config.paramsSerializer)
              && config.data == h.transform(old(config.data), old(config.headers), config.transformRequest)
              && d.request.url == config.url
              && d.request.data == (if config.data.Undefined? then Null else config.data)
              && d.request.sentBody == Some(d.request.data) && d.request.state == Pending
    ensures !(config.cancelToken.Some? && config.cancelToken.value.reason.Some?) ==>
              d.Sent? &&
              var p := PreparedHeaders(h, b, h.flattenHeaders(old(config.headers), config.httpMethod),
                                       d.request.data, config.withCredentials, config.url,
                                       config.xsrfCookieName, config.xsrfHeaderName, config.auth);
              d.request.sentHeaders == Kept(p, d.request.data.Null?) && config.headers == Kept(p, d.request.data.Null?)
  {
    var thrown := ThrowIfCancellationRequested(config);
    if thrown.Some? {
      return Thrown(thrown.value);
    }
    ProcessConfig(h, config);
    var req := Xhr.Xhr(h, b, config);
    return Sent(req);
  }

  /** The `then` of `dispatchRequest`: a resolved request has its response transformed;
      a rejection passes through unchanged. */
  method Completion(h: Host, req: Request) returns (result: Settlement)
    modifies if req.state.Resolved? then {req.state.response} else {}
    ensures result == req.state
    ensures result.Resolved? ==>
              result.response.data == h.transform(old(result.response.data), result.response.headers,
                                                  result.response.config.transformResponse)
  {
    result := req.state;
    if result.Resolved? {
      var res := TransformResponseData(h, result.response);
    }
  }
}
