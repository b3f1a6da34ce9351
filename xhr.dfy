/** The browser transport: opening the request, preparing and sending its headers, and
    turning the events of the XMLHttpRequest into a one-shot settlement of the promise. */
module Xhr {
  import opened Js
  import opened Types
  import opened Errors

  /** The browser state the transport consults: whether a URL has the page's origin
      (`isURLSameOrigin`) and the value of a cookie (`cookie.read`, None when unset). */
  datatype Browser = Browser(isURLSameOrigin: string -> bool, readCookie: string -> Option<string>)

  /** Why a request promise was rejected: an error, or the reason of a cancelled token. */
  datatype Rejection = Failed(error: AxiosError) | Cancelled(reason: Cancel)

  /** The state of a request promise. */
  datatype Settlement = Pending | Resolved(response: Response) | Rejected(rejection: Rejection)

  /** Calling `resolve` or `reject`: only the first call settles the promise. */
  function Settle(s: Settlement, outcome: Settlement): (r: Settlement)
    ensures !s.Pending? ==> r == s
    ensures s.Pending? ==> r == outcome
  {
    if s.Pending? then outcome else s
  }

  /** The state after a series of `resolve`/`reject` calls. */
  function SettleAll(s: Settlement, outcomes: seq<Settlement>): Settlement
    decreases |outcomes|
  {
    if outcomes == [] then s else SettleAll(Settle(s, outcomes[0]), outcomes[1..])
  }

  /** The first of the outcomes that is not Pending, if any. */
  function FirstSettled(outcomes: seq<Settlement>): Settlement
  {
    if outcomes == [] then Pending
    else if !outcomes[0].Pending? then outcomes[0]
    else FirstSettled(outcomes[1..])
  }

  /** A settled promise stays as it is, and a pending one takes the first settling call:
      every later `resolve` or `reject` has no effect. */
  lemma {:induction false} SettleAllIsFirst(s: Settlement, outcomes: seq<Settlement>)
    ensures !s.Pending? ==> SettleAll(s, outcomes) == s
    ensures s.Pending? ==> SettleAll(s, outcomes) == FirstSettled(outcomes)
    decreases |outcomes|
  {
    if outcomes != [] {
      SettleAllIsFirst(Settle(s, outcomes[0]), outcomes[1..]);
    }
  }

  // ---------------------------------------------------------------------------
  // Header preparation.

  /** A header name `name.toLowerCase() === 'content-type'`. */
  predicate IsContentType(name: string)
  {
    ToLowerCase(name) == "content-type"
  }

  /** With a FormData body the browser chooses the content type, so `Content-Type` is
      deleted (only that spelling). */
  function WithoutFormDataType(headers: Dict, data: JsValue): (r: Dict)
    ensures data.FormData? ==> "Content-Type" !in Keys(r)
    ensures forall k :: (k != "Content-Type" || !data.FormData?) ==> Get(r, k) == Get(headers, k)
  {
    if data.FormData? then Delete(headers, "Content-Type") else headers
  }

  /** Whether the XSRF header is added, and with which value. */
  function XsrfValue(b: Browser, withCredentials: bool, url: string,
                     cookieName: Option<string>, headerName: Option<string>): (v: Option<string>)
    ensures v.Some? <==>
              (withCredentials || b.isURLSameOrigin(url)) && Given(cookieName)
              && Given(b.readCookie(cookieName.value)) && Given(headerName)
    ensures v.Some? ==> v == b.readCookie(cookieName.value)
  {
    if (withCredentials || b.isURLSameOrigin(url)) && Given(cookieName) then
      var xsrfValue := b.readCookie(cookieName.value);
      if Given(xsrfValue) && Given(headerName) then xsrfValue else None
    else None
  }

  /** The XSRF step: the header named `headerName` is set to the cookie's value when the
      request goes with credentials or to the page's origin, a cookie name is set, the
      cookie is present and non-empty and a header name is set; otherwise the headers are
      left as they are. */
  function WithXsrf(b: Browser, headers: Dict, withCredentials: bool, url: string,
                    cookieName: Option<string>, headerName: Option<string>): (r: Dict)
    ensures XsrfValue(b, withCredentials, url, cookieName, headerName).None? ==> r == headers
    ensures XsrfValue(b, withCredentials, url, cookieName, headerName).Some? ==>
              Get(r, headerName.value) == Some(Str(XsrfValue(b, withCredentials, url, cookieName, headerName).value))
              && forall k :: k != headerName.value ==> Get(r, k) == Get(headers, k)
  {
    var v := XsrfValue(b, withCredentials, url, cookieName, headerName);
    if v.Some? then Put(headers, headerName.value, Str(v.value)) else headers
  }

  /** The `Authorization` value for the credentials: "Basic" and the base64 text of
      `username:password`, with no space after "Basic". */
  function BasicAuthorization(h: Host, auth: Auth): (v: string)
    ensures |v| >= 5 && v[..5] == "Basic" && v[5..] == h.btoa(auth.username + ":" + auth.password)
  {
    "Basic" + h.btoa(auth.username + ":" + auth.password)
  }

  function WithAuth(h: Host, headers: Dict, auth: Option<Auth>): (r: Dict)
    ensures auth.None? ==> r == headers
    ensures auth.Some? ==> Get(r, "Authorization") == Some(Str(BasicAuthorization(h, auth.value)))
    ensures forall k :: k != "Authorization" ==> Get(r, k) == Get(headers, k)
  {
    if auth.Some? then Put(headers, "Authorization", Str(BasicAuthorization(h, auth.value))) else headers
  }

  /** The headers as they stand before the emission loop. With credentials the
      `Authorization` header holds them; an added XSRF header holds the cookie unless
      it is itself named `Authorization`; a FormData body leaves no `Content-Type` unless
      the XSRF header is named so; every other header is as it was. */
  function PreparedHeaders(h: Host, b: Browser, headers: Dict, data: JsValue, withCredentials: bool,
                           url: string, cookieName: Option<string>, headerName: Option<string>,
                           auth: Option<Auth>): (r: Dict)
    ensures auth.Some? ==> Get(r, "Authorization") == Some(Str(BasicAuthorization(h, auth.value)))
    ensures var x := XsrfValue(b, withCredentials, url, cookieName, headerName);
            x.Some? && (auth.None? || headerName.value != "Authorization") ==>
              Get(r, headerName.value) == Some(Str(x.value))
    ensures var x := XsrfValue(b, withCredentials, url, cookieName, headerName);
            data.FormData? && (x.None? || headerName.value != "Content-Type") ==>
              Get(r, "Content-Type") == None
    ensures var x := XsrfValue(b, withCredentials, url, cookieName, headerName);
            forall k :: (k != "Authorization" && (x.None? || k != headerName.value)
                         && (k != "Content-Type" || !data.FormData?)) ==> Get(r, k) == Get(headers, k)
  {
    WithAuth(h, WithXsrf(b, WithoutFormDataType(headers, data), withCredentials, url, cookieName, headerName), auth)
  }

  /** What the emission loop does with one property: without a body a content-type
      header is dropped, any other header is kept. */
  function KeptOne(x: (string, JsValue), dataIsNull: bool): seq<(string, JsValue)>
  {
    if dataIsNull && IsContentType(x.0) then [] else [x]
  }

  /** The properties the emission loop keeps, in their order. */
  function Kept(entries: seq<(string, JsValue)>, dataIsNull: bool): (r: seq<(string, JsValue)>)
    ensures |r| <= |entries|
  {
    if entries == [] then []
    else Kept(entries[..|entries| - 1], dataIsNull) + KeptOne(entries[|entries| - 1], dataIsNull)
  }

  /** A header is kept exactly when it is not dropped; with a body every header is kept. */
  lemma {:induction false} KeptMembers(entries: seq<(string, JsValue)>, dataIsNull: bool)
    ensures forall x :: x in Kept(entries, dataIsNull) <==> x in entries && !(dataIsNull && IsContentType(x.0))
    ensures !dataIsNull ==> Kept(entries, dataIsNull) == entries
  {
    if entries != [] {
      var n := |entries| - 1;
      KeptMembers(entries[..n], dataIsNull);
      assert entries == entries[..n] + [entries[n]];
    }
  }

  lemma KeptLast(a: seq<(string, JsValue)>, x: (string, JsValue), dataIsNull: bool)
    ensures Kept(a + [x], dataIsNull) == Kept(a, dataIsNull) + KeptOne(x, dataIsNull)
  {
    assert (a + [x])[..|a|] == a;
  }

  /** The emission loop keeps the relative order of properties. */
  lemma {:induction false} KeptAppend(a: seq<(string, JsValue)>, b: seq<(string, JsValue)>, dataIsNull: bool)
    ensures Kept(a + b, dataIsNull) == Kept(a, dataIsNull) + Kept(b, dataIsNull)
    decreases |b|
  {
    if b == [] {
      assert a + b == a;
    } else {
      var n := |b| - 1;
      KeptAppend(a, b[..n], dataIsNull);
      assert b == b[..n] + [b[n]];
      ConcatAssoc(a, b[..n], [b[n]]);
      KeptLast(a + b[..n], b[n], dataIsNull);
      KeptLast(b[..n], b[n], dataIsNull);
      ConcatAssoc(Kept(a, dataIsNull), Kept(b[..n], dataIsNull), KeptOne(b[n], dataIsNull));
    }
  }

  /** Each header is emitted at most once: the kept properties of an object still have
      distinct names. */
  lemma {:induction false} KeptDistinct(d: Dict, dataIsNull: bool)
    ensures DistinctKeys(Kept(d, dataIsNull))
  {
    if d != [] {
      var n := |d| - 1;
      var prefix: Dict := d[..n];
      KeptDistinct(prefix, dataIsNull);
      var k := Kept(prefix, dataIsNull);
      KeptMembers(prefix, dataIsNull);
      forall i | 0 <= i < |k| ensures k[i].0 != d[n].0 {
        assert k[i] in prefix;
      }
    }
  }

  /** Without a FormData-and-XSRF clash on the name, a FormData body never sends a
      `Content-Type` header. */
  lemma FormDataSendsNoContentType(h: Host, b: Browser, headers: Dict, data: JsValue, withCredentials: bool,
                                  url: string, cookieName: Option<string>, headerName: Option<string>,
                                  auth: Option<Auth>)
    requires data.FormData? && headerName != Some("Content-Type")
    ensures forall x :: x in Kept(PreparedHeaders(h, b, headers, data, withCredentials, url, cookieName, headerName, auth), data.Null?)
              ==> x.0 != "Content-Type"
  {
    var p := PreparedHeaders(h, b, headers, data, withCredentials, url, cookieName, headerName, auth);
    var d0 := WithoutFormDataType(headers, data);
    var d1 := WithXsrf(b, d0, withCredentials, url, cookieName, headerName);
    assert Get(d0, "Content-Type").None?;
    assert Get(d1, "Content-Type").None?;
    assert Get(p, "Content-Type").None?;
    KeptMembers(p, data.Null?);
    forall x | x in Kept(p, data.Null?) ensures x.0 != "Content-Type" {
      assert x in p;
      GetIff(p, x.0, x.1);
    }
  }

  lemma KeptSnoc(p: seq<(string, JsValue)>, i: nat, dataIsNull: bool)
    requires i < |p|
    ensures Kept(p[..i + 1], dataIsNull) == Kept(p[..i], dataIsNull) + KeptOne(p[i], dataIsNull)
  {
    assert p[..i + 1][..i] == p[..i];
  }

  /** The property visited is the one after those already handled: it holds its value,
      and deleting it leaves the others in place. */
  lemma EmitStep(d: Dict, k: seq<(string, JsValue)>, x: (string, JsValue), rest: seq<(string, JsValue)>)
    requires d == k + [x] + rest
    ensures Get(d, x.0) == Some(x.1)
    ensures Delete(d, x.0) == k + rest
  {
    assert d[|k|] == x;
    PropertyAt(d, |k|);
    assert d[..|k|] == k && d[|k| + 1..] == rest;
  }

  /** One step of the emission loop over the properties `p` of the headers, with the
      first i of them handled and the headers standing at `d`. */
  lemma EmitAdvance(p: Dict, i: nat, d: Dict, dataIsNull: bool)
    requires i < |p| && d == Kept(p[..i], dataIsNull) + p[i..]
    ensures Get(d, p[i].0) == Some(p[i].1)
    ensures dataIsNull && IsContentType(p[i].0) ==>
              Delete(d, p[i].0) == Kept(p[..i + 1], dataIsNull) + p[i + 1..]
              && Kept(p[..i + 1], dataIsNull) == Kept(p[..i], dataIsNull)
    ensures !(dataIsNull && IsContentType(p[i].0)) ==>
              d == Kept(p[..i + 1], dataIsNull) + p[i + 1..]
              && Kept(p[..i + 1], dataIsNull) == Kept(p[..i], dataIsNull) + [p[i]]
  {
    var k := Kept(p[..i], dataIsNull);
    KeptSnoc(p, i, dataIsNull);
    assert p[i..] == [p[i]] + p[i + 1..];
    EmitStep(d, k, p[i], p[i + 1..]);
    if dataIsNull && IsContentType(p[i].0) {
      assert k + [] == k;
    } else {
      assert k + [p[i]] + p[i + 1..] == (k + [p[i]]) + p[i + 1..];
    }
  }

  /** With credentials the `Authorization` header is among those sent, whatever the body. */
  lemma AuthorizationSent(h: Host, b: Browser, headers: Dict, data: JsValue, withCredentials: bool,
                          url: string, cookieName: Option<string>, headerName: Option<string>, auth: Option<Auth>)
    requires auth.Some?
    ensures ("Authorization", Str(BasicAuthorization(h, auth.value)))
              in Kept(PreparedHeaders(h, b, headers, data, withCredentials, url, cookieName, headerName, auth), data.Null?)
  {
    var p := PreparedHeaders(h, b, headers, data, withCredentials, url, cookieName, headerName, auth);
    assert |ToLowerCase("Authorization")| != |"content-type"|;
    KeptMembers(p, data.Null?);
  }

  /** The `forEach` over the header names that ends `processHeaders`: the names are
      taken once, before the loop; each is deleted from the headers when there is no
      body and it names the content type, and is sent with its value otherwise. Returns
      the headers left and the `setRequestHeader` calls made, in order. */
  method EmitHeaders(headers: Dict, dataIsNull: bool) returns (remaining: Dict, emitted: seq<(string, JsValue)>)
    ensures remaining == Kept(headers, dataIsNull)
    ensures emitted == Kept(headers, dataIsNull)
  {
    remaining := headers;
    emitted := [];
    var p: Dict := headers;
    var i := 0;
    assert p[..0] == [];
    while i < |p|
      invariant 0 <= i <= |p|
      invariant remaining == Kept(p[..i], dataIsNull) + p[i..]
      invariant emitted == Kept(p[..i], dataIsNull)
    {
      var name := p[i].0;
      if dataIsNull && IsContentType(name) {
        var r := Delete(remaining, name);
        assert r == Kept(p[..i + 1], dataIsNull) + p[i + 1..] && emitted == Kept(p[..i + 1], dataIsNull) by {
          EmitAdvance(p, i, remaining, dataIsNull);
        }
        remaining := r;
      } else {
        assert Get(remaining, name) == Some(p[i].1) by {
          EmitAdvance(p, i, remaining, dataIsNull);
        }
        var value := Get(remaining, name).value;
        assert remaining == Kept(p[..i + 1], dataIsNull) + p[i + 1..]
               && emitted + [(name, value)] == Kept(p[..i + 1], dataIsNull) by {
          EmitAdvance(p, i, remaining, dataIsNull);
        }
        emitted := emitted + [(name, value)];
      }
      i := i + 1;
    }
    assert p[..i] == p;
  }

  // ---------------------------------------------------------------------------
  // The request.

  class Request {
    const config: Config
    /** `data = null`: an undefined body is sent as null. */
    const data: JsValue
    const url: string
    /** The method passed to `open`. */
    const openedMethod: string
    const responseType: Option<string>
    const timeout: Option<nat>
    const validateStatus: Option<int -> bool>
    const cancelToken: Option<CancelToken>
    /** The `setRequestHeader` calls so far, in order. */
    var sentHeaders: seq<(string, JsValue)>
    /** The argument of `send`, once it was called. */
    var sentBody: Option<JsValue>
    var aborted: bool
    var state: Settlement

    /** `new XMLHttpRequest()` and `open(method.toUpperCase(), url, true)`, with the
        settings of `config` read once. */
    constructor Open(config: Config)
      ensures this.config == config
      ensures data == if config.data.Undefined? then Null else config.data
      ensures openedMethod == ToUpperCase(if config.httpMethod.Some? then config.httpMethod.value else "get")
      ensures url == config.url
      ensures responseType == config.responseType && timeout == config.timeout
      ensures validateStatus == config.validateStatus && cancelToken == config.cancelToken
      ensures sentHeaders == [] && sentBody == None && !aborted && state == Pending
    {
      this.config := config;
      data := if config.data.Undefined? then Null else config.data;
      var m := if config.httpMethod.Some? then config.httpMethod.value else "get";
      openedMethod := ToUpperCase(m);
      url := config.url;
      responseType := config.responseType;
      timeout := config.timeout;
      validateStatus := config.validateStatus;
      cancelToken := config.cancelToken;
      sentHeaders := [];
      sentBody := None;
      aborted := false;
      state := Pending;
    }

    /** `processHeaders`: the content type of a FormData body, the XSRF header and the
        `Authorization` header are settled in `config.headers`; then every property is
        visited in key order, and is deleted when there is no body and it names the
        content type, and is sent otherwise. */
    method ProcessHeaders(h: Host, b: Browser)
      modifies config`headers, this`sentHeaders
      ensures var p := PreparedHeaders(h, b, old(config.headers), data, config.withCredentials, url,
                                       config.xsrfCookieName, config.xsrfHeaderName, config.auth);
              config.headers == Kept(p, data.Null?) && sentHeaders == old(sentHeaders) + Kept(p, data.Null?)
    {
      ghost var prepared := PreparedHeaders(h, b, config.headers, data, config.withCredentials, url,
                                            config.xsrfCookieName, config.xsrfHeaderName, config.auth);
      var headers := WithoutFormDataType(config.headers, data);
      headers := WithXsrf(b, headers, config.withCredentials, url, config.xsrfCookieName, config.xsrfHeaderName);
      headers := WithAuth(h, headers, config.auth);
      assert headers == prepared;
      var remaining, emitted := EmitHeaders(headers, data.Null?);
      config.headers := remaining;
      sentHeaders := sentHeaders + emitted;
      assert config.withCredentials == old(config.withCredentials) && config.auth == old(config.auth)
             && config.xsrfCookieName == old(config.xsrfCookieName)
             && config.xsrfHeaderName == old(config.xsrfHeaderName);
    }

    /** `request.send(data)`. */
    method Send()
      modifies this`sentBody
      ensures sentBody == Some(data)
    {
      sentBody := Some(data);
    }

    /** The settlement `handleResponse` asks for: resolve when there is no
        `validateStatus` or it accepts the status; otherwise reject with an error that
        carries the response. */
    function Outcome(res: Response): (s: Settlement)
      ensures s.Resolved? <==> validateStatus.None? || validateStatus.value(res.status)
      ensures s.Resolved? ==> s.response == res
      ensures s.Rejected? ==> s.rejection.Failed?
      ensures s.Rejected? ==> var e := s.rejection.error;
                e.message == "Request failed with status code " + NatToString(res.status)
                && e.code == NullCode && e.config == config
                && e.request.Some? && e.request.value == this && e.response == Some(res)
    {
      if validateStatus.None? || validateStatus.value(res.status) then Resolved(res)
      else Rejected(Failed(CreateError("Request failed with status code " + NatToString(res.status),
                                       config, NullCode, Some(this), Some(res))))
    }

    /** `handleResponse(response)`. */
    method HandleResponse(res: Response)
      modifies this`state
      ensures state == Settle(old(state), Outcome(res))
    {
      if state.Pending? {
        state := Outcome(res);
      }
    }

    /** `onreadystatechange`: nothing happens before the request is done (`readyState`
        4) or while the status is 0; then a response is built from the transport's
        status, parsed headers and body (`responseText` when the response type is
        "text") and handed to `handleResponse`. */
    method HandleLoad(h: Host, readyState: nat, status: nat, statusText: string, rawHeaders: string,
                      response: JsValue, responseText: string) returns (created: Option<Response>)
      modifies this`state
      ensures created.Some? <==> readyState == 4 && status != 0
      ensures created.None? ==> state == old(state)
      ensures created.Some? ==>
                var res := created.value;
                fresh(res)
                && res.data == (if responseType == Some("text") then Str(responseText) else response)
                && res.status == status && res.statusText == statusText
                && res.headers == h.parseHeaders(rawHeaders) && res.config == config && res.request == this
                && state == Settle(old(state), Outcome(res))
    {
      if readyState != 4 {
        return None;
      }
      if status == 0 {
        return None;
      }
      var responseHeaders := h.parseHeaders(rawHeaders);
      var responseData := if responseType != Some("text") then response else Str(responseText);
      var res := new Response(responseData, status, statusText, responseHeaders, config, this);
      HandleResponse(res);
      created := Some(res);
    }

    /** The error of a network failure. */
    function NetworkError(): (e: AxiosError)
      ensures e.message == "Network error" && e.code == NullCode
      ensures e.config == config && e.request.Some? && e.request.value == this && e.response == None
    {
      CreateError("Network error", config, NullCode, Some(this), None)
    }

    /** `${timeout}`: the configured timeout, or "undefined". */
    function TimeoutText(): (t: string)
      ensures timeout.None? ==> t == "undefined"
      ensures timeout.Some? ==> t != [] && forall i :: 0 <= i < |t| ==> '0' <= t[i] <= '9'
      ensures timeout.Some? ==> DecimalValue(t) == timeout.value && (t[0] == '0' ==> t == "0")
      ensures timeout.Some? ==> t == NatToString(timeout.value)
    {
      if timeout.Some? then NatToStringValue(timeout.value); NatToString(timeout.value) else "undefined"
    }

    /** The error of a request that timed out. */
    function TimeoutError(): (e: AxiosError)
      ensures e.message == "Timeout of " + TimeoutText() + " ms exceeded"
      ensures e.code == Code("ECONNABORTED")
      ensures e.config == config && e.request.Some? && e.request.value == this && e.response == None
    {
      CreateError("Timeout of " + TimeoutText() + " ms exceeded", config, Code("ECONNABORTED"), Some(this), None)
    }

    /** `onerror`. */
    method HandleError()
      modifies this`state
      ensures state == Settle(old(state), Rejected(Failed(NetworkError())))
    {
      if state.Pending? {
        state := Rejected(Failed(NetworkError()));
      }
    }

    /** `ontimeout`. */
    method HandleTimeout()
      modifies this`state
      ensures state == Settle(old(state), Rejected(Failed(TimeoutError())))
    {
      if state.Pending? {
        state := Rejected(Failed(TimeoutError()));
      }
    }

    /** The callback registered on the cancel token, run once the token has a reason:
        the request is aborted and the promise rejected with the reason itself. Without
        a token nothing was registered. */
    method OnCancel()
      modifies this`aborted, this`state
      ensures cancelToken.None? || cancelToken.value.reason.None? ==>
                aborted == old(aborted) && state == old(state)
      ensures cancelToken.Some? && cancelToken.value.reason.Some? ==>
                aborted && state == Settle(old(state), Rejected(Cancelled(cancelToken.value.reason.value)))
    {
      if cancelToken.Some? {
        var reason := cancelToken.value.reason;
        if reason.Some? {
          aborted := true;
          if state.Pending? {
            state := Rejected(Cancelled(reason.value));
          }
        }
      }
    }
  }

  /** `xhr(config)` up to `send`: the request is opened, its headers prepared and sent,
      and the body sent; the promise is pending until one of the handlers settles it. */
  method Xhr(h: Host, b: Browser, config: Config) returns (req: Request)
    modifies config`headers
    ensures fresh(req) && req.config == config
    ensures req.openedMethod == ToUpperCase(if config.httpMethod.Some? then config.httpMethod.value else "get")
    ensures req.url == config.url
    ensures req.data == if config.data.Undefined? then Null else config.data
    ensures var p := PreparedHeaders(h, b, old(config.headers), req.data, config.withCredentials, config.url,
                                     config.xsrfCookieName, config.xsrfHeaderName, config.auth);
            config.headers == Kept(p, req.data.Null?) && req.sentHeaders == Kept(p, req.data.Null?)
    ensures req.sentBody == Some(req.data)
    ensures req.state == Pending && !req.aborted
  {
    req := new Request.Open(config);
    req.ProcessHeaders(h, b);
    req.Send();
  }
}
