/** The request configuration, the response and the cancellation token: the objects the
    dispatcher and the transport read and update in place. */
module Types {
  import opened Js

  /** `auth`: the credentials sent with HTTP basic authentication. */
  datatype Auth = Auth(username: string, password: string)

  /** The reason a cancel token carries once `cancel(message)` was called. */
  datatype Cancel = Cancel(message: Option<string>)

  /** A cancel token: no reason until the request is cancelled. */
  class CancelToken {
    var reason: Option<Cancel>

    constructor(reason: Option<Cancel>)
      ensures this.reason == reason
    {
      this.reason := reason;
    }
  }

  /** A request configuration. An absent setting is None (or Undefined for a JavaScript
      value); `url` is always set in this model. */
  class Config {
    var url: string
    var httpMethod: Option<string>  // `method`
    var baseURL: Option<string>
    var params: JsValue
    var paramsSerializer: Option<JsValue -> string>
    var data: JsValue
    var headers: Dict
    var timeout: Option<nat>
    var responseType: Option<string>
    var withCredentials: bool
    var xsrfCookieName: Option<string>
    var xsrfHeaderName: Option<string>
    var auth: Option<Auth>
    var validateStatus: Option<int -> bool>
    var cancelToken: Option<CancelToken>
    var transformRequest: seq<Transformer>
    var transformResponse: seq<Transformer>

    constructor(url: string, httpMethod: Option<string>, baseURL: Option<string>, params: JsValue,
                paramsSerializer: Option<JsValue -> string>, data: JsValue, headers: Dict,
                timeout: Option<nat>, responseType: Option<string>, withCredentials: bool,
                xsrfCookieName: Option<string>, xsrfHeaderName: Option<string>, auth: Option<Auth>,
                validateStatus: Option<int -> bool>, cancelToken: Option<CancelToken>,
                transformRequest: seq<Transformer>, transformResponse: seq<Transformer>)
      ensures this.url == url && this.httpMethod == httpMethod && this.baseURL == baseURL
      ensures this.params == params && this.paramsSerializer == paramsSerializer
      ensures this.data == data && this.headers == headers && this.timeout == timeout
      ensures this.responseType == responseType && this.withCredentials == withCredentials
      ensures this.xsrfCookieName == xsrfCookieName && this.xsrfHeaderName == xsrfHeaderName
      ensures this.auth == auth && this.validateStatus == validateStatus
      ensures this.cancelToken == cancelToken
      ensures this.transformRequest == transformRequest && this.transformResponse == transformResponse
    {
      this.url := url;
      this.httpMethod := httpMethod;
      this.baseURL := baseURL;
      this.params := params;
      this.paramsSerializer := paramsSerializer;
      this.data := data;
      this.headers := headers;
      this.timeout := timeout;
      this.responseType := responseType;
      this.withCredentials := withCredentials;
      this.xsrfCookieName := xsrfCookieName;
      this.xsrfHeaderName := xsrfHeaderName;
      this.auth := auth;
      this.validateStatus := validateStatus;
      this.cancelToken := cancelToken;
      this.transformRequest := transformRequest;
      this.transformResponse := transformResponse;
    }
  }

  /** A response. Only `data` is replaced after the response is built (by the response
      transformers); `request` is the transport object that produced it. */
  class Response {
    var data: JsValue
    const status: nat
    const statusText: string
    const headers: Dict
    const config: Config
    const request: object

    constructor(data: JsValue, status: nat, statusText: string, headers: Dict, config: Config, request: object)
      ensures this.data == data && this.status == status && this.statusText == statusText
      ensures this.headers == headers && this.config == config && this.request == request
    {
      this.data := data;
      this.status := status;
      this.statusText := statusText;
      this.headers := headers;
      this.config := config;
      this.request := request;
    }
  }
}
