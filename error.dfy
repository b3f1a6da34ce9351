/** The error record the client rejects with. */
module Errors {
  import opened Js
  import opened Types

  /** The `code` of an error: not passed (undefined), null, or a string such as
      "ECONNABORTED". */
  datatype Code = NoCode | NullCode | Code(name: string)

  /** `AxiosError`: an Error with the configuration of the failed request, an optional code,
      the transport object and the response, when there is one. Every such error carries
      the marker `isAxiosError`, which is true. */
  datatype AxiosError = AxiosError(message: string, config: Config, code: Code,
                                   request: Option<object>, response: Option<Response>)
  {
    const isAxiosError: bool := true
  }

  /** `createError(message, config, code, request, response)`: an error holding exactly
      the arguments; an argument that is not passed is NoCode or None. */
  function CreateError(message: string, config: Config, code: Code,
                       request: Option<object>, response: Option<Response>): (e: AxiosError)
    ensures e.isAxiosError
    ensures e.message == message && e.config == config && e.code == code
    ensures e.request == request && e.response == response
  {
    AxiosError(message, config, code, request, response)
  }
}
