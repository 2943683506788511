/**
 * The credential gate of `get_client` (server.py:25-28). Every route calls
 * it first; a rejected key ends the request with HTTP 401.
 */
module Auth {
  import opened Wrappers

  const MinKeyLength: nat := 10
  const Placeholder: string := "null"
  const UnauthorizedStatus: nat := 401
  const MissingKeyDetail: string := "Please enter your Gemini API Key in Settings \U{2699}\U{FE0F}"

  /** The `HTTPException` raised for a rejected key. */
  datatype Unauthorized = Unauthorized(status: nat, detail: string)

  /** What the model client is built from: the accepted key. */
  datatype Client = Client(apiKey: string)

  /** `get_client(api_key)`; the header may be absent (`None`). */
  function GetClient(apiKey: Option<string>): (r: Result<Client, Unauthorized>)
    ensures r.Success? <==>
      apiKey.Some? && apiKey.value != "" && apiKey.value != Placeholder && |apiKey.value| >= MinKeyLength
    ensures r.Success? <==> apiKey.Some? && |apiKey.value| >= MinKeyLength
    ensures r.Success? ==> r.value.apiKey == apiKey.value
    ensures r.Failure? ==> r.error == Unauthorized(UnauthorizedStatus, MissingKeyDetail)
  {
    if apiKey.None? || apiKey.value == "" || apiKey.value == Placeholder || |apiKey.value| < MinKeyLength then
      Failure(Unauthorized(UnauthorizedStatus, MissingKeyDetail))
    else
      Success(Client(apiKey.value))
  }
}
