/**
 * The front end's classifier of failed API calls (frontend/src/utils/errorHandling.ts):
 * from the shape of an HTTP client error to a message for the user, an error type and,
 * for answers the server gave, the status.
 */
module ErrorHandling {

  import opened Wrappers
  import opened JsText

  const DefaultErrorMessage := "Ett fel inträffade. Försök igen senare."
  const NetworkMessage := "Kunde inte ansluta till servern. Kontrollera din nätverksanslutning."
  const UnauthorizedMessage := "Ej behörig. Logga in igen."
  const ForbiddenMessage := "Tillträde nekad."
  const ServerMessage := "Ett serverfel inträffade. Vänligen försök igen senare."

  datatype ErrorType = Network | Auth | Server | Client | Unknown

  /**
   * The body of an error answer: nothing, a text, or an object whose `detail` and `message`
   * fields may be present. Fields holding anything but text are not modelled.
   */
  datatype ResponseData = NoData | Text(text: string) | Fields(detail: Option<string>, message: Option<string>)

  datatype Response = Response(status: int, data: ResponseData)

  /** The error the HTTP client raises: the answer, if one came, and the error's `code` and `message`. */
  datatype ApiError = ApiError(response: Option<Response>, code: Option<string>, message: Option<string>)

  /** What the classifier attaches as `details`. */
  datatype Details = NoDetails | ResponseDetails(data: ResponseData) | ErrorDetails(error: ApiError)

  datatype ParsedError = ParsedError(message: string, kind: ErrorType, status: Option<int>, details: Details)

  // ---------------------------------------------------------------------------
  // The classes of errors, each defined on its own

  /** No answer came, or the request timed out. */
  predicate IsNetworkError(e: ApiError) {
    e.response.None? || e.code == Some("ECONNABORTED")
  }

  predicate IsAuthError(e: ApiError) {
    !IsNetworkError(e) && (e.response.value.status == 401 || e.response.value.status == 403)
  }

  predicate IsServerError(e: ApiError) {
    !IsNetworkError(e) && e.response.value.status >= 500
  }

  predicate IsClientError(e: ApiError) {
    && !IsNetworkError(e)
    && 400 <= e.response.value.status < 500
    && e.response.value.status != 401 && e.response.value.status != 403
  }

  predicate IsUnknownError(e: ApiError) {
    !IsNetworkError(e) && e.response.value.status < 400
  }

  /** Every error falls in exactly one class. */
  lemma ClassesPartition(e: ApiError)
    ensures IsNetworkError(e) || IsAuthError(e) || IsServerError(e) || IsClientError(e) || IsUnknownError(e)
    ensures !(IsNetworkError(e) && IsAuthError(e)) && !(IsNetworkError(e) && IsServerError(e))
    ensures !(IsNetworkError(e) && IsClientError(e)) && !(IsNetworkError(e) && IsUnknownError(e))
    ensures !(IsAuthError(e) && IsServerError(e)) && !(IsAuthError(e) && IsClientError(e))
    ensures !(IsAuthError(e) && IsUnknownError(e)) && !(IsServerError(e) && IsClientError(e))
    ensures !(IsServerError(e) && IsUnknownError(e)) && !(IsClientError(e) && IsUnknownError(e))
  {
  }

  // ---------------------------------------------------------------------------
  // The classifier

  /**
   * The message of a 4xx answer: the body's `detail`, else its `message`, else the body
   * itself when it is text, else a fallback naming the status.
   */
  function ClientMessage(data: ResponseData, status: int): (r: string)
    ensures data.Fields? && Given(data.detail) ==> r == data.detail.value
    ensures data.Fields? && !Given(data.detail) && Given(data.message) ==> r == data.message.value
    ensures data.Text? && data.text != "" ==> r == data.text
    ensures (data.NoData? || (data.Text? && data.text == "") || (data.Fields? && !Given(data.detail) && !Given(data.message)))
      ==> r == "Request misslyckades (" + IntText(status) + ")"
    ensures r != ""
  {
    var serverMessage :=
      match data
      case Fields(detail, message) =>
        if Given(detail) then detail else if Given(message) then message else None
      case Text(text) => if text != "" then Some(text) else None
      case NoData => None;
    if Given(serverMessage) then serverMessage.value else "Request misslyckades (" + IntText(status) + ")"
  }

  /** The status can be read back from the fallback message. */
  lemma ClientFallbackNamesStatus(status: int)
    ensures var m := ClientMessage(NoData, status);
      m[..22] == "Request misslyckades (" && m[|m| - 1] == ')' && ParseInt(m[22..|m| - 1]) == Num(status)
  {
    var prefix, x := "Request misslyckades (", IntText(status);
    assert |prefix| == 22;
    assert ClientMessage(NoData, status) == prefix + x + ")";
    Enclosed(prefix, x, ')');
    ParseIntText(status);
  }

  /** The parts of a text enclosed between a prefix and a closing character. */
  lemma Enclosed(prefix: string, x: string, close: char)
    ensures var m := prefix + x + [close];
      m[..|prefix|] == prefix && m[|m| - 1] == close && m[|prefix|..|m| - 1] == x
  {
  }

  /** `parseApiError`. */
  function ParseApiError(e: ApiError): (r: ParsedError)
    ensures r.kind == Network <==> IsNetworkError(e)
    ensures r.kind == Auth <==> IsAuthError(e)
    ensures r.kind == Server <==> IsServerError(e)
    ensures r.kind == Client <==> IsClientError(e)
    ensures r.kind == Unknown <==> IsUnknownError(e)
    ensures r.status.Some? <==> r.kind in {Auth, Server, Client}
    ensures r.status.Some? ==> r.status.value == e.response.value.status
    ensures r.kind == Network ==> r.message == NetworkMessage && r.details == NoDetails
    ensures r.kind == Auth ==> r.message == (if r.status == Some(401) then UnauthorizedMessage else ForbiddenMessage)
    ensures r.kind == Auth ==> r.details == NoDetails
    ensures r.kind == Server ==> r.message == ServerMessage && r.details == ResponseDetails(e.response.value.data)
    ensures r.kind == Client ==>
      && r.message == ClientMessage(e.response.value.data, e.response.value.status)
      && r.details == ResponseDetails(e.response.value.data)
    ensures r.kind == Unknown ==>
      && r.message == (if Given(e.message) then e.message.value else DefaultErrorMessage)
      && r.details == ErrorDetails(e)
    ensures r.message != ""
  {
    if e.response.None? || e.code == Some("ECONNABORTED") then
      ParsedError(NetworkMessage, Network, None, NoDetails)
    else
      var status := e.response.value.status;
      if status == 401 || status == 403 then
        ParsedError(if status == 401 then UnauthorizedMessage else ForbiddenMessage, Auth, Some(status), NoDetails)
      else if status >= 500 then
        ParsedError(ServerMessage, Server, Some(status), ResponseDetails(e.response.value.data))
      else if status >= 400 then
        ParsedError(ClientMessage(e.response.value.data, status), Client, Some(status), ResponseDetails(e.response.value.data))
      else
        ParsedError(if Given(e.message) then e.message.value else DefaultErrorMessage, Unknown, None, ErrorDetails(e))
  }

  /** A timed-out request is a network error whatever answer it carries. */
  lemma TimeoutIsNetwork(response: Response, message: Option<string>)
    ensures ParseApiError(ApiError(Some(response), Some("ECONNABORTED"), message)).kind == Network
    ensures ParseApiError(ApiError(Some(response), Some("ECONNABORTED"), message)).status.None?
  {
  }

  /** Only the status of the answer decides the class once an answer came in time. */
  lemma ClassDependsOnStatusOnly(e: ApiError, e2: ApiError)
    requires !IsNetworkError(e) && !IsNetworkError(e2)
    requires e.response.value.status == e2.response.value.status
    ensures ParseApiError(e).kind == ParseApiError(e2).kind
    ensures ParseApiError(e).status == ParseApiError(e2).status
  {
  }
}
