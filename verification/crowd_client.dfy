/**
 * The `dotNetCrowdAuthentication` client: three configuration strings fixed
 * at construction, two result fields (display name and email), the request
 * that `Authenticate` sends to the Crowd REST endpoint, and the way the
 * result of that one HTTP round trip updates the fields.
 *
 * The network is not modelled: what `GetRequestStream`/`GetResponse` did is
 * an `Outcome` argument, and a C# exception leaving `Authenticate` is a
 * `Threw` completion that still carries the instance state it left behind.
 */
module CrowdClient {
  import opened Wrappers
  import Credentials
  import Base64

  const AuthenticationPath: string := "/usermanagement/1/authentication?username="
  const DisplayNameKey: string := "display-name"
  const EmailKey: string := "email"
  const JsonMediaType: string := "application/json"
  const PostMethod: string := "POST"
  const BasicPrefix: string := "Basic "
  const StatusOK: int := 200

  /** The three strings given to the constructor. */
  datatype Config = Config(crowdUrl: string, applicationName: string, applicationPassword: string)

  /** An instance: its configuration and the two fields read through `DisplayName` and `Email`. */
  datatype Client = Client(config: Config, displayName: string, email: string)

  /** The configuration an Authorization header can be computed from (see `Credentials.Encode`). */
  predicate EncodableConfig(config: Config) {
    Credentials.IsAscii(config.applicationName) && Credentials.IsAscii(config.applicationPassword)
  }

  /** The constructor: stores the three strings verbatim; both result fields start empty. */
  function New(crowdUrl: string, applicationName: string, applicationPassword: string): (c: Client)
    ensures c.config.crowdUrl == crowdUrl
    ensures c.config.applicationName == applicationName
    ensures c.config.applicationPassword == applicationPassword
    ensures c.displayName == "" && c.email == ""
  {
    Client(Config(crowdUrl, applicationName, applicationPassword), "", "")
  }

  /**
   * The private setter of `DisplayName`: whatever value is assigned, the
   * field becomes empty.
   */
  function SetDisplayName(c: Client, value: string): (c': Client)
    ensures c'.displayName == ""
    ensures c'.email == c.email && c'.config == c.config
  {
    c.(displayName := "")
  }

  /** The private setter of `Email`: whatever value is assigned, the field becomes empty. */
  function SetEmail(c: Client, value: string): (c': Client)
    ensures c'.email == ""
    ensures c'.displayName == c.displayName && c'.config == c.config
  {
    c.(email := "")
  }

  /** Assigning through a private setter does not depend on the value assigned. */
  lemma SettersIgnoreValue(c: Client, v1: string, v2: string)
    ensures SetDisplayName(c, v1) == SetDisplayName(c, v2)
    ensures SetEmail(c, v1) == SetEmail(c, v2)
  {
  }

  /** `DeleteInformation`: both result fields become empty; the configuration stays. */
  function DeleteInformation(c: Client): (c': Client)
    ensures c'.displayName == "" && c'.email == ""
    ensures c'.config == c.config
  {
    c.(email := "", displayName := "")
  }

  /** Deleting twice is deleting once, and either leaves the instance as the constructor made it. */
  lemma DeleteInformationIdempotent(c: Client)
    ensures DeleteInformation(DeleteInformation(c)) == DeleteInformation(c)
    ensures DeleteInformation(c)
      == New(c.config.crowdUrl, c.config.applicationName, c.config.applicationPassword)
  {
  }

  // ---------------------------------------------------------------------
  // The request
  // ---------------------------------------------------------------------

  /**
   * What `Authenticate` hands to the library: the URL string given to
   * `WebRequest.Create`, the method, both media types and the Authorization
   * header set on the `HttpWebRequest`, and the one value of the JSON body.
   */
  datatype Request = Request(
    url: string,
    httpMethod: string,
    contentType: string,
    accept: string,
    authorization: string,
    passwordValue: string)

  /**
   * The string passed to `WebRequest.Create`: base URL, the fixed path and
   * query key, then the username exactly as given. The client percent-encodes
   * nothing; what `System.Uri` then makes of the string is library behaviour.
   */
  function RequestUrl(config: Config, username: string): (url: string)
    ensures |url| == |config.crowdUrl| + |AuthenticationPath| + |username|
    ensures url[..|config.crowdUrl|] == config.crowdUrl
    ensures url[|config.crowdUrl|..|config.crowdUrl| + |AuthenticationPath|] == AuthenticationPath
    ensures url[|config.crowdUrl| + |AuthenticationPath|..] == username
  {
    var url := config.crowdUrl + AuthenticationPath + username;
    assert url[|config.crowdUrl|..|config.crowdUrl| + |AuthenticationPath|] == AuthenticationPath;
    url
  }

  /** The string passed to `WebRequest.Create` ends with the username character for character, so the username can be read back from it. */
  lemma RequestUrlInjective(config: Config, u1: string, u2: string)
    requires RequestUrl(config, u1) == RequestUrl(config, u2)
    ensures u1 == u2
  {
    var n := |config.crowdUrl| + |AuthenticationPath|;
    assert u1 == RequestUrl(config, u1)[n..];
  }

  /** A username with a space and an '@' is put into the string passed to `WebRequest.Create` unescaped. */
  lemma RequestUrlNotPercentEncoded(config: Config)
    ensures var url := RequestUrl(config, "user name@x");
      url[|url| - 11..] == "user name@x" && ' ' in url && '%' !in url[|url| - 11..]
  {
    var url := RequestUrl(config, "user name@x");
    assert url[|url| - 11..][4] == ' ';
  }

  /** The Authorization header: "Basic " and the token of the application credentials. */
  function AuthorizationHeader(config: Config): (h: string)
    requires EncodableConfig(config)
    ensures |h| > |BasicPrefix| && h[..|BasicPrefix|] == BasicPrefix
    ensures h[|BasicPrefix|..] == Credentials.Encode(config.applicationName, config.applicationPassword)
  {
    var token := Credentials.Encode(config.applicationName, config.applicationPassword);
    assert (BasicPrefix + token)[|BasicPrefix|..] == token;
    BasicPrefix + token
  }

  /** A receiver decoding the header's token reads "applicationName:applicationPassword". */
  lemma AuthorizationHeaderDecodes(config: Config)
    requires EncodableConfig(config)
    ensures var h := AuthorizationHeader(config);
      Credentials.DecodeToken(h[|BasicPrefix|..])
        == Some(Credentials.UserPass(config.applicationName, config.applicationPassword))
  {
    Credentials.EncodeRoundTrip(config.applicationName, config.applicationPassword);
  }

  /**
   * The header text is passed to `string.Format` as a format string with no
   * arguments; it contains no brace, so the formatting leaves it unchanged.
   */
  lemma AuthorizationHeaderHasNoFormatItems(config: Config)
    requires EncodableConfig(config)
    ensures '{' !in AuthorizationHeader(config) && '}' !in AuthorizationHeader(config)
  {
    var token := Credentials.Encode(config.applicationName, config.applicationPassword);
    Credentials.TokenHasNoBraces(config.applicationName, config.applicationPassword);
    assert AuthorizationHeader(config) == BasicPrefix + token;
  }

  /** The request `Authenticate` builds before any I/O happens. */
  function BuildRequest(config: Config, username: string, password: string): (r: Request)
    requires EncodableConfig(config)
    ensures r.url == RequestUrl(config, username)
    ensures r.httpMethod == PostMethod
    ensures r.contentType == JsonMediaType && r.accept == JsonMediaType
    ensures r.authorization == AuthorizationHeader(config)
    ensures r.passwordValue == password
  {
    Request(
      RequestUrl(config, username),
      PostMethod,
      JsonMediaType,
      JsonMediaType,
      AuthorizationHeader(config),
      password)
  }

  /** The Authorization header depends on the application credentials only, never on the user's. */
  lemma AuthorizationIndependentOfUser(config: Config, u1: string, p1: string, u2: string, p2: string)
    requires EncodableConfig(config)
    ensures BuildRequest(config, u1, p1).authorization == BuildRequest(config, u2, p2).authorization
  {
  }

  // ---------------------------------------------------------------------
  // The round trip and the state update
  // ---------------------------------------------------------------------

  /** What the HTTP round trip did, as far as `Authenticate` can observe it. */
  datatype Outcome =
      /** `GetRequestStream` or writing the JSON body threw: outside the `try`. */
    | RequestStreamFails
      /** `GetResponse` threw; a `WebException` is caught, any other exception is not. */
    | ResponseFails(webException: bool)
      /** A response arrived; `body` is `None` when it is not a JSON object. */
    | Responded(status: int, body: Option<map<string, string>>)

  /** Why an exception left `Authenticate`. */
  datatype Fault =
    | RequestStreamFault
    | ResponseFault
    | MalformedBody
    | MissingKey(key: string)

  /** How a call of `Authenticate` ended: a returned boolean or an exception. */
  datatype Completion = Returned(authenticated: bool) | Threw(fault: Fault)

  /** One call of `Authenticate`: the request sent, the instance afterwards, and how the call ended. */
  datatype Attempt = Attempt(request: Request, after: Client, completion: Completion)

  /** A 200 response whose body is a JSON object holding both profile keys. */
  predicate IsProfileResponse(outcome: Outcome) {
    && outcome.Responded?
    && outcome.status == StatusOK
    && outcome.body.Some?
    && DisplayNameKey in outcome.body.value
    && EmailKey in outcome.body.value
  }

  /** A failure the `catch (WebException)` absorbs, or a response with a status other than 200. */
  predicate IsRejection(outcome: Outcome) {
    || outcome == ResponseFails(true)
    || (outcome.Responded? && outcome.status != StatusOK)
  }

  /** The exception that escapes for the remaining outcomes, if any. */
  function EscapingFault(outcome: Outcome): (f: Option<Fault>)
    ensures f.None? <==> IsProfileResponse(outcome) || IsRejection(outcome)
  {
    match outcome
    case RequestStreamFails => Some(RequestStreamFault)
    case ResponseFails(web) => if web then None else Some(ResponseFault)
    case Responded(status, body) =>
      if status != StatusOK then None
      else if body.None? then Some(MalformedBody)
      else if DisplayNameKey !in body.value then Some(MissingKey(DisplayNameKey))
      else if EmailKey !in body.value then Some(MissingKey(EmailKey))
      else None
  }

  /**
   * `Authenticate(username, password)` on instance `c`, given what the
   * network did. The display name is written before the email key is looked
   * up, so a 200 body without "email" leaves a new display name behind.
   */
  function Authenticate(c: Client, username: string, password: string, outcome: Outcome): (a: Attempt)
    requires EncodableConfig(c.config)
    ensures a.after.config == c.config
    ensures a.completion == Returned(true) <==> IsProfileResponse(outcome)
    ensures a.completion == Returned(false) <==> IsRejection(outcome)
    ensures a.completion.Threw? ==> Some(a.completion.fault) == EscapingFault(outcome)
    ensures IsProfileResponse(outcome) ==>
      && a.after.displayName == outcome.body.value[DisplayNameKey]
      && a.after.email == outcome.body.value[EmailKey]
    ensures !IsProfileResponse(outcome) ==> a.after.email == c.email
    ensures !IsProfileResponse(outcome) && a.after.displayName != c.displayName ==>
      && outcome.Responded? && outcome.status == StatusOK && outcome.body.Some?
      && DisplayNameKey in outcome.body.value && EmailKey !in outcome.body.value
      && a.after.displayName == outcome.body.value[DisplayNameKey]
      && a.completion == Threw(MissingKey(EmailKey))
  {
    var request := BuildRequest(c.config, username, password);
    match outcome
    case RequestStreamFails =>
      Attempt(request, c, Threw(RequestStreamFault))
    case ResponseFails(web) =>
      if web then Attempt(request, c, Returned(false))
      else Attempt(request, c, Threw(ResponseFault))
    case Responded(status, body) =>
      if status != StatusOK then
        Attempt(request, c, Returned(false))
      else if body.None? then
        Attempt(request, c, Threw(MalformedBody))
      else if DisplayNameKey !in body.value then
        Attempt(request, c, Threw(MissingKey(DisplayNameKey)))
      else
        var c1 := c.(displayName := body.value[DisplayNameKey]);
        if EmailKey !in body.value then
          Attempt(request, c1, Threw(MissingKey(EmailKey)))
        else
          Attempt(request, c1.(email := body.value[EmailKey]), Returned(true))
  }

  /** The request is built from configuration and username before any I/O, whatever the network does. */
  lemma AuthenticateSendsBuiltRequest(
    c: Client, username: string, password: string, o1: Outcome, o2: Outcome)
    requires EncodableConfig(c.config)
    ensures Authenticate(c, username, password, o1).request == BuildRequest(c.config, username, password)
    ensures Authenticate(c, username, password, o1).request == Authenticate(c, username, password, o2).request
  {
  }

  /** A call that returns false leaves both fields as they were. */
  lemma RejectionKeepsFields(c: Client, username: string, password: string, outcome: Outcome)
    requires EncodableConfig(c.config)
    requires IsRejection(outcome)
    ensures Authenticate(c, username, password, outcome).after == c
  {
  }

  /** Every call either returns a boolean or throws exactly the fault `EscapingFault` names. */
  lemma AuthenticateCompletes(c: Client, username: string, password: string, outcome: Outcome)
    requires EncodableConfig(c.config)
    ensures var a := Authenticate(c, username, password, outcome);
      (a.completion.Returned? <==> EscapingFault(outcome).None?)
      && (a.completion.Threw? ==> a.completion.fault == EscapingFault(outcome).value)
  {
  }

  /** A failure opening the request stream is not turned into `false`. */
  lemma RequestStreamFailurePropagates(c: Client, username: string, password: string)
    requires EncodableConfig(c.config)
    ensures Authenticate(c, username, password, RequestStreamFails)
      == Attempt(BuildRequest(c.config, username, password), c, Threw(RequestStreamFault))
  {
  }

  /**
   * A 200 body with "display-name" but without "email": the display name is
   * already overwritten when the lookup error propagates; the email keeps
   * its old value.
   */
  lemma MissingEmailPartialUpdate(c: Client, username: string, password: string, body: map<string, string>)
    requires EncodableConfig(c.config)
    requires DisplayNameKey in body && EmailKey !in body
    ensures var a := Authenticate(c, username, password, Responded(StatusOK, Some(body)));
      && a.completion == Threw(MissingKey(EmailKey))
      && a.after.displayName == body[DisplayNameKey]
      && a.after.email == c.email
  {
  }
}
