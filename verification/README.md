# dotNetCrowdAuthentication in Dafny

A model of the `dotNetCrowdAuthentication` client. The client authenticates a
user against the REST API of an Atlassian Crowd server with one HTTP POST. An
instance stores three configuration strings: the Crowd URL, the application
name and the application password. It also keeps two result fields,
`DisplayName` and `Email`.

The model has five modules:

- `Wrappers` (`wrappers.dfy`): the `Option` type.
- `Base64` (`base64.dfy`): the Base64 encoding of section 4 of RFC 4648 over
  octet sequences. This is what `Convert.ToBase64String` computes. The module
  also has a strict decoder, which accepts exactly the encoder's output, so the
  round trip can be proved in both directions.
- `Credentials` (`credentials.dfy`): the private static `Encode`. It joins
  name and password with `:`, which is the user-pass string of section 2 of
  RFC 7617. It then takes the ASCII octets and Base64-encodes them. The module
  also holds the receiving side (decode the token, split at the first colon).
- `CrowdClient` (`crowd_client.dfy`): the constructor, the private setters,
  `DeleteInformation`, the request that `Authenticate` builds (URL string, method,
  content type, accept, Authorization header, password value), and
  `Authenticate` itself. `Authenticate` is a pure transition from the instance
  and the observed network outcome to a new instance plus a completion.
- `Session` (`session.dfy`): a caller's sequence of calls on one instance,
  compared with an independent definition of what each field must hold.

The network round trip is an `Outcome` argument with three cases:

- `RequestStreamFails`: `GetRequestStream` or writing the body threw.
- `ResponseFails(webException)`: `GetResponse` threw.
- `Responded(status, body)`: a response arrived. The body is the parsed JSON
  object, or `None` if it is not one.

An exception leaving `Authenticate` is a `Threw(fault)` completion. It still
carries the instance state left behind. This is how the model shows the partial
update: `displayName` is assigned before the `"email"` lookup fails.

Behaviours of the code a caller may not expect:

- The username is appended unescaped to the URL string passed to
  `WebRequest.Create`. The client itself applies no percent-encoding
  (`CrowdClient.RequestUrlNotPercentEncoded`).
- Some failures are not turned into `false`:
  - A failure while opening or writing the request stream happens before the
    `try` block, so it propagates.
  - So does any exception from `GetResponse` other than `WebException`.
  - So does a missing key or a non-JSON body on a 200 response.
- A failed call does not clear the result fields. They change only on a 200
  response, or through `DeleteInformation`.
- The private setters of `DisplayName` and `Email` store the empty string
  whatever value is assigned. Nothing in the class calls them.

## Model

| member | source | states |
|---|---|---|
| `Base64.Encode` | dotNetCrowdAuthentication.cs:124 | the Base64 text of n octets has 4·⌈n/3⌉ characters |
| `Base64.EncodeShaped` | dotNetCrowdAuthentication.cs:124 | every encoding is whole 4-character quanta of alphabet characters, with "=" only in the last two positions, and a "=" in the second-to-last position followed by another |
| `Base64.DecodeEncode` | dotNetCrowdAuthentication.cs:124 | decoding the encoding of any octet sequence gives that sequence back |
| `Base64.EncodeDecode` | dotNetCrowdAuthentication.cs:124 | any text the strict decoder accepts is exactly the encoding of the octets it returns |
| `Base64.DecodeIffEncode` | dotNetCrowdAuthentication.cs:124 | Decode(s) == Some(bs) holds if and only if s == Encode(bs) |
| `Base64.EncodeInjective` | dotNetCrowdAuthentication.cs:124 | distinct octet sequences have distinct encodings |
| `Base64.TestVectors` | dotNetCrowdAuthentication.cs:124 | the encoder reproduces the test vectors of section 10 of RFC 4648 ("", "f" … "foobar") |
| `Credentials.AsciiBytes` | dotNetCrowdAuthentication.cs:124 | ASCII encoding of 7-bit text: one octet per character, equal to its code |
| `Credentials.AsciiString` | dotNetCrowdAuthentication.cs:124 | ASCII decoding succeeds exactly when every octet is below 128, and its result encodes back to the same octets |
| `Credentials.AsciiRoundTrip` | dotNetCrowdAuthentication.cs:124 | ASCII decoding inverts ASCII encoding on 7-bit text |
| `Credentials.UserPass` | dotNetCrowdAuthentication.cs:123 | the joined string is the name, one colon, then the password; it is 7-bit if both parts are |
| `Credentials.Encode` | dotNetCrowdAuthentication.cs:121-125 | the token is well-formed Base64: whole 4-character quanta, padding only at the end, 4·⌈(n+1)/3⌉ characters for a name and password of n characters together |
| `Credentials.EncodeDecodes` | dotNetCrowdAuthentication.cs:121-125 | the strict Base64 decoder maps the token back to the ASCII octets of "name:password" |
| `Credentials.EncodeRoundTrip` | dotNetCrowdAuthentication.cs:121-125 | decoding the token and reading it as ASCII gives back "name:password" |
| `Credentials.SplitUserPass` | dotNetCrowdAuthentication.cs:123 | splitting at the first colon succeeds exactly when there is a colon; the name part has no colon, and re-joining gives the input |
| `Credentials.SplitUserPassRoundTrip` | dotNetCrowdAuthentication.cs:123 | when the name has no colon, splitting the joined string gives back name and password |
| `Credentials.EncodeInjective` | dotNetCrowdAuthentication.cs:121-125 | for colon-free names, equal tokens imply equal names and equal passwords |
| `Credentials.ColonInNameIsAmbiguous` | dotNetCrowdAuthentication.cs:123 | with a colon in the name, two different credential pairs give the same token |
| `Credentials.TokenHasNoBraces` | dotNetCrowdAuthentication.cs:121-125 | the token holds only Base64 alphabet characters and "=", so it has no brace |
| `CrowdClient.New` | dotNetCrowdAuthentication.cs:20-25 | the constructor stores URL, application name and application password verbatim, and both result fields start empty |
| `CrowdClient.SetDisplayName` | dotNetCrowdAuthentication.cs:40-43 | the private setter empties the display name and changes nothing else |
| `CrowdClient.SetEmail` | dotNetCrowdAuthentication.cs:53-56 | the private setter empties the email and changes nothing else |
| `CrowdClient.SettersIgnoreValue` | dotNetCrowdAuthentication.cs:40-56 | the private setters give the same instance whatever value is assigned |
| `CrowdClient.DeleteInformation` | dotNetCrowdAuthentication.cs:113-117 | both result fields become empty; the configuration is untouched |
| `CrowdClient.DeleteInformationIdempotent` | dotNetCrowdAuthentication.cs:113-117 | deleting twice equals deleting once, and the result is the freshly constructed instance for the same configuration |
| `CrowdClient.RequestUrl` | dotNetCrowdAuthentication.cs:73 | the string passed to `WebRequest.Create` is the Crowd URL, then "/usermanagement/1/authentication?username=", then the username character for character |
| `CrowdClient.RequestUrlInjective` | dotNetCrowdAuthentication.cs:73 | for one configuration, different usernames give different strings passed to `WebRequest.Create` |
| `CrowdClient.RequestUrlNotPercentEncoded` | dotNetCrowdAuthentication.cs:73 | "user name@x" ends up in the string passed to `WebRequest.Create` with its space and '@' unescaped |
| `CrowdClient.AuthorizationHeader` | dotNetCrowdAuthentication.cs:77 | the header is "Basic " followed by exactly the `Encode` token of the application name and application password |
| `CrowdClient.AuthorizationHeaderDecodes` | dotNetCrowdAuthentication.cs:77 | a receiver that decodes the header's token reads "applicationName:applicationPassword" |
| `CrowdClient.AuthorizationHeaderHasNoFormatItems` | dotNetCrowdAuthentication.cs:77 | the header contains no brace, so passing it through `string.Format` leaves it unchanged |
| `CrowdClient.BuildRequest` | dotNetCrowdAuthentication.cs:73-86 | the request is a POST with JSON content type and accept, the URL string and header above, and the user's password as the body's value |
| `CrowdClient.AuthorizationIndependentOfUser` | dotNetCrowdAuthentication.cs:77 | the Authorization header is the same for every username and user password |
| `CrowdClient.EscapingFault` | dotNetCrowdAuthentication.cs:79-107 | an exception escapes exactly when the outcome is neither a profile response nor a rejection |
| `CrowdClient.Authenticate` | dotNetCrowdAuthentication.cs:71-108 | the configuration never changes. It returns true iff the outcome is 200 with both keys, and then the fields hold those values. It returns false iff a WebException was caught or the status is not 200. Every other outcome throws the escaping fault. The email changes only on success. The display name changes without success only when a 200 body lacks "email" |
| `CrowdClient.AuthenticateSendsBuiltRequest` | dotNetCrowdAuthentication.cs:73-86 | the request sent is the one built from configuration, username and password, and it is the same whatever the network does |
| `CrowdClient.RejectionKeepsFields` | dotNetCrowdAuthentication.cs:89-107 | a call that returns false leaves the instance unchanged |
| `CrowdClient.AuthenticateCompletes` | dotNetCrowdAuthentication.cs:79-107 | a call returns a boolean exactly when no fault escapes, and otherwise throws that fault |
| `CrowdClient.RequestStreamFailurePropagates` | dotNetCrowdAuthentication.cs:79-89 | a failure opening the request stream propagates as an exception with the instance unchanged |
| `CrowdClient.MissingEmailPartialUpdate` | dotNetCrowdAuthentication.cs:96-98 | on a 200 body without "email", the display name is already overwritten when the lookup error propagates, and the email keeps its old value |
| `Session.Run` | dotNetCrowdAuthentication.cs:20-31 | no sequence of calls changes the configuration stored by the constructor |
| `Session.StepWrites` | dotNetCrowdAuthentication.cs:92-117 | one call changes a field exactly as the write table says: delete writes "", a 200 body writes display-name, and email is written only with both keys |
| `Session.RunMatchesLatest` | dotNetCrowdAuthentication.cs:92-117 | after any sequence of calls, each field holds the value of its most recent write, or its initial value |
| `Session.RejectionAfterSuccessKeepsProfile` | dotNetCrowdAuthentication.cs:100-107 | a rejected call after a successful one keeps the profile the successful one stored |
| `Session.JaneScenario` | dotNetCrowdAuthentication.cs:71-108 | "jane" gets a 200 profile and then a 401: the first call returns true with "Jane Doe"/"jane@example.com", and the second returns false with both kept |

## Left out

- HTTP transport: `WebRequest.Create`, the request and response streams, TLS,
  DNS and timeouts are I/O. Their effect is the `Outcome` argument.
- `WebRequest.Create` rejecting a malformed URL, and the cast to
  `HttpWebRequest` failing for a non-HTTP scheme. Both are library behaviour
  before any I/O and would propagate. They are not modelled.
- .NET's rule that `GetResponse` throws `WebException` for non-2xx statuses.
  This is library behaviour; the outcome may be any status or any exception.
- Failures while reading a 200 response body (lines 94-96). They happen before
  either field is written. Whether they are caught depends on the exception
  class the library raises, so they are not a separate outcome.
- JSON: serialising `{ value = password }` (including escaping) is reduced to
  the `passwordValue` field. Parsing the response is a
  `map<string, string>`, and `.ToString()` is the identity. Null JSON values
  and their `NullReferenceException` are library behaviour.
- `Credentials.Encode`: requires name and password to be 7-bit ASCII. The
  replacement of other characters by `ASCIIEncoding.GetBytes` (each becomes the
  octet of '?') is not modelled. Through `CrowdClient.EncodableConfig` the same
  requirement applies to the application name and password of
  `CrowdClient.AuthorizationHeader`, `CrowdClient.BuildRequest`,
  `CrowdClient.Authenticate`, `Session.Step` and `Session.Run`. So an instance
  with a non-ASCII application name, which the code accepts and uses, is
  outside every lemma about `Authenticate`.
- `CrowdClient.RequestUrl`: `System.Uri`'s parsing of that string is library
  behaviour and is not modelled. It escapes spaces and other unsafe
  characters, and a '#' starts a fragment that is not sent. So the model's
  URL is not the request line on the wire, and `RequestUrlInjective` does not
  carry over to it ("a#b" and "a#c" send the same request line).
- C# `null` strings, which `string.Join` and `+` treat as empty, are not
  modelled; all strings are values.
- `string.Format` is not modelled in general. The header holds no brace
  (`CrowdClient.AuthorizationHeaderHasNoFormatItems`), so it is the identity
  here.
- Thread safety of the instance fields: the class has no concurrency logic.
