/**
 * A caller's sequence of calls on one instance. `Run` applies the calls in
 * order; `Latest` says, independently, what each result field must hold
 * afterwards: the value written by the most recent call that writes it,
 * or the initial value if none does. An exception from `Authenticate` is
 * taken to be caught by the caller, who keeps using the instance.
 */
module Session {
  import opened Wrappers
  import opened CrowdClient

  /** One call a caller makes on an instance. */
  datatype Call =
    | AuthenticateCall(username: string, password: string, outcome: Outcome)
    | DeleteInformationCall

  /** The two result fields of an instance. */
  datatype Field = DisplayNameField | EmailField

  function Get(c: Client, field: Field): string {
    match field
    case DisplayNameField => c.displayName
    case EmailField => c.email
  }

  /** The instance after one call. */
  function Step(c: Client, call: Call): (c': Client)
    requires EncodableConfig(c.config)
    ensures c'.config == c.config
  {
    match call
    case AuthenticateCall(username, password, outcome) => Authenticate(c, username, password, outcome).after
    case DeleteInformationCall => DeleteInformation(c)
  }

  /** The instance after the calls, in order. */
  function Run(c: Client, calls: seq<Call>): (c': Client)
    requires EncodableConfig(c.config)
    ensures c'.config == c.config
    decreases |calls|
  {
    if |calls| == 0 then c else Run(Step(c, calls[0]), calls[1..])
  }

  /**
   * What a call writes into a field, if anything: `DeleteInformation` writes
   * the empty string into both; `Authenticate` writes the display name once
   * a 200 body holding "display-name" has been read, and the email only when
   * the body holds both keys.
   */
  function Writes(call: Call, field: Field): Option<string> {
    match call
    case DeleteInformationCall => Some("")
    case AuthenticateCall(_, _, outcome) =>
      if !(outcome.Responded? && outcome.status == StatusOK && outcome.body.Some?) then None
      else
        var body := outcome.body.value;
        match field
        case DisplayNameField =>
          if DisplayNameKey in body then Some(body[DisplayNameKey]) else None
        case EmailField =>
          if DisplayNameKey in body && EmailKey in body then Some(body[EmailKey]) else None
  }

  /** The value of the most recent write to `field` in `calls`, or `initial` if there is none. */
  function Latest(initial: string, calls: seq<Call>, field: Field): string
    decreases |calls|
  {
    if |calls| == 0 then initial
    else match Writes(calls[|calls| - 1], field)
      case Some(v) => v
      case None => Latest(initial, calls[..|calls| - 1], field)
  }

  /** One call changes a field exactly as `Writes` says. */
  lemma StepWrites(c: Client, call: Call, field: Field)
    requires EncodableConfig(c.config)
    ensures Get(Step(c, call), field) == match Writes(call, field)
      case Some(v) => v
      case None => Get(c, field)
  {
  }

  /** Running `calls` and then one more call is that call applied to the run. */
  lemma {:induction false} RunSnoc(c: Client, calls: seq<Call>, call: Call)
    requires EncodableConfig(c.config)
    ensures Run(c, calls + [call]) == Step(Run(c, calls), call)
    decreases |calls|
  {
    if |calls| == 0 {
      assert calls + [call] == [call];
    } else {
      assert (calls + [call])[1..] == calls[1..] + [call];
      RunSnoc(Step(c, calls[0]), calls[1..], call);
    }
  }

  /** After any sequence of calls, each field holds the value of its most recent write. */
  lemma {:induction false} RunMatchesLatest(c: Client, calls: seq<Call>, field: Field)
    requires EncodableConfig(c.config)
    ensures Get(Run(c, calls), field) == Latest(Get(c, field), calls, field)
    decreases |calls|
  {
    if |calls| > 0 {
      var init, last := calls[..|calls| - 1], calls[|calls| - 1];
      assert calls == init + [last];
      RunSnoc(c, init, last);
      RunMatchesLatest(c, init, field);
      StepWrites(Run(c, init), last, field);
    }
  }

  /** A failed call after a successful one keeps the profile the successful one stored. */
  lemma RejectionAfterSuccessKeepsProfile(
    c: Client, u1: string, p1: string, o1: Outcome, u2: string, p2: string, o2: Outcome)
    requires EncodableConfig(c.config)
    requires IsProfileResponse(o1) && IsRejection(o2)
    ensures var c' := Run(c, [AuthenticateCall(u1, p1, o1), AuthenticateCall(u2, p2, o2)]);
      && c'.displayName == o1.body.value[DisplayNameKey]
      && c'.email == o1.body.value[EmailKey]
  {
    var calls := [AuthenticateCall(u1, p1, o1), AuthenticateCall(u2, p2, o2)];
    RunMatchesLatest(c, calls, DisplayNameField);
    RunMatchesLatest(c, calls, EmailField);
    assert calls[..1] == [AuthenticateCall(u1, p1, o1)];
  }

  /** A 200 profile for "jane", then a 401: the profile of the first call stays. */
  lemma JaneScenario(c: Client)
    requires EncodableConfig(c.config)
    ensures var body := map[DisplayNameKey := "Jane Doe", EmailKey := "jane@example.com"];
      var a := Authenticate(c, "jane", "pw1", Responded(200, Some(body)));
      var b := Authenticate(a.after, "jane", "wrong", Responded(401, None));
      && a.completion == Returned(true)
      && a.after.displayName == "Jane Doe" && a.after.email == "jane@example.com"
      && b.completion == Returned(false)
      && b.after.displayName == "Jane Doe" && b.after.email == "jane@example.com"
  {
    var body := map[DisplayNameKey := "Jane Doe", EmailKey := "jane@example.com"];
    assert IsProfileResponse(Responded(200, Some(body)));
  }
}
