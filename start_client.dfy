/**
 * The login window: the user-name check and the steps of "connect to server",
 * from the typed fields to the registration reply that opens the main window.
 */
module StartClient {
  import opened Wrappers
  import opened JavaText
  import opened Tags
  import opened Encode
  import opened Decode
  import DecodeRoundTrips

  predicate IdentStart(c: char) {
    c == '_' || 'a' <= c <= 'z' || 'A' <= c <= 'Z'
  }

  predicate IdentPart(c: char) {
    IdentStart(c) || '0' <= c <= '9'
  }

  /** `[_a-zA-Z][_a-zA-Z0-9]*` matched against the whole string. */
  predicate ValidName(s: string) {
    |s| > 0 && IdentStart(s[0]) && forall i :: 1 <= i < |s| ==> IdentPart(s[i])
  }

  const NameFailedText: string := "THIS NAME CONTAINS INVALID CHARACTER. PLEASE TRY AGAIN"
  const NameExistText: string := "THIS NAME IS ALREADY USED. PLEASE TRY AGAIN"
  const ServerNotStartText: string := "TURN ON SERVER BEFORE START"

  /** The three dialogs, or the main window opened for `name` on `peerPort` with the raw roster. */
  datatype Login =
    | NameFailed
    | NameExists
    | ServerNotStarted
    | LoggedIn(name: string, peerPort: int, serverPort: int, roster: string)

  /** The registration message written to the server (if any) and how the attempt ended. */
  datatype Attempt = Attempt(sent: Option<string>, outcome: Login)

  /** The dialog text each failure shows. */
  function Dialog(l: Login): (t: Option<string>)
    ensures t.None? <==> l.LoggedIn?
  {
    match l
    case NameFailed => Some(NameFailedText)
    case NameExists => Some(NameExistText)
    case ServerNotStarted => Some(ServerNotStartText)
    case LoggedIn(_, _, _, _) => None
  }

  /**
   * actionPerformed for the connect button. `draw` is rd.nextInt(1000); `resolves`
   * whether the server address is found; `connects` whether the socket opens; `reply`
   * the server's answer, None when reading it fails. The main window's Client throws
   * on a roster whose port does not parse, which lands in the same catch.
   */
  function Connect(nameField: string, ipField: string, portField: string, draw: int,
                   resolves: bool, connects: bool, reply: Option<string>): (a: Attempt)
    requires 0 <= draw < 1000
    // NAME_FAILED exactly when the trimmed name is no identifier or the trimmed address is empty
    ensures a.outcome == NameFailed <==> !ValidName(Trim(nameField)) || Trim(ipField) == ""
    ensures a.outcome == NameFailed ==> a.sent.None?
    // SESSION_DENY to a sent registration shows NAME_EXIST and opens nothing
    ensures a.sent.Some? && reply == Some(SessionDeny) ==> a.outcome == NameExists
    // a main window opens only for a reply that parses as a roster
    ensures a.outcome.LoggedIn? <==>
              ValidName(Trim(nameField)) && Trim(ipField) != "" && resolves && connects &&
              ParseInt(Trim(portField)).Some? && reply.Some? && reply.value != SessionDeny &&
              !AllUsers(reply.value).RosterFailure?
    ensures a.outcome.LoggedIn? ==>
              a.outcome.name == Trim(nameField) && 10000 <= a.outcome.peerPort <= 10999 &&
              Some(a.outcome.serverPort) == ParseInt(Trim(portField)) && Some(a.outcome.roster) == reply
  {
    var name := Trim(nameField);
    var ip := Trim(ipField);
    if !(ValidName(name) && ip != "") then Attempt(None, NameFailed)
    else
      var peerPort := 10000 + draw;
      var serverPort := ParseInt(Trim(portField));
      if !resolves || serverPort.None? || !connects then Attempt(None, ServerNotStarted)
      else
        var msg := CreateAccount(name, IntToString(peerPort));
        match reply
        case None => Attempt(Some(msg), ServerNotStarted)
        case Some(r) =>
          if r == SessionDeny then Attempt(Some(msg), NameExists)
          else if AllUsers(r).RosterFailure? then Attempt(Some(msg), ServerNotStarted)
          else Attempt(Some(msg), LoggedIn(name, peerPort, serverPort.value, r))
  }

  /** An identifier is free of tag delimiters and line terminators. */
  lemma ValidNameIsPlain(s: string)
    requires ValidName(s)
    ensures AllIn(s, NotAngle) && AllIn(s, Dot)
  {
    forall i | 0 <= i < |s|
      ensures InClass(s[i], NotAngle) && InClass(s[i], Dot)
    {
      if i > 0 {
        assert IdentPart(s[i]);
      }
    }
  }

  lemma DigitsArePlain(d: string)
    requires AllIn(d, Digit)
    ensures AllIn(d, NotAngle)
  {
    forall i | 0 <= i < |d|
      ensures InClass(d[i], NotAngle)
    {
      assert InClass(d[i], Digit);
    }
  }

  /**
   * Whatever the server answers, a message that goes out is the registration of the
   * trimmed name with a peer port in [10000, 10999], and the server's getUser reads
   * back exactly that name and port.
   */
  lemma RegistrationSent(nameField: string, ipField: string, portField: string, draw: int,
                         resolves: bool, connects: bool, reply: Option<string>)
    requires 0 <= draw < 1000
    requires Connect(nameField, ipField, portField, draw, resolves, connects, reply).sent.Some?
    ensures var msg := Connect(nameField, ipField, portField, draw, resolves, connects, reply).sent.value;
            exists port :: 10000 <= port <= 10999 &&
              msg == CreateAccount(Trim(nameField), IntToString(port)) &&
              GetUser(msg) == Some([Trim(nameField), IntToString(port)]) &&
              ParseInt(IntToString(port)) == Some(port)
  {
    var name := Trim(nameField);
    var port := 10000 + draw;
    var digits := IntToString(port);
    ValidNameIsPlain(name);
    DigitsArePlain(digits);
    DecodeRoundTrips.GetUserOfCreateAccount(name, digits);
    ParseIntToString(port);
  }
}
