/** The behaviour of `ShellClient` (src/shell-client.cpp) as functions of
    an abstract state: whether a socket is open, and `run`'s error counter.
    The networking library is an oracle (`Transport`) that answers, for one
    input line, whether the address text parses, whether a connect succeeds,
    whether the write succeeds and what the read returns. What the shell
    writes to its output stream is recorded as a list of message tags. */
module Session {
  import opened Strings
  import opened Words

  /** Size of `shell`'s receive buffer; one byte is kept for the NUL. */
  const BUF_SIZE: nat := 256
  /** The limit of wrong commands before `run` throws "Exiting...". */
  const WRONG_COMMAND_LIMIT: nat := 3
  /** What `make_address_v4` yields when it fails: the default address. */
  const UNSPECIFIED_ADDRESS: string := "0.0.0.0"
  const NUL: char := '\0'

  /** The text the shell writes to its output, one tag per write. */
  datatype Message =
    | Prompt               // "#", before reading a line while connected
    | WrongCommand         // "Wrong command!"
    | NotEnoughParameters  // "Not enough parameters"
    | Usage                // "Usage: telnet <ip_address>:<port>"
    | AddressError         // the address parser's error message
    | ConnectError         // the connect error message
    | WriteError           // the write error message
    | Reply(text: string)  // the receive buffer, printed as a C string

  datatype Endpoint = Endpoint(address: string, port: nat)

  /** What one `read_some` call does: deliver the bytes waiting in the
      socket, or fail (it then throws). */
  datatype ReadResult = Received(chunk: string) | ReadFailed

  /** The answers of the networking library while one line is handled. */
  datatype Transport = Transport(
    isAddress: string -> bool,    // make_address_v4 accepts this text
    connects: Endpoint -> bool,   // connect to this endpoint succeeds
    writeSucceeds: bool,          // write of the whole line succeeds
    read: ReadResult)             // what read_some returns

  /** The two exceptions that leave `run`. */
  datatype Fatal = TooManyWrongCommands | ReadError

  datatype Outcome = Continue | Stop(reason: Fatal)

  /** `connected` stands for `m_socket != nullptr`. */
  datatype Config = Config(connected: bool, errorCounter: nat)

  datatype StepResult = StepResult(config: Config, messages: seq<Message>, outcome: Outcome)

  /** How `telnet` judges its parameters before it touches the network. */
  datatype TelnetArgs =
    | MissingParameter               // fewer than two tokens
    | MissingPort                    // the first colon is the last character
    | BadPort                        // stoul rejects the port text
    | Target(addressText: string, port: nat)

  function PortAndAddress(portText: string, addressText: string): TelnetArgs {
    match Stoul(portText)
    case None => BadPort
    case Some(port) => Target(addressText, port)
  }

  /** The port text and the address text `telnet` cuts its argument into,
      with the colon index as an `Option`; `None` when the port check fails.
      When there is no colon, `find_first_of` gives `npos` and `npos + 1`
      wraps to 0, so only an empty argument fails the port check, and both
      texts are then the whole argument. */
  function SplitArgument(arg: string): Option<(string, string)> {
    match IndexOf(arg, ':')
    case None => if arg == [] then None else Some((arg, arg))
    case Some(i) => if i + 1 == |arg| then None else Some((arg[i + 1..], arg[..i]))
  }

  /** The argument checks of `telnet`. */
  function CheckTelnetArgs(params: seq<string>): (r: TelnetArgs)
    ensures r.Target? ==> r.port <= ULONG_MAX
  {
    if |params| < 2 then MissingParameter
    else
      match SplitArgument(params[1])
      case None => MissingPort
      case Some((portText, addressText)) => PortAndAddress(portText, addressText)
  }

  /** The source's 64-bit index arithmetic agrees with `SplitArgument`:
      `delim + 1 >= size()` fails exactly when `SplitArgument` does, and the
      two `substr` calls cut out the same texts. */
  lemma SplitArgumentInWords(arg: string)
    requires Fits(arg)
    ensures var delim := FindFirstOf(arg, ':');
      SplitArgument(arg) ==
        if Wrap(delim + 1) >= |arg| then None
        else Some((Substr(arg, Wrap(delim + 1), Wrap(Wrap(|arg| - delim) - 1)), Substr(arg, 0, delim)))
  {
    IndexOfIsFirst(arg, ':');
    if ':' !in arg {
      assert FindFirstOf(arg, ':') == NPOS;
      assert Wrap(NPOS + 1) == 0;
      assert Wrap(|arg| - NPOS) == |arg| + 1;
      assert Wrap(|arg| + 1 - 1) == |arg|;
      assert Substr(arg, 0, |arg|) == arg;
      assert Substr(arg, 0, NPOS) == arg;
    } else {
      var i := FindFirstOf(arg, ':');
      assert IndexOf(arg, ':') == Some(i) && i < |arg|;
      assert Wrap(i + 1) == i + 1;
      assert Wrap(|arg| - i) == |arg| - i;
      if i + 1 < |arg| {
        assert Substr(arg, i + 1, |arg| - i - 1) == arg[i + 1..];
        assert Substr(arg, 0, i) == arg[..i];
      }
    }
  }

  /** `telnet`: argument failures print and leave everything as it was; an
      invalid address prints its message and the usage but does NOT return,
      so a connect to the unspecified address is still attempted. */
  function TelnetSpec(c: Config, params: seq<string>, env: Transport): StepResult {
    match CheckTelnetArgs(params)
    case MissingParameter => StepResult(c, [NotEnoughParameters, Usage], Continue)
    case MissingPort => StepResult(c, [Usage], Continue)
    case BadPort => StepResult(c, [Usage], Continue)
    case Target(text, port) =>
      var valid := env.isAddress(text);
      var warnings := if valid then [] else [AddressError, Usage];
      var up := env.connects(Endpoint(if valid then text else UNSPECIFIED_ADDRESS, port));
      StepResult(Config(up, c.errorCounter),
                 warnings + (if up then [] else [ConnectError]), Continue)
  }

  /** At most `BUF_SIZE - 1` of the bytes waiting in the socket: what one
      `read_some` into the buffer takes. */
  function ReadSome(chunk: string): (r: string)
    ensures |r| < BUF_SIZE
  {
    if |chunk| < BUF_SIZE then chunk else chunk[..BUF_SIZE - 1]
  }

  /** What `operator<<` on a `char` buffer prints: everything before the
      first NUL. */
  function CString(s: string): string {
    if s == [] || s[0] == NUL then [] else [s[0]] + CString(s[1..])
  }

  /** What is printed is the part of the buffer before its first NUL. */
  lemma {:induction false} CStringIsTextBeforeNul(s: string)
    ensures var r := CString(s); r <= s && NUL !in r && (|r| < |s| ==> s[|r|] == NUL)
  {
    if s != [] && s[0] != NUL {
      CStringIsTextBeforeNul(s[1..]);
    }
  }

  /** `shell`: the exact line "exit" closes silently; otherwise the line is
      written (as is, without any terminator); a failed write closes and
      prints the error; a read that fails throws out of `run`; a successful
      read prints the received bytes as a C string. */
  function ShellSpec(c: Config, command: string, env: Transport): StepResult {
    if command == "exit" then StepResult(Config(false, c.errorCounter), [], Continue)
    else if !env.writeSucceeds then StepResult(Config(false, c.errorCounter), [WriteError], Continue)
    else
      match env.read
      case ReadFailed => StepResult(c, [], Stop(ReadError))
      case Received(chunk) => StepResult(c, [Reply(CString(ReadSome(chunk)))], Continue)
  }

  /** A line that `run` answers with "Wrong command!": read while
      disconnected, non-empty, and with a first token other than "telnet". */
  predicate IsWrongCommand(c: Config, line: string) {
    !c.connected && line != [] && Tokens(line, DEFAULT_DELIMS) != []
    && Tokens(line, DEFAULT_DELIMS)[0] != "telnet"
  }

  /** One iteration of `run` on the line `getline` returned. `trim_left`
      works on a copy, so the line is used untrimmed. */
  function StepSpec(c: Config, line: string, env: Transport): StepResult {
    var prompt := if c.connected then [Prompt] else [];
    var r :=
      if line == [] then StepResult(c, [], Continue)
      else if c.connected then ShellSpec(c, line, env)
      else
        var tokens := Tokens(line, DEFAULT_DELIMS);
        if tokens == [] then StepResult(c, [], Continue)
        else if tokens[0] == "telnet" then TelnetSpec(c, tokens, env)
        else
          var n := c.errorCounter + 1;
          StepResult(Config(c.connected, n), [WrongCommand],
                     if n >= WRONG_COMMAND_LIMIT then Stop(TooManyWrongCommands) else Continue);
    StepResult(r.config, prompt + r.messages, r.outcome)
  }

  /** The state after `run` has read the first `n` of `lines` (the
      transport answering line `i` with `envs[i]`): the messages so far,
      whether an exception stopped it, and how many lines it consumed. */
  datatype RunResult = RunResult(config: Config, messages: seq<Message>, outcome: Outcome, consumed: nat)

  function RunSpec(c: Config, lines: seq<string>, envs: seq<Transport>, n: nat): RunResult
    requires |envs| == |lines| && n <= |lines|
  {
    if n == 0 then RunResult(c, [], Continue, 0)
    else
      var p := RunSpec(c, lines, envs, n - 1);
      if p.outcome.Stop? then p
      else
        var r := StepSpec(p.config, lines[n - 1], envs[n - 1]);
        RunResult(r.config, p.messages + r.messages, r.outcome, p.consumed + 1)
  }

  /** How many of the first `n` lines `run` consumed as wrong commands. */
  function WrongCommands(c: Config, lines: seq<string>, envs: seq<Transport>, n: nat): nat
    requires |envs| == |lines| && n <= |lines|
  {
    if n == 0 then 0
    else
      var p := RunSpec(c, lines, envs, n - 1);
      var w := WrongCommands(c, lines, envs, n - 1);
      if p.outcome.Stop? then w
      else w + (if IsWrongCommand(p.config, lines[n - 1]) then 1 else 0)
  }

  // ---------------------------------------------------------------------
  // One iteration

  /** The error counter moves by exactly one on a wrong command and not at
      all otherwise; the limit is fatal; no other line changes it. */
  lemma StepCountsWrongCommands(c: Config, line: string, env: Transport)
    ensures var r := StepSpec(c, line, env);
      r.config.errorCounter == c.errorCounter + (if IsWrongCommand(c, line) then 1 else 0)
      && (r.outcome == Stop(TooManyWrongCommands) <==>
            IsWrongCommand(c, line) && c.errorCounter + 1 >= WRONG_COMMAND_LIMIT)
      && (IsWrongCommand(c, line) ==>
            r.config.connected == c.connected && r.messages == [WrongCommand])
  {
  }

  /** An empty line changes nothing and prints nothing but the prompt. */
  lemma EmptyLineIsSkipped(c: Config, env: Transport)
    ensures StepSpec(c, "", env) ==
            StepResult(c, if c.connected then [Prompt] else [], Continue)
  {
  }

  /** While connected every non-empty line, "telnet ..." included, goes to
      `shell` untokenized. */
  lemma ConnectedLineIsPayload(c: Config, line: string, env: Transport)
    requires c.connected && line != []
    ensures var r := StepSpec(c, line, env); var s := ShellSpec(c, line, env);
      r.config == s.config && r.messages == [Prompt] + s.messages && r.outcome == s.outcome
      && !IsWrongCommand(c, line)
  {
  }

  /** "exit" while disconnected is not special: it is a wrong command. */
  lemma ExitWhileDisconnectedIsWrongCommand(n: nat, env: Transport)
    ensures StepSpec(Config(false, n), "exit", env) ==
            StepResult(Config(false, n + 1), [WrongCommand],
                       if n + 1 >= WRONG_COMMAND_LIMIT then Stop(TooManyWrongCommands) else Continue)
  {
    assert Delimiterless("exit", DEFAULT_DELIMS);
    TokensOfWord("exit", DEFAULT_DELIMS);
    assert Tokens("exit", DEFAULT_DELIMS)[0] != "telnet";
  }

  /** A line holding only a carriage return, as a blank line of CRLF input
      reads, is whitespace but no delimiter: `trim_left` leaves it and it is
      one token, so while disconnected it is a wrong command. */
  lemma CarriageReturnIsWrongCommand(n: nat, env: Transport)
    ensures StepSpec(Config(false, n), "\r", env) ==
            StepResult(Config(false, n + 1), [WrongCommand],
                       if n + 1 >= WRONG_COMMAND_LIMIT then Stop(TooManyWrongCommands) else Continue)
  {
    assert Delimiterless("\r", DEFAULT_DELIMS);
    TokensOfWord("\r", DEFAULT_DELIMS);
  }

  /** A non-empty line of spaces and tabs while disconnected has no token
      and is ignored: it is not counted as a wrong command. */
  lemma BlankLineIsIgnored(n: nat, line: string, env: Transport)
    requires line != [] && forall k :: 0 <= k < |line| ==> line[k] in DEFAULT_DELIMS
    ensures StepSpec(Config(false, n), line, env) == StepResult(Config(false, n), [], Continue)
  {
    TokensOfDelimiters(line, DEFAULT_DELIMS);
  }

  /** `trim_left` leaves the caller's line alone: " exit" while connected is
      not the exit command but is written to the peer, so the connection
      survives exactly when that write succeeds. */
  lemma LeadingSpaceDefeatsExit(n: nat, env: Transport)
    ensures var r := StepSpec(Config(true, n), " exit", env);
      r.config.connected == env.writeSucceeds && r.config.errorCounter == n
  {
  }

  /** The failures `telnet` detects in its parameters print the usage line
      last, leave the connection state and the error counter as they were,
      and are not fatal. */
  lemma TelnetArgumentFailureKeepsState(c: Config, line: string, env: Transport)
    requires !c.connected && line != []
    requires Tokens(line, DEFAULT_DELIMS) != [] && Tokens(line, DEFAULT_DELIMS)[0] == "telnet"
    requires !CheckTelnetArgs(Tokens(line, DEFAULT_DELIMS)).Target?
    ensures var r := StepSpec(c, line, env);
      r.config == c && r.outcome == Continue && r.messages != []
      && r.messages[|r.messages| - 1] == Usage
      && (r.messages[0] == NotEnoughParameters <==> |Tokens(line, DEFAULT_DELIMS)| < 2)
  {
  }

  /** A well-formed "telnet" line connects exactly when the connect to the
      parsed endpoint succeeds; the error counter is untouched either way. */
  lemma TelnetTargetConnectsPerTransport(c: Config, params: seq<string>, env: Transport)
    requires CheckTelnetArgs(params).Target?
    ensures var t := CheckTelnetArgs(params); var r := TelnetSpec(c, params, env);
      r.config.errorCounter == c.errorCounter && r.outcome == Continue
      && (env.isAddress(t.addressText) ==>
            r.config.connected == env.connects(Endpoint(t.addressText, t.port))
            && (r.config.connected <==> r.messages == []))
      && (!env.isAddress(t.addressText) ==>
            r.config.connected == env.connects(Endpoint(UNSPECIFIED_ADDRESS, t.port))
            && r.messages[..2] == [AddressError, Usage])
  {
  }

  // ---------------------------------------------------------------------
  // The argument checks of telnet

  /** Address text and port written as "address:port", with a colon-free
      address, are read back as that endpoint. */
  lemma TelnetArgsRoundTrip(address: string, port: nat)
    requires ':' !in address && port <= ULONG_MAX
    ensures CheckTelnetArgs(["telnet", address + ":" + ToDecimal(port)]) == Target(address, port)
  {
    var arg := address + ":" + ToDecimal(port);
    assert arg[|address|] == ':';
    assert arg[..|address|] == address;
    IndexOfIsFirst(arg, ':');
    assert IndexOf(arg, ':') == Some(|address|);
    assert arg[|address| + 1..] == ToDecimal(port);
    StoulRoundTrip(port);
  }

  /** A colon-less argument is not rejected as missing its port: its leading
      digits are taken as the port and the whole argument as the address. */
  lemma ColonlessArgumentIsAccepted(digits: string, rest: string)
    requires digits != [] && AllDigits(digits) && DecimalValue(digits) <= ULONG_MAX
    requires rest == [] || !IsDigit(rest[0])
    requires ':' !in digits + rest
    ensures CheckTelnetArgs(["telnet", digits + rest]) == Target(digits + rest, DecimalValue(digits))
  {
    IndexOfIsFirst(digits + rest, ':');
    StoulOfDecimal(digits, rest);
  }

  /** "telnet" alone lacks its parameter. */
  lemma NoParameterExample()
    ensures CheckTelnetArgs(["telnet"]) == MissingParameter
  {
  }

  /** "1.2.3.4:" ends in its colon: the port is missing. */
  lemma EmptyPortExample()
    ensures CheckTelnetArgs(["telnet", "1.2.3.4:"]) == MissingPort
  {
    assert IndexOf("1.2.3.4:", ':') == Some(7);
  }

  /** "1.2.3.4:abc" has a port text that stoul rejects. */
  lemma NonNumericPortExample()
    ensures CheckTelnetArgs(["telnet", "1.2.3.4:abc"]) == BadPort
  {
    var arg := "1.2.3.4:abc";
    assert IndexOf(arg, ':') == Some(7);
    assert arg[8..] == "abc" && arg[..7] == "1.2.3.4";
    assert SplitArgument(arg) == Some(("abc", "1.2.3.4"));
    assert LeftTrimmed("abc") == "abc";
    StoulNeedsDigit("abc");
  }

  /** "1.2.3.4" has no colon and still passes, with port 1. */
  lemma ColonlessExample()
    ensures CheckTelnetArgs(["telnet", "1.2.3.4"]) == Target("1.2.3.4", 1)
  {
    assert "1" + ".2.3.4" == "1.2.3.4";
    assert DecimalValue("1") == 1;
    ColonlessArgumentIsAccepted("1", ".2.3.4");
  }

  // ---------------------------------------------------------------------
  // shell

  /** "exit" closes silently and a write error closes with its message;
      neither touches the error counter. */
  lemma ShellCloses(c: Config, command: string, env: Transport)
    requires command == "exit" || !env.writeSucceeds
    ensures var r := ShellSpec(c, command, env);
      r.config == Config(false, c.errorCounter) && r.outcome == Continue
      && r.messages == (if command == "exit" then [] else [WriteError])
  {
  }

  /** A successful exchange keeps the connection and prints at most 255
      bytes: those waiting in the socket, up to the first NUL. */
  lemma ReplyIsBoundedPrefix(c: Config, command: string, env: Transport)
    requires command != "exit" && env.writeSucceeds && env.read.Received?
    ensures var r := ShellSpec(c, command, env);
      r.config == c && r.outcome == Continue && |r.messages| == 1 && r.messages[0].Reply?
      && |r.messages[0].text| < BUF_SIZE && r.messages[0].text <= env.read.chunk
      && NUL !in r.messages[0].text
      && (|env.read.chunk| < BUF_SIZE && NUL !in env.read.chunk ==>
            r.messages[0].text == env.read.chunk)
  {
    var chunk := env.read.chunk;
    CStringIsTextBeforeNul(ReadSome(chunk));
    if |chunk| < BUF_SIZE && NUL !in chunk {
      CStringOfText(chunk);
    }
  }

  lemma {:induction false} CStringOfText(s: string)
    requires NUL !in s
    ensures CString(s) == s
  {
    if s != [] {
      CStringOfText(s[1..]);
    }
  }

  /** The NUL written after the received bytes ends what is printed: stale
      bytes further on in the buffer never show. */
  lemma {:induction false} CStringStopsAtNul(p: string, q: string)
    ensures CString(p + [NUL] + q) == CString(p)
  {
    if p != [] && p[0] != NUL {
      CStringStopsAtNul(p[1..], q);
      assert (p + [NUL] + q)[1..] == p[1..] + [NUL] + q;
    }
  }

  // ---------------------------------------------------------------------
  // The whole run

  /** The counter equals the number of wrong commands consumed: it is bumped
      once for each and never reset, not even by a successful connect. */
  lemma {:induction false} RunCountsWrongCommands(c: Config, lines: seq<string>, envs: seq<Transport>, n: nat)
    requires |envs| == |lines| && n <= |lines|
    ensures RunSpec(c, lines, envs, n).config.errorCounter == c.errorCounter + WrongCommands(c, lines, envs, n)
  {
    if n > 0 {
      RunCountsWrongCommands(c, lines, envs, n - 1);
      var p := RunSpec(c, lines, envs, n - 1);
      if !p.outcome.Stop? {
        StepCountsWrongCommands(p.config, lines[n - 1], envs[n - 1]);
      }
    }
  }

  /** Below the limit the counter stays below it until the wrong command
      that reaches it, which is fatal; a run never consumes more lines than
      it has read. */
  lemma {:induction false} RunCounterReachesLimitOnlyWhenFatal(c: Config, lines: seq<string>, envs: seq<Transport>, n: nat)
    requires |envs| == |lines| && n <= |lines| && c.errorCounter < WRONG_COMMAND_LIMIT
    ensures var r := RunSpec(c, lines, envs, n);
      r.consumed <= n && r.config.errorCounter <= WRONG_COMMAND_LIMIT
      && (r.outcome == Stop(TooManyWrongCommands) <==> r.config.errorCounter == WRONG_COMMAND_LIMIT)
  {
    if n > 0 {
      RunCounterReachesLimitOnlyWhenFatal(c, lines, envs, n - 1);
      var p := RunSpec(c, lines, envs, n - 1);
      if !p.outcome.Stop? {
        StepCountsWrongCommands(p.config, lines[n - 1], envs[n - 1]);
      }
    }
  }

  /** Starting from a fresh counter, `run` stops with "Exiting..." exactly
      when it has consumed its third wrong command, consecutive or not. */
  lemma ThirdWrongCommandIsFatal(lines: seq<string>, envs: seq<Transport>, connected: bool)
    requires |envs| == |lines|
    ensures var c := Config(connected, 0);
      WrongCommands(c, lines, envs, |lines|) <= WRONG_COMMAND_LIMIT
      && (RunSpec(c, lines, envs, |lines|).outcome == Stop(TooManyWrongCommands) <==>
            WrongCommands(c, lines, envs, |lines|) == WRONG_COMMAND_LIMIT)
  {
    RunCountsWrongCommands(Config(connected, 0), lines, envs, |lines|);
    RunCounterReachesLimitOnlyWhenFatal(Config(connected, 0), lines, envs, |lines|);
  }

  /** The line that stops a run with "Exiting..." is the last one consumed,
      and it is a wrong command. */
  lemma {:induction false} FatalLineIsWrongCommand(c: Config, lines: seq<string>, envs: seq<Transport>, n: nat)
    requires |envs| == |lines| && n <= |lines|
    requires RunSpec(c, lines, envs, n).outcome == Stop(TooManyWrongCommands)
    ensures var k := RunSpec(c, lines, envs, n).consumed;
      0 < k <= n && IsWrongCommand(RunSpec(c, lines, envs, k - 1).config, lines[k - 1])
  {
    var p := RunSpec(c, lines, envs, n - 1);
    if p.outcome.Stop? {
      FatalLineIsWrongCommand(c, lines, envs, n - 1);
    } else {
      StepCountsWrongCommands(p.config, lines[n - 1], envs[n - 1]);
      RunConsumesAllUnlessStopped(c, lines, envs, n - 1);
    }
  }

  /** Once an exception has stopped `run`, later lines change nothing. */
  lemma {:induction false} RunStaysStopped(c: Config, lines: seq<string>, envs: seq<Transport>, k: nat, n: nat)
    requires |envs| == |lines| && k <= n <= |lines|
    requires RunSpec(c, lines, envs, k).outcome.Stop?
    ensures RunSpec(c, lines, envs, n) == RunSpec(c, lines, envs, k)
  {
    if k < n {
      RunStaysStopped(c, lines, envs, k, n - 1);
    }
  }

  /** A run that was not stopped consumed every line it read. */
  lemma {:induction false} RunConsumesAllUnlessStopped(c: Config, lines: seq<string>, envs: seq<Transport>, n: nat)
    requires |envs| == |lines| && n <= |lines|
    ensures RunSpec(c, lines, envs, n).outcome == Continue ==> RunSpec(c, lines, envs, n).consumed == n
  {
    if n > 0 {
      RunConsumesAllUnlessStopped(c, lines, envs, n - 1);
    }
  }
}
