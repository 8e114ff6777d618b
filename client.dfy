/** `ShellClient` of src/shell-client.cpp as a class: the socket pointer
    becomes the flag `connected`, the output stream the log `output`, the
    static receive buffer an array. Each method follows its C++ function
    branch by branch and is proved against the functions of `Session`. */
module Client {
  import opened Strings
  import opened Words
  import opened Session

  class ShellClient {
    /** `m_socket != nullptr`. */
    var connected: bool
    /** `run`'s local `errorCounter`, held here so that one iteration of
        `run` can be a method of its own. */
    var errorCounter: nat
    /** Everything written to `m_output`, as message tags. */
    var output: seq<Message>
    /** `shell`'s static `char buf[256]`. */
    var buf: array<char>

    ghost predicate Valid()
      reads this
    {
      buf.Length == BUF_SIZE
    }

    function State(): Config
      reads this
    {
      Config(connected, errorCounter)
    }

    /** The constructor: no socket, nothing written; static storage starts
        zeroed. */
    constructor ()
      ensures Valid() && fresh(buf) && State() == Config(false, 0) && output == []
    {
      connected := false;
      errorCounter := 0;
      output := [];
      buf := new char[BUF_SIZE](_ => NUL);
    }

    /** The argument checks at the head of `telnet`, with the colon index
        as a `size_t` and the checks `delim + 1 >= size()`,
        `substr(delim + 1, size() - delim - 1)` and `substr(0, delim)` in
        64-bit arithmetic. */
    static method ParseTelnetArgs(params: seq<string>) returns (args: TelnetArgs)
      requires |params| >= 2 ==> Fits(params[1])
      ensures args == CheckTelnetArgs(params)
    {
      if |params| < 2 {
        return MissingParameter;
      }
      var sv := params[1];
      SplitArgumentInWords(sv);
      var delim := FindFirstOf(sv, ':');
      if Wrap(delim + 1) >= |sv| {
        assert SplitArgument(sv) == None;
        return MissingPort;
      }
      var portText := Substr(sv, Wrap(delim + 1), Wrap(Wrap(|sv| - delim) - 1));
      var addressText := Substr(sv, 0, delim);
      assert SplitArgument(sv) == Some((portText, addressText));
      var port := Stoul(portText);
      if port.None? {
        return BadPort;
      }
      return Target(addressText, port.value);
    }

    /** `telnet`: a failed argument check prints its messages and returns;
        an invalid address prints its message and the usage but goes on
        to connect to the address `make_address_v4` left behind. */
    method Telnet(params: seq<string>, env: Transport)
      requires |params| >= 2 ==> Fits(params[1])
      modifies this
      ensures buf == old(buf) && errorCounter == old(errorCounter)
      ensures var r := TelnetSpec(old(State()), params, env);
        connected == r.config.connected && output == old(output) + r.messages
    {
      var args := ParseTelnetArgs(params);
      match args
      case MissingParameter =>
        output := output + [NotEnoughParameters, Usage];
      case MissingPort =>
        output := output + [Usage];
      case BadPort =>
        output := output + [Usage];
      case Target(addressText, port) =>
        var valid := env.isAddress(addressText);
        if !valid {
          output := output + [AddressError, Usage];
        }
        // make_address_v4 leaves the default address behind when it fails
        var address := if valid then addressText else UNSPECIFIED_ADDRESS;
        connected := true;
        if !env.connects(Endpoint(address, port)) {
          connected := false;
          output := output + [ConnectError];
        }
    }

    /** `shell`: "exit" closes; otherwise the line is written, and on success
        one `read_some` fills at most 255 bytes of the buffer, which is then
        NUL-terminated and printed. A failed read throws, leaving the socket
        in place. */
    method Shell(command: string, env: Transport) returns (outcome: Outcome)
      requires Valid()
      modifies this, buf
      ensures Valid() && buf == old(buf) && errorCounter == old(errorCounter)
      ensures var r := ShellSpec(old(State()), command, env);
        connected == r.config.connected && output == old(output) + r.messages && outcome == r.outcome
      ensures command != "exit" && env.writeSucceeds && env.read.Received? ==>
        var data := ReadSome(env.read.chunk);
        buf[..|data|] == data && buf[|data|] == NUL && buf[|data| + 1..] == old(buf[|data| + 1..])
      ensures command == "exit" || !env.writeSucceeds || env.read.ReadFailed? ==>
        buf[..] == old(buf[..])
    {
      if command == "exit" {
        connected := false;
        return Continue;
      }
      if !env.writeSucceeds {
        connected := false;
        output := output + [WriteError];
        return Continue;
      }
      match env.read {
        case ReadFailed =>
          return Stop(ReadError);
        case Received(chunk) =>
          var data := ReadSome(chunk);
          var len := |data|;
          forall i | 0 <= i < len {
            buf[i] := data[i];
          }
          buf[len] := NUL;
          assert buf[..] == data + [NUL] + buf[len + 1..];
          CStringStopsAtNul(data, buf[len + 1..]);
          output := output + [Reply(CString(buf[..]))];
          return Continue;
      }
    }

    /** One iteration of `run`'s loop on the line `getline` produced. */
    method Step(line: string, env: Transport) returns (outcome: Outcome)
      requires Valid() && Fits(line)
      modifies this, buf
      ensures Valid() && buf == old(buf)
      ensures var r := StepSpec(old(State()), line, env);
        State() == r.config && output == old(output) + r.messages && outcome == r.outcome
      ensures var exchanged := old(connected) && line != [] && line != "exit"
                               && env.writeSucceeds && env.read.Received?;
        (exchanged ==>
           var data := ReadSome(env.read.chunk);
           buf[..|data|] == data && buf[|data|] == NUL && buf[|data| + 1..] == old(buf[|data| + 1..]))
        && (!exchanged ==> buf[..] == old(buf[..]))
    {
      if connected {
        output := output + [Prompt];
      }
      // trim_left works on its own copy: `line` keeps its leading whitespace
      var discarded := TrimLeft(line);
      if line == [] {
        return Continue;
      }
      if connected {
        outcome := Shell(line, env);
        return;
      }
      var tokens := Tokenize(line, DEFAULT_DELIMS);
      TokensWellFormed(line, DEFAULT_DELIMS);
      outcome := Continue;
      if tokens != [] {
        if tokens[0] == "telnet" {
          Telnet(tokens, env);
        } else {
          errorCounter := errorCounter + 1;
          output := output + [WrongCommand];
          if errorCounter >= WRONG_COMMAND_LIMIT {
            return Stop(TooManyWrongCommands);
          }
        }
      }
    }

    /** `run` fed the lines `lines`, the transport answering line `i` with
        `envs[i]`. It starts a fresh counter and stops at the first
        exception; `consumed` is the number of lines it read. The contents
        of the receive buffer are left unconstrained here: what each line
        leaves in it is stated by `Step`. */
    method Run(lines: seq<string>, envs: seq<Transport>) returns (outcome: Outcome, consumed: nat)
      requires Valid() && |envs| == |lines|
      requires forall i :: 0 <= i < |lines| ==> Fits(lines[i])
      modifies this, buf
      ensures Valid() && buf == old(buf)
      ensures var r := RunSpec(Config(old(connected), 0), lines, envs, |lines|);
        State() == r.config && output == old(output) + r.messages
        && outcome == r.outcome && consumed == r.consumed
    {
      // the loop only passes results of `Step` on: the body of `StepSpec`
      // is not needed here
      hide StepSpec;
      errorCounter := 0;
      ghost var c := Config(connected, 0);
      ghost var messages: seq<Message> := [];
      outcome, consumed := Continue, 0;
      while consumed < |lines| && outcome == Continue
        invariant Valid() && buf == old(buf) && consumed <= |lines|
        invariant output == old(output) + messages
        invariant RunSpec(c, lines, envs, consumed) == RunResult(State(), messages, outcome, consumed)
      {
        ghost var r := StepSpec(State(), lines[consumed], envs[consumed]);
        outcome := Step(lines[consumed], envs[consumed]);
        messages := messages + r.messages;
        consumed := consumed + 1;
      }
      if consumed < |lines| {
        RunStaysStopped(c, lines, envs, consumed, |lines|);
      }
    }
  }
}
