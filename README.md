# shell-client, modelled in Dafny

`shell-client` is a small interactive console client. It reads commands line by line. While
disconnected it accepts `telnet <ip_address>:<port>`, which opens a TCP connection. While
connected every line is sent to the peer, one reply of at most 255 bytes is printed, and `exit`
closes the connection. Three wrong commands end the program with "Exiting...".

This project models `ShellClient` of `src/shell-client.cpp` in four modules:

- `Strings`: the helpers `trim_left`, `contains` and `tokenize`. They are written as the
  source's loops (`TrimLeft`, `Contains`, `Tokenize`) and proved against reference
  definitions (`LeftTrimmed`, sequence membership, `Tokens`).
- `Words`: the library pieces `telnet` relies on. These are 64-bit `size_t` arithmetic with
  wrap-around (`Wrap`), `find_first_of` with its `npos` answer, `substr` and `std::stoul`.
- `Session`: the behaviour as pure functions of an abstract state, a connection flag
  (`m_socket != nullptr`) and `run`'s error counter. The functions are `TelnetSpec`,
  `ShellSpec`, `StepSpec` (one iteration of `run`'s loop) and `RunSpec` (the first `n` lines).
  The lemmas about them are here too. The networking library is an oracle, `Transport`. For
  one line it answers whether the address text parses, whether a connect to an endpoint
  succeeds, whether the write succeeds, and what `read_some` returns. The output stream is a
  list of message tags.
- `Client`: the class `ShellClient`. Its fields are the connection flag, the error counter,
  the output log and the 256-byte receive buffer. Its methods `Telnet`, `Shell`, `Step` and
  `Run` follow the C++ functions branch by branch, and each is proved to produce the state
  and output that the `Session` functions describe.

The model keeps the behaviour of the code as written, including the points below. Where
src/shell-client.h and src/shell-client.cpp differ (the header declares `shell(std::string &)`,
the source file defines `shell(const std::string &)`), the model follows the definition in the
source file.

- `trim_left` takes its argument by value. The caller's line therefore keeps its leading
  whitespace, and " exit" while connected is sent to the peer rather than closing the
  connection; only a failed write then disconnects (`LeadingSpaceDefeatsExit`). A line of
  only a carriage return, as a blank line of CRLF input reads, is not skipped either: it is
  one token, and while disconnected a wrong command (`CarriageReturnIsWrongCommand`).
- An argument without a colon is not rejected. `find_first_of` gives `npos`, and `npos + 1`
  wraps to 0. The port text and the address text are then both the whole argument, so
  "1.2.3.4" connects to port 1 (`ColonlessExample`).
- When the address does not parse, `telnet` prints the error and the usage line but does not
  return. It then connects to the address `make_address_v4` left behind, 0.0.0.0.
- A line of blanks while disconnected has no token. It is ignored and not counted.
- The counter is never reset. The third wrong command overall is fatal, whether or not the
  three are consecutive.
- A failing `read_some` throws out of `run` with the socket still set. The reply is printed
  as a C string, so it stops at the first NUL among the bytes received.

Where the program's specification and the code disagree, the model follows the
code. In each case below the specification says one thing and the code does another:

| the specification says | the code does |
|---|---|
| a colon-less argument is rejected | the argument is accepted |
| an invalid address aborts the command | it only prints a message and goes on |
| a read error closes the connection | it throws out of `run` |
| a NUL sentinel is sent after each command | no sentinel is sent |
| replies time out | there is no timeout |
| a line of only `\r`, `\v` or `\f` (a blank line of CRLF input) is trimmed and skipped | `trim_left` changes nothing and `tokenize` splits only on space and tab, so the line is one token and, while disconnected, a wrong command |
| end of input exits | `getline` reads `std::cin`; at end of input it leaves the previous line in place, so that line is handled again on every later iteration |

## Model

| member | source | states |
|---|---|---|
| Strings.IsSpace | src/shell-client.cpp:10 | `std::isspace` in the "C" locale, which `trim_left` and `stoul` use: space, tab, line feed, vertical tab, form feed and carriage return |
| Strings.LeftTrimmedDropsLeadingSpace | src/shell-client.cpp:8-14 | what `trim_left`'s loop leaves is a suffix of its argument; everything it dropped is whitespace; the rest is empty or starts with a non-whitespace character |
| Strings.TrimLeft | src/shell-client.cpp:8-14 | the erase-first-character loop terminates and leaves exactly `LeftTrimmed` of its by-value copy; the caller's string is a value parameter and cannot change |
| Strings.Contains | src/shell-client.cpp:16-24 | true exactly when some character of the input equals `ch`, hence false for an empty input |
| Strings.Tokenize | src/shell-client.cpp:26-47 | the start/current index loop returns exactly `Tokens(input, delims)`, the maximal delimiter-free runs from left to right |
| Strings.WordIsMaximalRun | src/shell-client.cpp:30-41 | a token is a delimiter-free prefix that ends only at a delimiter or at the end of the input |
| Strings.TokensWellFormed | src/shell-client.cpp:30-45 | no token is empty, no token contains a delimiter, and none is longer than the input |
| Strings.TokensOfDelimiters | src/shell-client.cpp:26-47 | an empty or all-delimiter input yields no token |
| Strings.TokensOfWord | src/shell-client.cpp:42-45 | a non-empty delimiter-free input is exactly one token |
| Strings.TokensSplit | src/shell-client.cpp:32-40 | cutting at any delimiter cuts the token list, so runs of delimiters collapse and leading or trailing delimiters produce nothing |
| Words.Wrap | src/shell-client.cpp:113 | unsigned 64-bit wrap-around: the identity on `size_t` values, adds 2^64 to a value that went below zero and subtracts it from one that went past the top, so `npos + 1` is 0 |
| Words.IndexOf | src/shell-client.cpp:112 | a found index lies inside the string |
| Words.IndexOfIsFirst | src/shell-client.cpp:112 | `None` exactly when the character does not occur; otherwise the index of its first occurrence |
| Words.FindFirstOfIsFirst | src/shell-client.cpp:112 | for a string shorter than `npos`, `find_first_of` gives `npos` exactly when there is no colon, and the first colon's index otherwise |
| Words.Substr | src/shell-client.cpp:122 | `substr(pos, count)` is the prefix of the text from `pos` of length `count`, clipped at the end of the string |
| Words.DigitRunIsMaximal | src/shell-client.cpp:122 | the digits `stoul` reads are the longest run of decimal digits at the start of the text |
| Words.Stoul | src/shell-client.cpp:119-128 | a value `stoul` returns fits an `unsigned long` |
| Words.StoulNeedsDigit | src/shell-client.cpp:120-128 | text that, after leading whitespace, starts with neither a sign nor a digit makes `stoul` throw |
| Words.StoulOfDecimal | src/shell-client.cpp:122 | digits followed by a non-digit are read as the digits' value when it fits an `unsigned long` |
| Words.StoulRoundTrip | src/shell-client.cpp:122 | every `unsigned long` written in decimal is read back unchanged |
| Words.FindFirstOf | src/shell-client.cpp:112 | `find_first_of(":")` as a `size_t`: the first colon's index, or `npos`; what it means is stated by `FindFirstOfIsFirst` |
| Session.SplitArgument | src/shell-client.cpp:111-131 | the colon split with the `npos` case written out: the port text after the first colon and the address text before it; no colon gives the whole argument twice; a trailing first colon or an empty argument fails; tied to the 64-bit checks by `SplitArgumentInWords` |
| Session.PortAndAddress | src/shell-client.cpp:119-128 | the `stoul` try/catch: an exception is `BadPort`, otherwise the port and the address text go on |
| Session.CheckTelnetArgs | src/shell-client.cpp:105-128 | an accepted argument carries a port that fits an `unsigned long` |
| Session.SplitArgumentInWords | src/shell-client.cpp:111-131 | the 64-bit checks `delim + 1 >= size()`, `substr(delim + 1, size() - delim - 1)` and `substr(0, delim)` agree with the colon split: the check fails only on an empty argument or a trailing first colon, and without a colon both texts are the whole argument |
| Session.ReadSome | src/shell-client.cpp:165-166 | at most `sizeof(buf) - 1 = 255` bytes are taken by one read |
| Session.CString | src/shell-client.cpp:168 | the text `operator<<` prints from a `char` buffer; what it means is stated by `CStringIsTextBeforeNul`, `CStringOfText` and `CStringStopsAtNul` |
| Session.CStringIsTextBeforeNul | src/shell-client.cpp:168 | what is printed is a prefix of the buffer holding no NUL, ending right before the first NUL |
| Session.CStringOfText | src/shell-client.cpp:168 | text without a NUL is printed in full |
| Session.CStringStopsAtNul | src/shell-client.cpp:167-168 | the NUL written after the received bytes hides the stale bytes behind it |
| Session.StepCountsWrongCommands | src/shell-client.cpp:86-93 | a wrong command prints "Wrong command!" and raises the counter by exactly one without touching the connection; the counter moves on no other line; the step is fatal with "Exiting..." exactly when a wrong command brings the counter to 3 or more |
| Session.EmptyLineIsSkipped | src/shell-client.cpp:64-73 | an empty line changes nothing and prints only the prompt when connected |
| Session.ConnectedLineIsPayload | src/shell-client.cpp:74-78 | while connected every non-empty line, `telnet ...` included, goes to `shell` untokenized after the prompt and is never a wrong command |
| Session.ExitWhileDisconnectedIsWrongCommand | src/shell-client.cpp:79-93 | "exit" while disconnected is a wrong command |
| Session.BlankLineIsIgnored | src/shell-client.cpp:79-80 | a non-empty line of spaces and tabs while disconnected changes nothing and prints nothing |
| Session.CarriageReturnIsWrongCommand | src/shell-client.cpp:69-93 | a line of only a carriage return while disconnected is not skipped: it is one token, prints "Wrong command!" and raises the counter by one, fatally from 3 on |
| Session.LeadingSpaceDefeatsExit | src/shell-client.cpp:69-76 | because `trim_left` works on a copy, " exit" while connected is not the exit command: it is written to the peer, and the client stays connected exactly when that write succeeds; the counter is untouched |
| Session.TelnetArgumentFailureKeepsState | src/shell-client.cpp:105-128 | a missing parameter, a trailing colon or a rejected port prints the usage line last, leaves the connection and the counter as they were and is not fatal; "Not enough parameters" comes first exactly when there are fewer than two tokens |
| Session.TelnetTargetConnectsPerTransport | src/shell-client.cpp:130-145 | with accepted arguments the shell is connected afterwards exactly when the connect succeeds; a valid address connects to itself and prints nothing unless the connect fails; an invalid one prints its error and the usage and still connects, to 0.0.0.0; the counter is untouched |
| Session.TelnetArgsRoundTrip | src/shell-client.cpp:111-131 | "address:port" with a colon-free address is parsed back to that address and port |
| Session.ColonlessArgumentIsAccepted | src/shell-client.cpp:112-122 | an argument without a colon passes the colon check; when it starts with digits that fit an `unsigned long`, those digits are the port and the whole argument is the address |
| Session.NoParameterExample | src/shell-client.cpp:105-110 | "telnet" alone lacks its parameter |
| Session.EmptyPortExample | src/shell-client.cpp:112-117 | "1.2.3.4:" fails the port check |
| Session.NonNumericPortExample | src/shell-client.cpp:119-128 | "1.2.3.4:abc" has a port that `stoul` rejects |
| Session.ColonlessExample | src/shell-client.cpp:112-122 | "1.2.3.4" is accepted with address "1.2.3.4" and port 1 |
| Session.ShellCloses | src/shell-client.cpp:150-175 | the exact line "exit" disconnects silently, and a failed write disconnects and prints the error; neither touches the counter or stops `run` |
| Session.ReplyIsBoundedPrefix | src/shell-client.cpp:159-168 | a successful exchange stays connected and prints one reply of at most 255 bytes; the reply is a NUL-free prefix of the bytes `read_some` took from the socket, and all of them when they are fewer than 256 and NUL-free |
| Session.TelnetSpec | src/shell-client.cpp:99-146 | the effect of `telnet` on the state and the output; stated by `TelnetArgumentFailureKeepsState` and `TelnetTargetConnectsPerTransport`, and implemented by `Client.ShellClient.Telnet` |
| Session.ShellSpec | src/shell-client.cpp:148-176 | the effect of `shell`; stated by `ShellCloses` and `ReplyIsBoundedPrefix`, and implemented by `Client.ShellClient.Shell` |
| Session.IsWrongCommand | src/shell-client.cpp:79-88 | the condition for "Wrong command!": disconnected, a non-empty line, at least one token, and a first token other than "telnet"; its effect is stated by `StepCountsWrongCommands` |
| Session.StepSpec | src/shell-client.cpp:62-96 | the effect of one iteration of `run`'s loop; stated by `StepCountsWrongCommands`, `EmptyLineIsSkipped`, `ConnectedLineIsPayload`, `BlankLineIsIgnored` and the other one-line lemmas, and implemented by `Client.ShellClient.Step` |
| Session.RunSpec | src/shell-client.cpp:58-97 | the state, output, outcome and line count after the first `n` lines; stated by the `Run*` lemmas and `ThirdWrongCommandIsFatal`, and implemented by `Client.ShellClient.Run` |
| Session.RunCountsWrongCommands | src/shell-client.cpp:60-89 | after any number of lines the counter equals the number of wrong commands consumed; nothing resets it |
| Session.RunCounterReachesLimitOnlyWhenFatal | src/shell-client.cpp:88-93 | starting below the limit, the counter never exceeds 3 and equals 3 exactly when the run stopped with "Exiting..." |
| Session.ThirdWrongCommandIsFatal | src/shell-client.cpp:58-96 | from a fresh counter, `run` stops with "Exiting..." exactly when it has consumed three wrong commands, consecutive or not |
| Session.FatalLineIsWrongCommand | src/shell-client.cpp:86-93 | the line that stops the run with "Exiting..." is the last one consumed and is a wrong command |
| Session.RunStaysStopped | src/shell-client.cpp:92 | once an exception has left `run`, no later line changes anything |
| Session.RunConsumesAllUnlessStopped | src/shell-client.cpp:62-96 | a run that has not stopped has consumed every line read |
| Client.ShellClient.constructor | src/shell-client.cpp:49-51 | a new client has no socket, no output and a buffer of 256 bytes |
| Client.ShellClient.ParseTelnetArgs | src/shell-client.cpp:105-128 | the argument checks, in 64-bit index arithmetic, give exactly `CheckTelnetArgs` |
| Client.ShellClient.Telnet | src/shell-client.cpp:99-146 | the new connection flag and the output appended are those of `TelnetSpec`, and the counter is unchanged |
| Client.ShellClient.Shell | src/shell-client.cpp:148-176 | the new connection flag, the output appended and the outcome are those of `ShellSpec`; after a successful read the buffer holds the bytes received, then a NUL, and is unchanged beyond |
| Client.ShellClient.Step | src/shell-client.cpp:62-96 | one iteration yields the state, output and outcome of `StepSpec` on the untrimmed line; after an exchange with the peer the buffer holds the bytes received, then a NUL, and is unchanged beyond; on every other line it is unchanged |
| Client.ShellClient.Run | src/shell-client.cpp:58-97 | from a fresh counter the loop yields the state, output, outcome and line count of `RunSpec` over all lines |

## Left out

- Boost.Asio (`io_context`, socket creation, `connect`, `write`, `read_some`): an oracle in `Transport`. `write` sending only part of the line is not modelled.
- `make_address_v4`'s parser: an uninterpreted predicate on the address text; the error message texts are tags.
- `tcp::endpoint` narrows the `unsigned long` port to a 16-bit port; the model hands the full value to the oracle.
- Console I/O: `std::getline(std::cin, ...)` becomes a finite list of lines, and the exact output text becomes message tags.
- End of input is not modelled. There `getline` fails without clearing `command`, so the last line is handled again on every later iteration: a last "foo" read while disconnected is counted until "Exiting...", and an input ending in a line break spins on an empty line, printing `#` each time while connected.
- The bytes `read_some` does not take stay in the socket: those beyond 255, and those arriving later. They are printed as the reply to the next line, because there is no framing. The model's `read` answer is independent for each line and does not carry them over.
- `ReadResult.Received` allows an empty chunk, which prints an empty reply. A successful `read_some` into a non-empty buffer takes at least one byte, so the source never does this; no proved property depends on it.
- One Dafny `char` stands for one C++ `char` byte; no character decoding is modelled, so the 255 bytes of a reply are 255 `char`s.
- `new` / `delete` of the socket and the destructor: only their effect on `m_socket != nullptr` is kept.
- Words.Stoul: its contract states only the range; its meaning is stated by `StoulNeedsDigit`, `StoulOfDecimal` and `StoulRoundTrip`. Base prefixes and locales are not modelled: base 10 in the "C" locale.
- Session.CheckTelnetArgs: its contract states only the port range; its meaning is stated by `SplitArgumentInWords`, `ColonlessArgumentIsAccepted`, `TelnetArgsRoundTrip` and the examples.
- Client.ShellClient.Run: holds `run`'s local counter in the field `errorCounter`, reset at the start, so that one iteration can be a method of its own.
- src/main.cpp (the entry point that turns an exception into exit code 1) is not part of this model.
- src/shell-client.h declares `close_socket`, `dispatch_command`, `parse_endpoint`, `m_errorCounter` and `m_buf`. None of them is defined or used, so none is modelled.
