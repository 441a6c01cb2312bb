# Broadcast: command-line parsing, modelled and verified in Dafny

Broadcast is a small Windows utility that checks whether UDP broadcast
reaches the local network. It either sends an increasing counter to a
broadcast address or receives and prints such counters. Its only logic that
is not socket plumbing is `parseCommandLine`, the parser that turns the
command line into four settings:

- the port (`-pPPPP`, default 40061),
- the multicast TTL (`-tTTTT`, default 1),
- receiver mode (`-r`, otherwise sender),
- an override broadcast address (`-aAAAA`, default none).

`main` sets the defaults and then calls the parser. The parser writes into
`main`'s variables through pointers and into its 256-character address
buffer.

The project has four modules:

- `CRuntime` (`c_runtime.dfy`) models the C library routines the parser
  calls. `StrToL` is `strtol(s, NULL, 10)` as section 7.22.1.4 of ISO C11
  defines it. It skips leading white space, takes an optional sign and then
  the longest run of digits. It returns 0 when there are no digits and
  saturates at the 32-bit `long` bounds of the Windows target. `StrCpyS` is
  `strcpy_s` as section K.3.7.1.3 of ISO C11 defines it. `CString` reads a
  NUL-terminated buffer as a string.
- `CommandLine` (`command_line.dfy`) is the parser as values. `Step` is one
  pass of the loop body and `Run` folds it over `argv[1..argc-1]`. `Parse`
  first resets the receiver flag. `Expected` describes the result a second
  way, with no loop: each output comes from the last argument that carries
  its letter (`LastWith`).
- `ParserProperties` (`parser_properties.dfy`) proves the parser's
  properties about these functions.
- `Broadcast` (`broadcast.dfy`) holds the imperative model. Class `Settings`
  holds `main`'s locals: three integers and the address buffer as an
  `array<char>`. Its `ParseCommandLine` method is the source's `for` loop,
  with invariants that tie the state after `argv[1..i)` to `Run`.

An argument is a `seq<char>`. Its letter is its second character
(`FlagOf`). For a one-character argument that second character is the
terminating NUL, so such an argument falls into the `default` branch. The
operand is the text from index 2 on (`Operand`).

The program describes its command line twice: in the header comment at
Broadcast/Broadcast/Broadcast.cpp:18-25 and in `displayUsage` at
Broadcast/Broadcast/Broadcast.cpp:199-209. The code differs from both in a
few places. This model follows the code:

- The first character of an argument is never checked, so `xp80` works like
  `-p80`.
- `-?` prints usage and parsing goes on.
- The header writes the address option as `[-AAAA]`, with no letter, and
  `displayUsage` writes the TTL option as `[tTTTT]`, with no dash. The code
  needs the letter `a` in second position, so `-192.168.1.255` is reported
  as the unknown letter `1`. Written as `displayUsage` shows it, `t5` is
  reported as the unknown letter `5`: the letter `t` must come second.
- The address operand is copied as text with no check that it is a dotted
  quad.
- An address operand too long for the buffer is a `strcpy_s` runtime
  constraint violation, not a silent truncation.

## Model

| member | source | states |
|---|---|---|
| `Broadcast.Settings.ParseCommandLine` | Broadcast/Broadcast/Broadcast.cpp:167-197 | After the call, port, TTL, receiver flag and the string in the address buffer equal what `Parse` gives from the values before the call. The receiver flag is reset to 0 first, and `argv[0]` is skipped. The result is false exactly when `strcpy_s` hit an address operand too long for the buffer. A command line with no `a` argument leaves the buffer untouched, byte for byte. |
| `Broadcast.Settings.constructor` | Broadcast/Broadcast/Broadcast.cpp:48-51 | `main`'s starting values: port 40061, TTL 1, and a fresh zero-filled 256-character address buffer that holds the empty string. |
| `Broadcast.ConfigureFromCommandLine` | Broadcast/Broadcast/Broadcast.cpp:48-53 | `main`'s declarations followed by the parse. Parsing completes exactly when every address operand fits in 256 characters. Each setting then equals `Expected`: it comes from the last argument with its letter, or it keeps `main`'s default. |
| `CRuntime.StrToL` | Broadcast/Broadcast/Broadcast.cpp:181 | The result of `strtol(s, NULL, 10)` always lies in the 32-bit `long` range. What it reads is stated by `StrToLOfSpelling`, `StrToLSkipsSpace` and `StrToLWithoutDigits`. |
| `CommandLine.Step` | Broadcast/Broadcast/Broadcast.cpp:175-195 | One pass of the loop body fails exactly when the letter is `a` and the operand does not fit in the buffer with its NUL. Otherwise it changes only the output named by the letter: `r` sets the receiver flag to 1, and an `a` operand stored in the buffer fits it. Any other letter changes nothing. |
| `CommandLine.Run` | Broadcast/Broadcast/Broadcast.cpp:173-196 | Over any argument list, the receiver flag keeps its value or becomes 1. A completed run leaves the address unchanged or holding an operand that fits the buffer. An aborted run leaves the buffer holding "". `RunMatchesLastOccurrence` ties the run to `Expected`. |
| `CommandLine.Parse` | Broadcast/Broadcast/Broadcast.cpp:172-196 | The receiver flag ends as 0 or 1, because it is reset before the loop. With no argument after the program name, only that reset happens. |
| `CommandLine.Expected` | Broadcast/Broadcast/Broadcast.cpp:173-196 | The description without a loop. A port, TTL or address with no argument carrying its letter keeps its input value. An address that changes is the operand of some `a` argument. The receiver flag is 1 exactly when it was 1 or some argument has `r`. |
| `CommandLine.LastWith` | Broadcast/Broadcast/Broadcast.cpp:173-196 | The result is None exactly when no argument has the letter. Otherwise it is an argument with that letter, and no later argument has the letter. |
| `ParserProperties.RunMatchesLastOccurrence` | Broadcast/Broadcast/Broadcast.cpp:172-196 | When every address operand fits, the loop gives the same result as `Expected`. Port and TTL are `strtol` of the last `p` or `t` operand and otherwise keep their input values. The receiver flag becomes 1 if some argument has `r`. The address is the last `a` operand and otherwise stays unchanged. |
| `ParserProperties.AbortsIffOperandTooLong` | Broadcast/Broadcast/Broadcast.cpp:177-179 | The run stops early exactly when some `a` operand has at least as many characters as the buffer. |
| `ParserProperties.AbortIsFinal` | Broadcast/Broadcast/Broadcast.cpp:177-179 | After the `strcpy_s` violation, later arguments change nothing. |
| `ParserProperties.InertArgument` | Broadcast/Broadcast/Broadcast.cpp:189-195 | An argument whose letter is `?` or not recognised can be removed from any position without changing the outcome. |
| `ParserProperties.RunIgnoresFirstCharacters` | Broadcast/Broadcast/Broadcast.cpp:173-175 | Two argument lists that agree from each argument's second character on give the same outcome. |
| `ParserProperties.ParseReadsFromSecondCharacter` | Broadcast/Broadcast/Broadcast.cpp:173-175 | `argv[0]` is never interpreted, and the first character of the other arguments is never checked. |
| `ParserProperties.LastWithSwap` | Broadcast/Broadcast/Broadcast.cpp:173-196 | Swapping two neighbouring arguments with different letters does not change the last argument that carries any given letter. |
| `ParserProperties.ReorderDistinctFlags` | Broadcast/Broadcast/Broadcast.cpp:173-196 | When every address operand fits, two neighbouring arguments with different letters can trade places without changing the result. |
| `ParserProperties.MainDefaults` | Broadcast/Broadcast/Broadcast.cpp:48-53 | With `main`'s defaults, parsing completes when every address operand fits. The port is 40061 with no `p` argument, the TTL is 1 with no `t` argument, and the address is empty with no `a` argument. The receiver flag is 0 or 1, and it is 1 exactly when some argument has `r`. |
| `ParserProperties.NumericOperandUnchecked` | Broadcast/Broadcast/Broadcast.cpp:180-188 | Any value a `long` holds, written in decimal after `-p` or `-t`, becomes the port or TTL as written, negative or above 65535 included, and nothing else changes. |
| `ParserProperties.NonNumericOperandIsZero` | Broadcast/Broadcast/Broadcast.cpp:180-188 | A `p` or `t` operand in which no digit follows the leading white space and the optional sign sets the value to 0. Examples are `-pabc`, `-pa1`, `-t-x5` and a bare `-t`. Nothing else changes. |
| `ParserProperties.TtlScenario` | Broadcast/Broadcast/Broadcast.cpp:186-188 | `-t5` with `main`'s defaults gives TTL 5, and every other setting stays at its default. |
| `ParserProperties.UnknownFlagScenario` | Broadcast/Broadcast/Broadcast.cpp:192-194 | `-z` with `main`'s defaults leaves every setting at its default. |
| `ParserProperties.FirstCharacterScenario` | Broadcast/Broadcast/Broadcast.cpp:173-182 | `xp80` sets port 80, just as `-p80` does. |
| `ParserProperties.NonNumericScenario` | Broadcast/Broadcast/Broadcast.cpp:180-182 | `-pabc` sets port 0. |
| `ParserProperties.SignWithoutDigitsScenario` | Broadcast/Broadcast/Broadcast.cpp:186-188 | `-t-x5` sets TTL 0: the digit after the sign's non-digit is never read. |
| `CRuntime.StrToLOfSpelling` | Broadcast/Broadcast/Broadcast.cpp:181 | `strtol` reads back the decimal spelling of any integer, saturated to the `long` range. It stops at the first non-digit after the digits. |
| `CRuntime.StrToLSkipsSpace` | Broadcast/Broadcast/Broadcast.cpp:181 | Leading white space does not change what `strtol` returns. |
| `CRuntime.StrToLWithoutDigits` | Broadcast/Broadcast/Broadcast.cpp:187 | When no digit follows the leading white space and the optional sign, the subject sequence is empty and the result is 0, whatever digits come later. |
| `CRuntime.DecimalRoundTrip` | Broadcast/Broadcast/Broadcast.cpp:181 | The value of the decimal spelling of `n` is `n`. |
| `CRuntime.StrCpyS` | Broadcast/Broadcast/Broadcast.cpp:178 | The constraint violation happens exactly when the operand does not fit with its NUL. In that case the first character becomes NUL when the buffer has room. Otherwise the operand and a NUL go at the front and the rest of the buffer is left alone. In both cases the string in the buffer afterwards is stated. |
| `CRuntime.CString` | Broadcast/Broadcast/Broadcast.cpp:51 | The string in a buffer is the longest NUL-free prefix of the buffer. |

## Left out

- Socket setup in `main` is not modelled: `socket`, `setsockopt` for `SO_BROADCAST` and `IP_MULTICAST_TTL`, `bind`, `htonl`/`htons` and the exit-on-error paths. These are operating-system calls with no logic of the program's own.
- `broadcast` and `receive` are not modelled. They are endless loops around `sendto`, `recvfrom`, `Sleep` and `printf`. `inet_addr` and `inet_ntoa` are foreign library calls.
- `initWinSock` is not modelled. It is a Winsock-only wrapper around `WSAStartup`.
- `displayUsage` and the "Unknown command line argument" diagnostic are not modelled. They only write to the console. The model records that these branches leave every output unchanged.
- The raw native-byte-order datagram payload is not modelled. It is a memory reinterpretation done by the socket layer.
- `CRuntime.StrToL` does not model `errno` (`ERANGE` on overflow) or the end pointer, because the source passes `NULL` and never reads `errno`. It uses only the "C" locale, because the program never calls `setlocale`.
- `CRuntime.StrCpyS` does not model the `RSIZE_MAX` limit, null pointers or overlapping arguments, because the caller passes a 256-character local buffer and a separate argument string. The standard leaves the buffer after the written NUL unspecified. The model leaves those characters unchanged.
- `Broadcast.Settings.ParseCommandLine` stops at a `strcpy_s` violation and returns false. This stands for the Microsoft runtime's default invalid-parameter handler, which ends the process. A runtime whose constraint handler returns would go on with the next argument after setting the buffer's first character to NUL. The model does not cover that variant.
- `Broadcast.Settings.constructor` does not state the value of `bRecv`, because `main` leaves it uninitialised. The parser always assigns it before anything reads it.
- `CommandLine.WellFormed` excludes empty arguments. For `broadcast ""` the source reads `argv[1][1]`, the byte after the terminating NUL, and ISO C leaves that read undefined.
- An argument is modelled as the characters before its terminating NUL, so it can contain no NUL. Characters are Dafny `char`s rather than 8-bit bytes. The parser only compares them and copies them, so the difference is not visible.
