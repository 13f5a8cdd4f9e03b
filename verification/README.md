# Ping utility core in Dafny

This project models the logic of a small Swing ping utility, made of `PingService` and `PingApp`. The widgets, the subprocess and the worker thread are abstracted away. The model keeps the text handling (host validation, reading the probe's replies, formatting the latency) and the Idle/Running switching of the two buttons, and proves properties of both.

- **Host validation.** `isValidIP` and `isValidDomain` test two anchored regular expressions, and `PingApp.isValidHost` combines them. The model restates each pattern as a predicate over characters (module `HostPattern`). The IPv4 predicate reads the pattern as the regular expression does: a group, a dot, then the rest. It is proved equivalent to "four dot-separated fields of 1 to 3 ASCII digits". The domain predicate is proved equivalent to a split at the *last* dot.
- **One line of probe output** (module `ProbeOutput`). A line is checked in this order:
  1. the timeout marker;
  2. the unreachable marker;
  3. the leftmost match of `time=(\d+ms)`.

  The captured group goes through `replace("ms", "")`, `trim` and `Integer.parseInt`. The latency is then reduced modulo 1000 with Java's `%`, formatted with `%03d`, and followed by `MS`. Module `Decimal` holds Java's `int` range, `parseInt` and `%0Nd`. Module `Text` holds `contains`, `trim` and `replace`.
- **The reader loop and the running flag** (module `ProbeSession`). The subprocess is replaced by the sequence of things the worker observes:
  - a line of output;
  - the flag being lowered by the UI thread;
  - a failed read.

  The loop is a fold over that sequence, guarded by the flag. An unparsable number or a failed read ends it with the fatal message.
- **The control state** (module `PingApp`). It holds the host text, whether each button is enabled, the service, and the dialogs shown so far. The Start and Stop listeners, `toggleButtons` and `showErrorMessage` are functions over this state. An event dispatcher delivers clicks only to enabled buttons. A state invariant says two things: exactly one button is enabled, and no probe is flagged running while Start is enabled. It is proved for every reachable state.

When the worker ends on its own, its `finally` block calls only `stopPing`. That lowers the flag and leaves the buttons alone, so `PingApp.OnWorkerDone` keeps the controls as they were: after the probe dies by itself, Stop stays the only enabled button until it is clicked. The invariant still holds in that state, because it only constrains the flag while Start is enabled.

The group that `time=(\d+ms)` captures is read in two steps:
- `ProbeOutput.Classify` parses only the digits, through `ProbeOutput.ParseDigits`.
- `ProbeOutput.ReadGroup` is the source's own expression `parseInt(group.replace("ms", "").trim())`.

`ProbeOutput.GroupReadsDigits` and `ProbeOutput.TokenGroupRead` prove that the two agree on every captured group.

## Model

| member | source | states |
|---|---|---|
| Text.Trim | src/com/peace/app/PingApp.java:86 | `trim` leaves a string no longer than its input, and whose first and last characters are both above U+0020 |
| Text.Contains | src/com/peace/app/PingService.java:37-39 | `String.contains`: `pat` occurs at some index of `s`. `MissingCharNotContained` shows that a string lacking any character of `pat` does not contain it |
| Text.TrimPadded | src/com/peace/app/PingApp.java:86 | `trim` removes all of the padding of characters at or below U+0020 around a core whose ends are above U+0020, and keeps exactly that core |
| Text.TrimIdempotent | src/com/peace/app/PingApp.java:86 | trimming an already trimmed string changes nothing |
| Text.RemoveUnitAfterDigits | src/com/peace/app/PingService.java:44 | `replace("ms", "")` applied to digits followed by `ms` gives back exactly the digits |
| Text.RemoveAll | src/com/peace/app/PingService.java:44 | `replace(pat, "")` deletes the non-overlapping occurrences of `pat` found left to right, and never lengthens the string. `RemoveUnitAfterDigits` fixes its result on every captured group |
| Decimal.ParseInt | src/com/peace/app/PingService.java:45 | `Integer.parseInt` succeeds on a string of ASCII digits exactly when its value fits in an `int`, and then yields that value. With a leading `-` it yields the negated value exactly when that fits. It never succeeds on the empty string |
| Decimal.ParseDecimal | src/com/peace/app/PingService.java:45 | `parseInt` reads back the decimal numeral of every non-negative `int` |
| Decimal.FormatZeroPadded | src/com/peace/app/PingService.java:74 | `%0Nd` of a non-negative value is a numeral of at least N digits worth the value. A negative value gives `-` and a numeral worth its magnitude. The width is exactly N whenever the shortest form fits in it |
| Decimal.ValueLeadingZeros | src/com/peace/app/PingService.java:74 | zero padding on the left does not change the value of a numeral |
| Decimal.ValueInjective | src/com/peace/app/PingService.java:74 | two numerals of the same width with the same value are the same string |
| HostPattern.DottedGroupsAreFields | src/com/peace/app/PingService.java:15 | `([0-9]{1,3}\.){k}[0-9]{1,3}`, matched group by group, accepts `s` exactly when `s` has k+1 dot-separated fields of 1 to 3 ASCII digits each |
| HostPattern.IsValidIP | src/com/peace/app/PingService.java:77-79 | `isValidIP` is the IPv4 pattern with three repetitions, matched against the whole string. `ValidIPIsFourGroups` characterises it |
| HostPattern.ValidIPIsFourGroups | src/com/peace/app/PingService.java:77-79 | `isValidIP` accepts a string if and only if it has exactly four dot-separated fields, each of 1 to 3 ASCII digits |
| HostPattern.DottedQuadAccepted | src/com/peace/app/PingService.java:77-79 | any four groups of 1 to 3 digits joined by dots are accepted |
| HostPattern.LargeOctetsAccepted | src/com/peace/app/PingService.java:77-79 | there is no octet range check: `999.999.999.999` is accepted |
| HostPattern.FieldCount | src/com/peace/app/PingService.java:15 | a string has exactly one more dot-separated field than it has dots |
| HostPattern.FieldsJoin | src/com/peace/app/PingService.java:15 | joining the dot-separated fields with `.` gives back the string, so `Fields` loses nothing |
| HostPattern.FieldsHaveNoDot | src/com/peace/app/PingService.java:15 | no dot-separated field contains a dot, so `Fields` splits at every dot |
| HostPattern.WrongGroupCountRejected | src/com/peace/app/PingService.java:77-79 | a string with any number of dots other than three is rejected as an IPv4 address |
| HostPattern.ThreeGroupsRejected | src/com/peace/app/PingService.java:77-79 | three valid groups, such as `1.2.3`, are rejected |
| HostPattern.FiveGroupsRejected | src/com/peace/app/PingService.java:77-79 | five valid groups, such as `1.2.3.4.5`, are rejected |
| HostPattern.DomainSeparatorIsLastDot | src/com/peace/app/PingService.java:16 | the escaped dot of any successful domain match is the last dot of the string |
| HostPattern.IsValidDomain | src/com/peace/app/PingService.java:81-83 | `isValidDomain` holds when some split of the whole string matches the domain pattern. `ValidDomainByLastDot` characterises it |
| HostPattern.ValidDomainByLastDot | src/com/peace/app/PingService.java:81-83 | `isValidDomain(s)` holds exactly when three things hold at the last dot of s: 2 to 6 ASCII letters follow it; a non-empty run over `[a-zA-Z0-9.-]` precedes it; and there is nothing else |
| HostPattern.DomainExamples | src/com/peace/app/PingService.java:81-83 | `google.com` is accepted; `example.c` is rejected because its suffix is too short |
| HostPattern.DotlessRejected | src/com/peace/app/PingService.java:81-83 | a name with no dot, such as `localhost`, is never a domain |
| HostPattern.IPIsNotDomain | src/com/peace/app/PingService.java:15-16 | no string matches both patterns: a dotted quad ends in a digit, a domain in a letter |
| HostPattern.AcceptedHostIsTrimmed | src/com/peace/app/PingService.java:15-16 | every string either pattern accepts begins and ends above U+0020, so trimming it changes nothing |
| ProbeOutput.TokenLengthIsDigitRun | src/com/peace/app/PingService.java:17 | a match of `time=(\d+ms)` at a given position has only one possible length: the whole run of digits there |
| ProbeOutput.TokenLengthAt | src/com/peace/app/PingService.java:17 | a single match attempt at one position returns a length exactly when the pattern matches there with that length, and 0 when it matches with no length |
| ProbeOutput.FindTimeToken | src/com/peace/app/PingService.java:42-43 | `Matcher.find` returns a match with no match starting before it, or reports no match only when none exists at or after the start index |
| ProbeOutput.FirstTokenUnique | src/com/peace/app/PingService.java:42-43 | any match with no match starting before it is the one the search returns, position and length both |
| ProbeOutput.JavaRem | src/com/peace/app/PingService.java:73 | Java's `%` stays strictly inside (-1000, 1000) and agrees with the mathematical remainder on non-negative values |
| ProbeOutput.FormatAsClock | src/com/peace/app/PingService.java:72-75 | `formatAsClock(n)` for `n >= 0` is three ASCII digits worth `n % 1000`. For negative n with a non-zero remainder, it is `-` followed by digits worth the magnitude of that remainder |
| ProbeOutput.ClockIsUniqueNumeral | src/com/peace/app/PingService.java:72-75 | `formatAsClock(n)` is the one three-digit numeral worth `n % 1000` |
| ProbeOutput.Classify | src/com/peace/app/PingService.java:37-47 | a line is a timeout exactly when it contains the timeout marker. It is unreachable exactly when it contains the unreachable marker but not the timeout marker. It yields nothing exactly when it has neither marker and no `time=<digits>ms` anywhere |
| ProbeOutput.ParseDigits | src/com/peace/app/PingService.java:45 | a string of digits parses to its value as a latency when it fits in an `int`; otherwise it is the NumberFormatException |
| ProbeOutput.ReadGroup | src/com/peace/app/PingService.java:44-45 | the source's own reading of the captured group: remove `ms`, trim, `parseInt`. `TokenGroupRead` shows it equals `ParseDigits` of the digits at every match |
| ProbeOutput.GroupReadsDigits | src/com/peace/app/PingService.java:44 | removing `ms` from a captured group and trimming it leaves exactly the digits, so the source's expression parses the digits |
| ProbeOutput.TokenGroupRead | src/com/peace/app/PingService.java:44-45 | at any match, what the source parses from the whole group equals what it parses from the digits after `time=` |
| ProbeOutput.ClassifyFirstToken | src/com/peace/app/PingService.java:42-46 | a line with neither marker is decided by its leftmost token: a latency worth its digits when they fit in an `int`, otherwise the NumberFormatException |
| ProbeOutput.Display | src/com/peace/app/PingService.java:37-46 | each line hands at most one string to the consumer, nothing exactly when the line is silent, and only one of the four kinds of display text |
| ProbeOutput.FirstTokenShown | src/com/peace/app/PingService.java:42-46 | a line with neither marker, whose leftmost token's digits fit in an `int`, is shown as the clock reading of those digits followed by `MS` |
| ProbeOutput.BareTokenShown | src/com/peace/app/PingService.java:42-46 | a bare reply `time=<d>ms` is shown as the clock reading of d followed by `MS` |
| ProbeOutput.ReplyShownAsClock | src/com/peace/app/PingService.java:42-46 | any reply line with neither marker whose leftmost token is worth n (for example `Reply from 8.8.8.8: bytes=32 time=14ms TTL=117`) is shown as the three-digit numeral worth n mod 1000, followed by `MS` |
| ProbeOutput.BareReplyShownAsClock | src/com/peace/app/PingService.java:44-46 | a bare reply `time=<d>ms` is shown as the three-digit numeral worth d mod 1000, followed by `MS` |
| ProbeOutput.Example137 | src/com/peace/app/PingService.java:72-75 | `time=137ms` is shown as `137MS` |
| ProbeOutput.Example2005 | src/com/peace/app/PingService.java:72-75 | `time=2005ms` is shown as `005MS` |
| ProbeOutput.Example007 | src/com/peace/app/PingService.java:72-75 | `time=007ms` is shown as `007MS`, keeping its leading zeros |
| ProbeOutput.SubMillisecondReplySilent | src/com/peace/app/PingService.java:42-43 | Windows' sub-millisecond reply `time<1ms` is silent |
| ProbeOutput.TimeoutWins | src/com/peace/app/PingService.java:37-38 | a line with the timeout marker shows exactly `Error`, whatever else it holds |
| ProbeOutput.UnreachableBeforeLatency | src/com/peace/app/PingService.java:39-40 | a line with the unreachable marker and no timeout marker shows exactly `ERROR`, even when it has a latency token |
| ProbeSession.StartPing | src/com/peace/app/PingService.java:27-31 | `startPing` raises the flag and launches a probe of exactly the given host, after the earlier ones |
| ProbeSession.StopPing | src/com/peace/app/PingService.java:62-70 | `stopPing` always leaves the flag down and changes nothing else in the model |
| ProbeSession.StopPingIdempotent | src/com/peace/app/PingService.java:62-70 | stopping twice is stopping once, and stopping an idle service changes nothing |
| ProbeSession.ReaderLoop | src/com/peace/app/PingService.java:36-52 | the loop shows nothing unless the flag is up. It shows no more strings than it observes steps, and only display texts. The fatal message can appear only as the last string |
| ProbeSession.Worker | src/com/peace/app/PingService.java:30-57 | the worker always ends with the flag down and the probe list unchanged. It shows only the fatal message when the subprocess cannot start, and otherwise exactly what the reader loop shows |
| ProbeSession.StopCutsOff | src/com/peace/app/PingService.java:36 | once the flag is lowered, nothing more is shown, whatever output remains |
| ProbeSession.ShownIsPrefix | src/com/peace/app/PingService.java:36-49 | more output only extends what was shown, never retracts it |
| ProbeSession.LoopDistributes | src/com/peace/app/PingService.java:36-49 | over lines that do not end the loop, what is shown for a concatenation is what is shown for each part, in order |
| ProbeSession.OneLine | src/com/peace/app/PingService.java:36-49 | a single ordinary line is shown exactly as its classification says |
| ProbeSession.FatalIsLast | src/com/peace/app/PingService.java:51-52 | a read failure after ordinary lines shows their output followed by the fatal message, and nothing afterwards |
| ProbeSession.UnparsableIsLast | src/com/peace/app/PingService.java:45-52 | a line whose leftmost latency is too large for an `int`, after ordinary lines, shows their output followed by the fatal message, and nothing afterwards |
| PingApp.ToggleButtons | src/com/peace/app/PingApp.java:104-107 | `toggleButtons(b)` enables Start exactly when b is true and Stop exactly when it is false, so exactly one is enabled |
| PingApp.OnStart | src/com/peace/app/PingApp.java:85-93 | a valid trimmed host starts a probe of the trimmed text and moves to Running with no dialog. An invalid one starts nothing, adds the error dialog and moves to Idle |
| PingApp.ShowErrorMessage | src/com/peace/app/PingApp.java:117-120 | the error dialog is recorded and the controls return to Idle; the service is untouched |
| PingApp.OnStop | src/com/peace/app/PingApp.java:95-98 | Stop lowers the flag and moves to Idle from any state, keeping the probes started so far |
| PingApp.OnWorkerDone | src/com/peace/app/PingService.java:54-56 | a worker that ends on its own lowers the flag and leaves the buttons as they were |
| PingApp.Dispatch | src/com/peace/app/PingApp.java:100-101 | a click on a disabled button changes nothing |
| PingApp.InitialIsIdle | src/com/peace/app/PingApp.java:55-57 | the window starts Idle, with Start enabled, Stop disabled and no probe running |
| PingApp.DispatchPreservesConsistency | src/com/peace/app/PingApp.java:84-107 | every event keeps exactly one button enabled, and keeps the flag down while Start is enabled |
| PingApp.RunPreservesConsistency | src/com/peace/app/PingApp.java:84-107 | the invariant holds after any sequence of events from a consistent state, so in every reachable state |
| PingApp.StartOnlyWhenIdle | src/com/peace/app/PingApp.java:85-93 | a probe is started only by a Start click from Idle with no probe running |
| PingApp.ProbedHostIsTrimmed | src/com/peace/app/PingApp.java:86-88 | the host handed to a new probe is the trimmed text, which is valid and has no surrounding white space |
| PingApp.ValidHostCharacterised | src/com/peace/app/PingApp.java:113-115 | `isValidHost` in character terms: four dot-separated fields of 1 to 3 digits, or a valid split at the last dot |
| PingApp.IsValidHost | src/com/peace/app/PingApp.java:113-115 | `isValidHost` is the IPv4 pattern or the domain pattern. `ValidHostCharacterised` states it in character terms |
| PingApp.DefaultHostStartsProbe | src/com/peace/app/PingApp.java:86-89 | with the default text ` 8.8.8.8`, Start trims it, accepts it and probes `8.8.8.8` in the Running state |
| PingApp.DefaultHostTrimmed | src/com/peace/app/PingApp.java:51 | the default text ` 8.8.8.8` trims to `8.8.8.8` |
| PingApp.DefaultHostAccepted | src/com/peace/app/PingApp.java:113-115 | `8.8.8.8` passes `isValidHost` |
| PingApp.StopIsIdempotent | src/com/peace/app/PingApp.java:95-98 | Stop always ends in Idle, and pressing it twice is pressing it once |

## Left out

- Starting the `ping` subprocess and reading its output stream. This is operating-system I/O. The output is a given sequence of `ProbeSession.Step`s, and a failed start is a boolean parameter of `ProbeSession.Worker`.
- `Process.destroy` and `Thread.interrupt` in `stopPing`. They act on the subprocess and the thread, which are not modelled. Only the flag is.
- The race between `stopPing` on the UI thread and the reader loop. This is concurrency. The moment the worker sees the lowered flag is a `StopRequested` step. A read that fails because the process was destroyed is a `ReadFailure` step.
- Swing presentation: fonts, colours, layout, the icon, `setDefaultButton`, `invokeLater`, and the label text. A dialog is recorded as its message. Pressing Enter is a Start click.
- `ex.printStackTrace()`. It writes to standard error only.
- General Java regular expressions. Only the two anchored patterns and the `time=(\d+ms)` search are modelled, as hand-written predicates and a search.
- Decimal.ParseInt: accepts ASCII digits only. Java's `parseInt` also accepts other Unicode decimal digits, but none can reach it here, because `\d` matches only ASCII digits.
- Decimal.FormatZeroPadded: assumes ASCII digits. `String.format` uses the default locale, which could choose other digits.
- ProbeOutput.FormatAsClock: the result for a negative multiple of 1000 is not stated. The value passed in always comes from digits, so it is never negative.

The source files are `PingService.java` and `PingApp.java` under `src/com/peace/app/`. Every path in the table is relative to the repository root.
