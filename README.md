# txwifi: the WPA supervisor, modelled in Dafny

The file `iotwifi/wpacfg.go` is the part of txwifi that talks to the wireless daemons. It
drives `wpa_cli -i wlan0` (the station side, wpa_supplicant) and `hostapd_cli -i uap0` (the
access-point side). Everything it learns comes from their textual output. This project models:

- **cfgMapper**: the key/value parser for status dumps. It splits the text into lines, splits
  each line at every `=` and keeps segments 0 and 1. A later line overwrites an earlier line
  with the same key.
- **Status**: one `wpa_cli status` call, parsed by cfgMapper.
- **APStatus**: `hostapd_cli status` with every literal `[0]` removed, parsed by cfgMapper.
  After it, `hostapd_cli list_sta`, whose lines longer than one byte (Go's `len`, the UTF-8
  length) are stored under `"clients"`.
- **ScanNetworks**: `wpa_cli scan` is gated on its trimmed reply being `OK`. Then
  `wpa_cli scan_results` is parsed. The header line is dropped, `[P2P]` rows are skipped, and
  rows with more than four white-space separated fields become networks. The SSID is fields
  4.. joined by single spaces, and the map is keyed by SSID.
- **ConnectNetwork**: a strictly sequential protocol: add_network, set_network ssid,
  set_network psk, enable_network. Then up to five `status` polls. The first poll whose
  `wpa_state` is `COMPLETED` is followed by `save_config` and success. Otherwise the result is
  `FAIL` with the message `Unable to connect to <ssid>`. Any failing command ends the
  operation at once with that error and the zero `WpaConnection`.

Two modules:

- `strings.dfy` (module `GoText`) holds the Go library functions the core relies on, as pure
  functions with characterising lemmas: `strings.Split`/`bytes.Split`, `strings.Join`,
  `strings.TrimSpace`, `strings.Fields`, `strings.Contains`, `bytes.ReplaceAll` with an
  empty replacement and `len` of a string, its UTF-8 byte count.
- `wpacfg.dfy` (module `IotWifi`) holds the records, the parsers, the specification
  functions of ConnectNetwork and the class `WpaCfg`.

Process execution is an abstract daemon, `type Daemon = (seq<Argv>, Argv) -> Reply`. It gives
the reply to a command (its standard output or the error exec returned) given every command
issued before it. The class records each issued argument vector in its `trace` field, so the
contracts can state command counts and order.

Two details of APStatus:

- **When `list_sta` fails.** APStatus returns the already filled status map together with the
  `list_sta` error (`iotwifi/wpacfg.go:78-82`).
- **Which lines are clients.** Only `list_sta` lines longer than one byte are kept, so empty
  lines and lines of one ASCII character are dropped (`iotwifi/wpacfg.go:87`).

## Model

| member | source | states |
|---|---|---|
| GoText.Join | iotwifi/wpacfg.go:250 | strings.Join: the pieces in order with the separator between each two neighbours, the empty text for no pieces |
| GoText.Split | iotwifi/wpacfg.go:208 | a split always has at least one piece, and no piece holds the separator |
| GoText.JoinSplit | iotwifi/wpacfg.go:208-211 | joining the pieces of a split with the separator gives the text back |
| GoText.SplitJoin | iotwifi/wpacfg.go:241 | splitting a join of separator-free pieces gives exactly those pieces |
| GoText.SplitAtSeparator | iotwifi/wpacfg.go:241-242 | a separator-free first line is the first piece and the rest is split on its own |
| GoText.TrimSpace | iotwifi/wpacfg.go:116 | the result is a contiguous part of the input with only white space cut on either side and no white space at its ends |
| GoText.TrimSpacePadded | iotwifi/wpacfg.go:229 | trimming a text that is white space, a core without white space at its ends, then white space gives the core |
| GoText.Fields | iotwifi/wpacfg.go:247 | every field is a non-empty run without white space |
| GoText.FieldsAtSpace | iotwifi/wpacfg.go:247 | Fields splits at each white-space character: the fields of x c y are those of x followed by those of y |
| GoText.FieldsOfWord | iotwifi/wpacfg.go:247 | a single word is a single field |
| GoText.FieldsJoin | iotwifi/wpacfg.go:247-250 | Fields recovers the words of a text whose words are joined by single spaces |
| GoText.Contains | iotwifi/wpacfg.go:243 | strings.Contains: whether the pattern occurs in the text, tried at each position from the left |
| GoText.ContainsOccurs | iotwifi/wpacfg.go:243 | Contains holds exactly when the pattern occurs at some position |
| GoText.RemoveAll | iotwifi/wpacfg.go:70 | bytes.ReplaceAll with an empty replacement: every non-overlapping occurrence, scanned from the left, is deleted; the result is never longer than the text |
| GoText.RemoveAllAbsent | iotwifi/wpacfg.go:70 | text without the pattern is left unchanged |
| GoText.RemoveAllSkip | iotwifi/wpacfg.go:70 | a prefix free of the pattern's first character is copied unchanged |
| GoText.RemoveAllFront | iotwifi/wpacfg.go:70 | an occurrence of the pattern at the front is deleted |
| GoText.RemoveAllAtBreak | iotwifi/wpacfg.go:70 | removal acts independently on both sides of a character the pattern does not hold |
| GoText.RemoveAllJoin | iotwifi/wpacfg.go:70 | removing the pattern from a joined text is removing it from every piece |
| GoText.SplitRemoveAll | iotwifi/wpacfg.go:70-73 | removing a pattern without line breaks keeps the number of lines and removes the pattern line by line |
| GoText.Utf8Width | iotwifi/wpacfg.go:87 | the UTF-8 width of a character is one to four bytes, and one byte exactly for ASCII |
| GoText.ByteLen | iotwifi/wpacfg.go:87 | Go's len of a string: the sum of the UTF-8 widths of its characters |
| GoText.ByteLenAtLeastLength | iotwifi/wpacfg.go:87 | a string has at least as many bytes as characters |
| GoText.ByteLenAboveOne | iotwifi/wpacfg.go:87 | a string is longer than one byte exactly when it has two or more characters or is one non-ASCII character |
| IotWifi.Index | iotwifi/wpacfg.go:210-215 | the map built by assigning, line after line, the entry each line yields, so a later line overwrites an earlier one with the same key |
| IotWifi.CfgLine | iotwifi/wpacfg.go:211-214 | a line split at every `=`: segments 0 and 1 as key and value when there are at least two segments, otherwise no entry |
| IotWifi.IndexKeys | iotwifi/wpacfg.go:208-215 | a key is in the parsed map exactly when some line yields an entry with that key |
| IotWifi.IndexLastWins | iotwifi/wpacfg.go:210-215 | the value kept for a key is the one from the last line that yields that key |
| IotWifi.IndexPointwise | iotwifi/wpacfg.go:70-73 | line sequences whose entries agree position by position give the same map |
| IotWifi.CfgLineReadsFirstTwoSegments | iotwifi/wpacfg.go:211-214 | a line yields an entry exactly when it holds `=`; the key is the text before the first `=` and the value the text up to the second `=` or the end |
| IotWifi.CfgLineOfKeyValue | iotwifi/wpacfg.go:211-214 | `k=v` followed by nothing or by `=...` parses to (k, v): later segments are discarded |
| IotWifi.CfgMapper | iotwifi/wpacfg.go:205-218 | the loop builds the last-wins map of the line entries |
| IotWifi.ApStatusFieldsLineByLine | iotwifi/wpacfg.go:70-73 | removing every `[0]` from the whole text and then parsing equals parsing each line with `[0]` removed |
| IotWifi.ApLine | iotwifi/wpacfg.go:70-73 | a hostapd status line is read by cfgMapper after every `[0]` in it is removed |
| IotWifi.ApLineStripsIndex | iotwifi/wpacfg.go:70-73 | `k[0]=v` is read as key k with value v, for a key without `[` or `=` and any value without `=` or `[0]`, brackets such as `Cafe [Guest]` included |
| IotWifi.ApLineKeepsOtherIndices | iotwifi/wpacfg.go:70 | a line without `[0]`, such as `bss[1]=x`, is parsed as it stands |
| IotWifi.LongLines | iotwifi/wpacfg.go:85-90 | the list_sta lines longer than one byte, in their order |
| IotWifi.LongLinesAppend | iotwifi/wpacfg.go:85-90 | the client filter acts line by line, so it keeps the original order |
| IotWifi.LongLinesExactly | iotwifi/wpacfg.go:85-90 | the clients are exactly the lines longer than one byte, each as often as it occurs: lines of two or more characters and lines of one non-ASCII character |
| IotWifi.LongLinesCountBytes | iotwifi/wpacfg.go:87 | an empty line and a one-ASCII-character line are dropped, a line holding only `é` (two bytes) is kept |
| IotWifi.ConnectedClients | iotwifi/wpacfg.go:84-91 | the loop keeps exactly the filtered lines in order |
| IotWifi.AsValues | iotwifi/wpacfg.go:73-75 | the interface map has the same keys as the parsed fields, each value wrapping the field |
| IotWifi.CopyFields | iotwifi/wpacfg.go:73-75 | the copying loop yields exactly the wrapped field map |
| IotWifi.FieldsOfRow | iotwifi/wpacfg.go:247 | a tab-separated row of four words and an SSID has those four fields followed by the SSID's words |
| IotWifi.ScanRow | iotwifi/wpacfg.go:243-257 | a scan_results row: nothing for a row containing `[P2P]` or with at most four fields; otherwise the network of fields 0-3 and the SSID made of the remaining fields joined by single spaces, keyed by that SSID |
| IotWifi.ScanRowOfFormatRow | iotwifi/wpacfg.go:243-257 | a printed non-[P2P] row parses back to its network under its SSID, an SSID with spaces rebuilt whole |
| IotWifi.ScanRowReadsFields | iotwifi/wpacfg.go:243-257 | an accepted row is not a [P2P] row; its fields are fields 0-3 of the network followed by the SSID's words; its key is the SSID |
| IotWifi.ScanTableKeyedBySsid | iotwifi/wpacfg.go:250-251 | every network in the scan map is stored under its own SSID |
| IotWifi.NewlineFreeRow | iotwifi/wpacfg.go:241 | a printed row holds no line break |
| IotWifi.ScanSkipsHeaderP2pAndShortRows | iotwifi/wpacfg.go:241-258 | a header, a [P2P] row and a row of at most four fields contribute nothing; one printed network is the whole result |
| IotWifi.ScanIgnoresFirstLine | iotwifi/wpacfg.go:241-242 | the first line is never parsed, whatever it holds |
| IotWifi.ParseScanResults | iotwifi/wpacfg.go:241-259 | the loop builds the last-wins map of the rows after the header |
| IotWifi.ScanAcknowledged | iotwifi/wpacfg.go:229-234 | the gate passes exactly when the acknowledgement is `OK` surrounded by white space only |
| IotWifi.UntilNewline | iotwifi/wpacfg.go:147 | none exactly when there is no line break; otherwise the newline-free prefix before the first one |
| IotWifi.WpaState | iotwifi/wpacfg.go:147-161 | the capture of `wpa_state=(.*)\n`: the text after the first `wpa_state=` up to the next line break; none when there is no `wpa_state=` or no line break follows the first one |
| IotWifi.MatchCaptureUnique | iotwifi/wpacfg.go:147-158 | a match at a given position has a single capture |
| IotWifi.WpaStateIsLeftmostMatch | iotwifi/wpacfg.go:147-161 | the state extracted is the capture of the leftmost match of `wpa_state=(.*)\n` |
| IotWifi.WpaStateFindsLeftmostMatch | iotwifi/wpacfg.go:147-161 | conversely, the capture of the leftmost match is the state extracted |
| IotWifi.WpaStateHasNewlineAfterKey | iotwifi/wpacfg.go:147-160 | a state is found only when some `wpa_state=` has a line break after it |
| IotWifi.WpaStateNeedsNewline | iotwifi/wpacfg.go:147-160 | a text in which no `wpa_state=` has a line break after it yields no state |
| IotWifi.WpaStateUnterminatedLastLine | iotwifi/wpacfg.go:147-160 | a final line without a line break yields no state, even a `wpa_state=COMPLETED` line, when the lines before it hold no `wpa_state=` |
| IotWifi.Quoted | iotwifi/wpacfg.go:120-129 | a value wrapped in double quotes, `"\"" + value + "\""`, as the SSID and the passphrase are sent |
| IotWifi.SetSsidCmd | iotwifi/wpacfg.go:120 | `wpa_cli -i wlan0 set_network <handle> ssid` followed by the quoted SSID |
| IotWifi.SetPskCmd | iotwifi/wpacfg.go:129 | `wpa_cli -i wlan0 set_network <handle> psk` followed by the quoted passphrase |
| IotWifi.EnableCmd | iotwifi/wpacfg.go:138 | `wpa_cli -i wlan0 enable_network <handle>` |
| IotWifi.Setup | iotwifi/wpacfg.go:119-144 | the three configuration commands in order: set ssid, set psk, enable, all with the same handle |
| IotWifi.Handle | iotwifi/wpacfg.go:116 | the network handle: the add_network reply with white space trimmed at both ends |
| IotWifi.Plan | iotwifi/wpacfg.go:110-182 | add_network, the three configuration commands and five status commands, the most ConnectNetwork issues before save_config |
| IotWifi.NoConnection | iotwifi/wpacfg.go:108 | the zero `WpaConnection{}`: every field empty; it is returned beside every error |
| IotWifi.CompletedConnection | iotwifi/wpacfg.go:174-175 | the success result: Ssid the requested SSID, State "COMPLETED", Ip and Message empty |
| IotWifi.FailedConnection | iotwifi/wpacfg.go:184-185 | the FAIL result: Ssid and Ip empty, State "FAIL", Message "Unable to connect to " followed by the requested SSID |
| IotWifi.CompletedReply | iotwifi/wpacfg.go:158-164 | a status reply that ends the poll: the command succeeded and the extracted wpa_state is exactly `COMPLETED` |
| IotWifi.Steps | iotwifi/wpacfg.go:119-144 | commands issued one after another until one fails, with that failure's error; no error when all are answered |
| IotWifi.StepsStopAtFailure | iotwifi/wpacfg.go:119-144 | the configuration steps issue commands in order until the first failing one and report its error; without an error all are issued |
| IotWifi.StepsWithoutError | iotwifi/wpacfg.go:119-144 | a run of steps without an error issued every command |
| IotWifi.StepsAllAnswered | iotwifi/wpacfg.go:119-144 | commands all answered with output all run, with no error |
| IotWifi.SetupSteps | iotwifi/wpacfg.go:119-144 | set ssid, set psk and enable, with their three possible stopping points |
| IotWifi.Poll | iotwifi/wpacfg.go:150-186 | the status loop: per attempt one status command; a failure ends it with that error; a COMPLETED state is followed by save_config and the connection; FAIL once the attempts are used up |
| IotWifi.PollStopsAtFailure | iotwifi/wpacfg.go:150-170 | the poll stops at the first failing status or save command, with that error and the zero connection |
| IotWifi.PollCommands | iotwifi/wpacfg.go:150-182 | the poll issues at most one status per attempt, then at most one save_config, right after the first COMPLETED reply; when it stops at a failing command, no earlier status reply was COMPLETED |
| IotWifi.PollCommandsStep | iotwifi/wpacfg.go:150-182 | a non-COMPLETED status reply in front keeps the shape of the poll's commands |
| IotWifi.PollOutcome | iotwifi/wpacfg.go:150-186 | without an error the poll ends connected right after the first COMPLETED reply, or FAIL after every attempt with no COMPLETED reply |
| IotWifi.PollOutcomeStep | iotwifi/wpacfg.go:150-186 | a non-COMPLETED status reply in front keeps either ending |
| IotWifi.NeverCompletedCons | iotwifi/wpacfg.go:158-164 | a non-COMPLETED reply in front of replies never COMPLETED gives one more such reply |
| IotWifi.PollAfterQuiet | iotwifi/wpacfg.go:150-182 | after k answered, non-COMPLETED polls the rest is a poll with k fewer attempts |
| IotWifi.PollExhausted | iotwifi/wpacfg.go:150-186 | every attempt answered and never COMPLETED gives FAIL after one status command per attempt |
| IotWifi.PollQuiet | iotwifi/wpacfg.go:150-186 | a poll whose every reply is quiet reports FAIL after using up its attempts |
| IotWifi.Connect | iotwifi/wpacfg.go:107-187 | ConnectNetwork as a function of the daemon and the history: add_network, the three configuration commands with the trimmed handle, then the status loop; any failure ends it with that error and the zero connection |
| IotWifi.ConnectSetupFails | iotwifi/wpacfg.go:119-144 | a failing configuration command ends ConnectNetwork with its error and the zero connection |
| IotWifi.ConnectAfterSetup | iotwifi/wpacfg.go:110-150 | once add_network and the configuration succeed, ConnectNetwork continues with the poll |
| IotWifi.ConnectStopsAtFirstFailure | iotwifi/wpacfg.go:111-170 | every command before the last succeeded; an error is reported exactly when the last one failed, with that command's reason and the zero connection |
| IotWifi.ConnectCommands | iotwifi/wpacfg.go:107-187 | the commands follow the plan (add_network, then ssid, psk and enable with the trimmed handle, then five polls), except that save_config may follow the first COMPLETED reply; at most ten commands; whichever command it stops at, no status reply before the last status command was COMPLETED |
| IotWifi.ConnectCommandsAfterSetup | iotwifi/wpacfg.go:146-182 | the poll's commands after the prelude keep to the plan |
| IotWifi.ConnectOutcome | iotwifi/wpacfg.go:107-187 | without an error the result is the connection after save_config following the first COMPLETED reply, or FAIL after exactly the nine planned commands, with no save_config and no COMPLETED reply |
| IotWifi.ConnectOutcomeAfterSetup | iotwifi/wpacfg.go:174-186 | the poll's two endings give the two shapes of ConnectNetwork's command list |
| IotWifi.SaveNotPlanned | iotwifi/wpacfg.go:166 | save_config is none of the planned commands |
| IotWifi.ConnectFirstPollCompletes | iotwifi/wpacfg.go:111-177 | a first COMPLETED reply and a successful save connect after exactly six commands |
| IotWifi.ConnectNeverCompletes | iotwifi/wpacfg.go:147-186 | five answered, never COMPLETED replies end in FAIL after nine commands, with no error |
| IotWifi.WpaCfg.Exec | iotwifi/wpacfg.go:63-235 | every `exec.Command(...).Output()` call (lines 63, 78, 111, 120, 129, 138, 153, 166, 193, 224 and 235): the reply for the history so far, and the argument vector appended to the trace |
| IotWifi.WpaCfg.Status | iotwifi/wpacfg.go:190-202 | one status command; on an error the empty map and that error, otherwise the parsed map |
| IotWifi.WpaCfg.APStatus | iotwifi/wpacfg.go:59-94 | status with `[0]` removed and parsed, then list_sta; the partial map with the error when list_sta fails; otherwise the fields and the clients |
| IotWifi.WpaCfg.ScanNetworks | iotwifi/wpacfg.go:221-264 | scan, then scan_results only when the trimmed acknowledgement is `OK`; otherwise the empty map, no error and no second command |
| IotWifi.WpaCfg.ConnectNetwork | iotwifi/wpacfg.go:107-187 | the result, the error and the commands added to the trace are exactly those of the specification function `Connect` |
| IotWifi.WpaCfg.Configure | iotwifi/wpacfg.go:119-144 | the three configuration commands, stopping at the first failure |
| IotWifi.WpaCfg.AwaitCompleted | iotwifi/wpacfg.go:146-186 | the counted poll loop does exactly what the poll specification describes |

## Left out

- Process execution (`exec.Command(...).Output()`) is the `Daemon` function, a parameter of the class. Real subprocesses, their exit codes and their standard error are not modelled.
- `time.Sleep` (lines 181 and 232) affects timing only and is not modelled. The number of loop iterations is modelled.
- The bunyan `Log.Info` and `Log.Fatal` calls only write to the log, so they are not modelled. The control flow after them ("log, then return err") is.
- `NewWpaCfg` and `loadCfg`: loadCfg is not part of this model, and NewWpaCfg only loads configuration and panics on failure. The unused struct fields `WpaCmd` and `WpaCfg` are left out with them.
- `ConfiguredNetworks` (lines 97-104) returns raw scan output and has no logic to model.
- JSON struct tags and serialisation are not modelled.
- Concurrency and races on the daemons' shared state: the code is single-caller and synchronous.
- Go's byte slices and strings are both `string` (a sequence of characters), taken to be valid UTF-8. Byte lengths (`len(line)` at line 87) are computed from the UTF-8 encoding by `ByteLen`. Decoding invalid UTF-8, which `strings.TrimSpace` and `strings.Fields` do rune by rune, is not modelled.
- The regular-expression engine: only the extraction `(?m)wpa_state=(.*)\n` is modelled, as a string function.
- The status loop of ConnectNetwork and its three configuration commands are separate methods, `AwaitCompleted` and `Configure`, which ConnectNetwork calls in order. The commands issued and the results are the same as in the single Go function.
