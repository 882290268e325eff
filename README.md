# RPi Audio Hub CLI — a Dafny model of its text-scraping core

The RPi Audio Hub CLI is a menu program that turns a Raspberry Pi into an
analog-to-Bluetooth audio bridge. It drives `bluetoothctl` through an interactive
session and `pactl` through one-shot commands. This project models the decisions it
makes from the text those tools print, and the commands it issues in response:

- **Device lines** (`pystr.dfy`, `bluetooth.dfy`). The transcript of a `devices Paired`
  or `devices` session is split into lines. Each line is searched for the regular
  expression `Device (MAC) (.+)`, where MAC is `([0-9A-Fa-f]{2}:){5}[0-9A-Fa-f]{2}`.
  Each match gives a `Device(mac, name)` record. The search looks for the leftmost
  match. The MAC sub-pattern is modelled group by group (`GroupsMatch`) and proved
  equal to a positional description (`IsMacShaped`). The parser is written once
  (`ParseLine`/`ParseLines`) and used by both call sites, through the loop method
  `CollectDevices`. The list loop itself (`for line in ...: if match: append`) is the
  generic `PyStr.FilterMap`, so its ordering facts are proved once for any line parser.
- **Connect success** (`bluetooth.dfy`). A connect succeeds when the transcript contains
  `Connection successful` (case-sensitive), or when its lower-cased form contains
  `already connected`.
- **MAC check of option 3** (`bluetooth.dfy`). This is `re.match` on the stripped input.
  It is anchored only at the start, so any text may follow the sixth pair.
- **Sink name** (`pulse.dfy`). The sink is `bluez_sink.` + the address with `:` replaced
  by `_` + `.a2dp_sink`. `SinkMac` is its inverse on addresses without `_`.
- **Volume setting** (`pulse.dfy`). The model picks the first line of
  `pactl list sources short` whose lower-cased text contains both `usb` and `input`.
  The source id is the text before the first tab. The result is the ordered list of
  `pactl` argument vectors that `set_volumes` issues. An empty id counts as not found,
  as Python truthiness does.
- **Menu options 2 and 3** (`menu.dfy`). The model covers the index guard with Python
  list indexing as it really behaves (negative numbers pass the guard). It also gives
  the calls each option makes as a function of the typed input and the transcripts.

External tools do not appear in the model. Each transcript and each `stdout` is a
string parameter. Each command is a value: the lines sent to one `bluetoothctl`
session, or the argument vector of one `pactl` call.

The model follows what the code does, including three places where it does
less than its own prompts and messages suggest:

- The prompt of option 3 (rpi-audio-hub-cli.py:165) asks for `XX:XX:XX:XX:XX:XX`.
  The check is `re.match` with no end anchor, so `AA:BB:CC:DD:EE:FF:00`, a
  seventh group included, is accepted (`Bluetooth.SeventhGroupAccepted`).
- Option 3 sets the default sink whatever `connect_to_device` returned
  (rpi-audio-hub-cli.py:167-168). Option 2 sets it only after a success.
- The index guard at rpi-audio-hub-cli.py:156 lets negative numbers through.
  `devices[idx-1]` then counts from the end of the list. For `idx <= -len(devices)`
  it raises an IndexError, which only a `ValueError` handler surrounds, so the
  program ends.

## Model

| member | source | states |
|---|---|---|
| `PyStr.Lower` | rpi-audio-hub-cli.py:75 | `lower()` keeps the length and lower-cases each ASCII letter in place |
| `PyStr.ContainsIff` | rpi-audio-hub-cli.py:75 | `Contains`, Python's `sub in s`, holds exactly when some index of `s` starts an occurrence of `sub` |
| `PyStr.ContainsWithin` | rpi-audio-hub-cli.py:26 | text added on either side of a string never removes an occurrence from it |
| `PyStr.Strip` | rpi-audio-hub-cli.py:15 | `strip()` returns a slice of the input, everything outside it is whitespace, and it starts and ends with a non-space |
| `PyStr.StripPadding` | rpi-audio-hub-cli.py:165 | whitespace around text with non-space ends is exactly what `strip()` removes |
| `PyStr.StripIdempotent` | rpi-audio-hub-cli.py:165 | stripping twice is stripping once |
| `PyStr.Lines` | rpi-audio-hub-cli.py:41 | `splitlines()` gives lines without any newline |
| `PyStr.LinesOfUnlines` | rpi-audio-hub-cli.py:41 | text assembled from newline-free lines splits back into exactly those lines |
| `PyStr.UnlinesOfLines` | rpi-audio-hub-cli.py:41 | joining the lines of a text restores it, with a newline added when the text did not end in one |
| `PyStr.Before` | rpi-audio-hub-cli.py:101 | `split("\t")[0]` is the prefix before the first tab, the whole line if there is none |
| `PyStr.Replace` | rpi-audio-hub-cli.py:85 | `replace(':', '_')` keeps the length and changes exactly the `:` characters |
| `PyStr.ReplaceBack` | rpi-audio-hub-cli.py:85 | replacing back restores the text when the new character was absent from it |
| `PyStr.FilterMap` | rpi-audio-hub-cli.py:41-45 | the appending loop collects at most one value per element |
| `PyStr.FilterMapAppend` | rpi-audio-hub-cli.py:41-45 | `FilterMap(f, xs)` is the loop `for x in xs: m = f(x); if m: out.append(m)`; run over two lists one after the other it collects the values of the first followed by those of the second |
| `PyStr.FilterMapFrom` | rpi-audio-hub-cli.py:41-45 | every value the appending loop collects was found in some element of the input |
| `PyStr.FilterMapAllFound` | rpi-audio-hub-cli.py:41-45 | when a value is found in every element, the loop collects exactly those values, one per element, in order |
| `PyStr.IntTextValue` | rpi-audio-hub-cli.py:105 | `IntText(n)` is `f"{n}"`: the decimal text written for an integer, sign included, reads back as that integer |
| `Bluetooth.GroupsMatchLayout` | rpi-audio-hub-cli.py:40 | `([0-9A-Fa-f]{2}:){n}[0-9A-Fa-f]{2}` read group by group matches exactly when the first 3n+2 characters are hex pairs separated by `:` |
| `Bluetooth.MacPatternIff` | rpi-audio-hub-cli.py:166 | the MAC pattern matches at the front exactly when the first 17 characters are six hex pairs joined by `:` |
| `Bluetooth.FindMatch` | rpi-audio-hub-cli.py:42 | `MatchAt(line, i)` is the pattern `Device (MAC) (.+)` matching from index `i`; the search returns a position where it matches with none before it, or reports that no position matches |
| `Bluetooth.ParseLine` | rpi-audio-hub-cli.py:40-45 | a line yields a record exactly when it has a match; the record is the MAC and name of the leftmost match |
| `Bluetooth.ParseLineAt` | rpi-audio-hub-cli.py:42-45 | conversely, the leftmost match of a line is the one whose MAC and name become its record |
| `Bluetooth.ParseLineWellFormed` | rpi-audio-hub-cli.py:40-45 | a parsed record has a MAC of 17 MAC-shaped characters and a non-empty name without newline |
| `Bluetooth.ParseLines` | rpi-audio-hub-cli.py:41-45 | at most one record per line |
| `Bluetooth.ParseLinesWellFormed` | rpi-audio-hub-cli.py:41-45 | every record in the list is well formed |
| `Bluetooth.ParseLinesAppend` | rpi-audio-hub-cli.py:41-46 | the records of concatenated line lists are the concatenated records, in order |
| `Bluetooth.NonMatchingLineIgnored` | rpi-audio-hub-cli.py:42-43 | a line without a match contributes nothing |
| `Bluetooth.MatchingLineKept` | rpi-audio-hub-cli.py:43-45 | a matching line contributes exactly its record, at its own place |
| `Bluetooth.DuplicatesKept` | rpi-audio-hub-cli.py:45 | a repeated line gives a repeated record; nothing is deduplicated |
| `Bluetooth.ParsedFromSomeLine` | rpi-audio-hub-cli.py:41-45 | every record is the parse of some input line |
| `Bluetooth.ParsePrefixedLine` | rpi-audio-hub-cli.py:42-45 | text without a `D` before a device line, such as `[NEW] `, does not disturb the match |
| `Bluetooth.ParseFormatLine` | rpi-audio-hub-cli.py:40-45 | `Device <mac> <name>` parses back to the record `(mac, name)` |
| `Bluetooth.ParseFormattedTranscript` | rpi-audio-hub-cli.py:38-46 | a transcript of device lines parses back to exactly those records, in order, duplicates included |
| `Bluetooth.OneDeviceTranscript` | rpi-audio-hub-cli.py:55-62 | a transcript of one device line and a newline yields exactly that one record |
| `Bluetooth.CollectDevices` | rpi-audio-hub-cli.py:41-45 | `ParseDevices(t)` is the record list of the lines of `t`; the appending loop over the lines computes exactly it |
| `Bluetooth.GetPairedDevices` | rpi-audio-hub-cli.py:36-46 | one `devices Paired` session, and the records of its transcript |
| `Bluetooth.ScanDevices` | rpi-audio-hub-cli.py:48-63 | sessions `scan on`, `scan off`, `devices` in that order, and the records of the last transcript |
| `Bluetooth.SuccessPhraseSucceeds` | rpi-audio-hub-cli.py:75 | `Connection successful` anywhere in the transcript means success |
| `Bluetooth.AlreadyConnectedSucceeds` | rpi-audio-hub-cli.py:75 | `already connected` in any letter case anywhere in the transcript means success |
| `Bluetooth.SuccessSurvivesMoreOutput` | rpi-audio-hub-cli.py:75 | more output around a successful transcript keeps it successful |
| `Bluetooth.ConnectSucceededIff` | rpi-audio-hub-cli.py:74-75 | `ConnectSucceeded(t)` holds exactly when `Connection successful` occurs in `t`, or some 17 consecutive characters of `t` read `already connected` once lower-cased; every other transcript is a failure |
| `Bluetooth.NoPhraseFails` | rpi-audio-hub-cli.py:75 | a transcript without `C`, `a` or `A` cannot contain either phrase, so it is a failure |
| `Bluetooth.SuccessPhraseIsCaseSensitive` | rpi-audio-hub-cli.py:75 | `connection successful` in lower case alone is not success |
| `Bluetooth.ValidMacInputIff` | rpi-audio-hub-cli.py:165-166 | `ValidMacInput(raw)`, the check of option 3 on the stripped input, accepts exactly when the stripped input begins with 17 MAC-shaped characters |
| `Bluetooth.TrailingTextAccepted` | rpi-audio-hub-cli.py:166 | a MAC address followed by any text passes the check |
| `Bluetooth.SeventhGroupAccepted` | rpi-audio-hub-cli.py:166 | `AA:BB:CC:DD:EE:FF:00` passes the check |
| `Bluetooth.FiveGroupsRejected` | rpi-audio-hub-cli.py:166 | `AA:BB:CC:DD:EE` fails the check |
| `Bluetooth.PaddedAddressAccepted` | rpi-audio-hub-cli.py:165-166 | a MAC address typed with any whitespace before and after it passes the check |
| `Pulse.SinkName` | rpi-audio-hub-cli.py:85 | the sink name starts with `bluez_sink.`, ends with `.a2dp_sink`, is 21 characters longer than the address, holds the address with each `:` turned into `_`, and contains no `:` at all |
| `Pulse.SinkNameRoundTrip` | rpi-audio-hub-cli.py:85 | the address is recovered from its sink name whenever it held no `_` |
| `Pulse.SinkNameInjective` | rpi-audio-hub-cli.py:85 | different MAC-shaped addresses get different sink names |
| `Pulse.SinkNameCollision` | rpi-audio-hub-cli.py:85 | outside MAC-shaped input, `0:1` and `0_1` get the same sink name |
| `Pulse.FirstUsbIndex` | rpi-audio-hub-cli.py:99-102 | the index of the first line naming a USB input, or the number of lines when no line does |
| `Pulse.SelectUsbSource` | rpi-audio-hub-cli.py:98-102 | `IsUsbInput(line)` is the lower-cased line containing both `usb` and `input`, `SourceId(line)` its text before the first tab; the result is nothing exactly when no line is a USB input, otherwise the id of the first line that is |
| `Pulse.LaterSourcesIgnored` | rpi-audio-hub-cli.py:99-102 | lines after the first USB input line play no part |
| `Pulse.FindUsbSource` | rpi-audio-hub-cli.py:98-102 | the loop with `break` computes the same source as SelectUsbSource |
| `Pulse.VolumeCallsFor` | rpi-audio-hub-cli.py:97-111 | first the source listing; the source-volume call exactly when the first USB input line has a non-empty id, and with that id; always last the sink-volume call on `@DEFAULT_SINK@` |
| `Pulse.NoUsbSourceSkipsInputVolume` | rpi-audio-hub-cli.py:104-111 | without any USB input line, only the listing and the sink-volume call are issued |
| `Pulse.EmptySourceIdSkipsInputVolume` | rpi-audio-hub-cli.py:101-108 | a first USB input line starting with its tab gives an empty id, and no source-volume call |
| `Pulse.SetVolumes` | rpi-audio-hub-cli.py:94-112 | `VolumeCalls` is VolumeCallsFor on the lines of the stripped output, the strip being `run_cmd`'s; the method issues exactly those calls |
| `Pulse.PercentReadsBack` | rpi-audio-hub-cli.py:105-111 | a percentage argument is the number in decimal followed by `%`, and reads back as that number |
| `Menu.SelectPaired` | rpi-audio-hub-cli.py:155-158 | cancels exactly for 0 and numbers above the count; 1..count select the device shown under that number; negative numbers select from the end, or raise IndexError when `idx <= -count` |
| `Menu.MenuNumbersSelectShownDevice` | rpi-audio-hub-cli.py:156-158 | for non-negative numbers a device is selected exactly for 1..count, and no IndexError occurs |
| `Menu.SelectedIsListed` | rpi-audio-hub-cli.py:158 | a selected device is one of the listed devices |
| `Menu.MinusOneSelectsLastButOne` | rpi-audio-hub-cli.py:156-158 | typing -1 selects the last device but one, or raises IndexError when one device is listed |
| `Menu.PairedOption` | rpi-audio-hub-cli.py:146-162 | `ConnectAndRoute(mac, t)` is the connect session followed by `SetDefaultSinkArgs(mac)`, the `pactl set-default-sink` call, only when `t` is a success; the paired listing comes first; nothing else happens when no device is listed or the number cancels; a selected device is connected and routed only on success; the program ends exactly on an IndexError, and then after the listing alone |
| `Menu.PairedOptionRoutesOnlyOnSuccess` | rpi-audio-hub-cli.py:159-160 | a set-default-sink call in option 2 implies a successful connect transcript; it names the sink of the connected listed device, from which its address is recovered |
| `Menu.AddressOption` | rpi-audio-hub-cli.py:164-170 | no call exactly when the check fails; otherwise the connect session and the set-default-sink call with the whole stripped input |
| `Menu.AddressOptionOnPaddedAddress` | rpi-audio-hub-cli.py:165-168 | a MAC address typed with any whitespace before and after it is connected and routed under its own sink name |
| `Menu.AddressOptionKeepsTrailingText` | rpi-audio-hub-cli.py:165-168 | an address with trailing text is passed on whole, so the sink name carries the extra text |

## Left out

- `run_cmd` and `run_bluetoothctl` (rpi-audio-hub-cli.py:9-34): process control, the prompt pattern, end-of-stream and time-out handling, and `sys.exit` belong to the operating system and `pexpect`. The text they return is a parameter.
- `time.sleep` pacing and the 12-second scan wait (rpi-audio-hub-cli.py:27, 52): these are wall-clock timing only.
- `show_status` (rpi-audio-hub-cli.py:114-122) and the loopback load of option 6 (rpi-audio-hub-cli.py:185): these only print or pass output through. The `"|"` at line 118 is one argument handed to `pactl`, not a shell pipe.
- The menu loop, `print`, `input` and the `int()` conversions of typed text (rpi-audio-hub-cli.py:124-193), including the `ValueError` path and the listing of option 1: console I/O.
- Exit statuses of `pactl` calls: whether a call fails, and the `try`/`except` of `set_default_sink`, depend on the external tool. For the record, `sys.exit` raises `SystemExit`, which `except Exception` does not catch.
- Menu.PairedOption: `crashed` covers only the IndexError of the index guard. It does not cover a failing `pactl` call that ends the program.
- PyStr.Lines: only `\n` ends a line. Python's `splitlines` also splits on `\r`, `\x0b`, `\x0c`, `\x1c` to `\x1e`, `\x85` and two Unicode separators. So for a transcript with `\r\n` line ends the model's device names keep a trailing `\r`, where the program's do not.
- PyStr.Lower: only ASCII letters are lower-cased. PyStr.IsSpace: only ASCII whitespace is recognised; the Unicode spaces known to `str.isspace` are not.
