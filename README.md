# MikroTik PoE monitor: a verified model of `MikroTikSSHDevice`

This project models the `MikroTikSSHDevice` class of `mikrotik.py`, the power
monitor's driver for a MikroTik switch, in Dafny. The driver does four things:

- it reads the list of configured interfaces (`name,id;name,id;…`) into an
  insertion-ordered dict;
- it cuts the interface names into groups of four, one remote command per group;
- it polls every group once at start-up and caches the parsed table per group;
- it answers `get_interface_poe(name)` from the cache while a poll is in flight
  (marking the record `cached = True`), and otherwise polls the name's group and
  answers from the new table (`cached = False`).

The SSH call is not modelled. Each poll takes the switch's reply as an argument:
either the command's standard output or a transport failure. A ghost log
(`commands`) records the command each poll would send.

Files:

- `wrappers.dfy`: `Option` and `Result`, and the Python exceptions the driver
  can raise, as the `Error` datatype.
- `text.dfy`: the string operations the driver relies on: `str.split`,
  `str.join`, `str.rstrip` and `re.split(r" +", …)`. Split and join come with
  round-trip lemmas; `re.split` is tied to `str.split` of the text with its
  runs of spaces squeezed.
- `ordered_maps.dfy`: Python's insertion-ordered `dict` with string keys.
  `d[k] = v` keeps an existing key in its place.
- `registry.dfy`: interface-list parsing, grouping into fours, and the group
  lookup.
- `table_parser.dfy`: `_parse_result`. It holds the tokeniser, the per-row step
  as a function, the column loop as a method proved against it, and the
  properties of the "off" ports.
- `device.dfy`: the class `MikroTikSSHDevice`. Its fields are the interfaces,
  the groups, the cache, the "being polled" flag and a ghost log of the
  commands sent. It holds `__post_init__`, `_poll_interface_group` and
  `get_interface_poe`, and pure functions (`ReadPoe`, `Prime`, `Startup`) that
  state what each call does to the state.

Python's exceptions become `Failure` results:

| Python exception | `Error` value | cause |
|---|---|---|
| `TypeError` from `__setitem__(*parts)` | `InterfaceSpecError(item)` | an item that is not one `name,id` pair |
| `IndexError` | `IndexError` | too few rows or tokens in the output |
| `KeyError` | `KeyError` | a missing group or port in the cache |
| `TypeError` from `",".join(None)` | `TypeError` | a name in no group |
| any exception out of the SSH `run` | `RemoteError` | transport failure |

## Behaviour of the code worth knowing

- Groups hold the interface names, i.e. the dict keys, not the device ids
  (mikrotik.py:19).
- A trailing remainder of fewer than four names forms no group
  (mikrotik.py:21-23). Those names can never be read: `UngroupedNameFails`.
- The value of a port that is still on is read at `i - column_decrimator`, which
  `RowStepPort` and `ValueIndexFits` state. This reads the right token only when
  value rows leave out the tokens of ports that are already off. If a value row
  still had a token for every port and port 3 of 4 were off, port 4 would read
  port 3's token (a full-width row `2.1 1.9 0.0 3.0` gives port 4 `0.0`). The
  model follows the code on either row shape: it accepts full-width rows and
  gives port 4 `0.0` there too.
- Asking for a name in no group while no poll is in flight sets the flag. The
  command is never sent, because `",".join(None)` raises `TypeError`. The flag
  then stays set for good, so every later read is served from the cache
  (`ReadFlag`, `UngroupedNameFails`). The same happens after a transport
  failure.
- A read with the flag clear of a grouped name that the reply's table lacks
  stores the new table first (mikrotik.py:47) and then raises KeyError at
  mikrotik.py:84 (`ReadSucceeds`).
- If the output cannot be parsed, the flag is already cleared and the group's
  snapshot is left as it was (`ReadPollFailure`).
- The record returned by `get_interface_poe` is the cached record itself. The
  `cached` key is therefore written into the cache as well (`ReadStores`).

## Model

| member | source | states |
|---|---|---|
| Text.SplitPiecesLackSep | mikrotik.py:13 | no piece of a split contains the separator, whatever its length, and the first piece is a prefix of the text |
| Text.SplitOneChar | mikrotik.py:13 | a one-character split has one piece more than there are separators, and no piece holds the separator |
| Text.JoinSplit | mikrotik.py:13 | joining the pieces of a split with the same separator gives the text back |
| Text.SplitJoin | mikrotik.py:44 | splitting the join of separator-free pieces gives the pieces back |
| Text.RStrip | mikrotik.py:54 | the result is the longest prefix that does not end in whitespace; everything cut is whitespace |
| Text.SplitSpaces | mikrotik.py:54 | no piece holds a space and no middle piece is empty; the first piece is empty exactly when the text is empty or starts with a space; the last is non-empty when the text ends in a non-space |
| Text.SplitSpacesKeepsText | mikrotik.py:54 | the pieces, concatenated, are the text with its spaces removed |
| Text.SplitSpacesFirst | mikrotik.py:54 | the first piece is the text before its first space |
| Text.SplitSpacesJoin | mikrotik.py:54 | the pieces joined with one space are the text with each run of spaces squeezed to one space |
| Text.SplitSpacesIsSplitOfSqueeze | mikrotik.py:54 | the pieces are exactly `str.split(" ")` of the squeezed text, which fixes where the text is cut |
| OrderedMaps.OrderedMap.Put | mikrotik.py:13 | `d[k] = v`: `k` maps to `v` and every other key keeps its value; an existing key keeps its place, a new one goes last; no key is repeated |
| OrderedMaps.FromKeys | mikrotik.py:55 | `{k: v for k in ks}`: the keys are the distinct keys of `ks` in first-occurrence order, and every value is `v` |
| OrderedMaps.PutKeepsOrder | mikrotik.py:13 | after `d[k] = v` the keys are the first occurrences of the keys written so far |
| Registry.PairIsOneComma | mikrotik.py:13 | an item is accepted exactly when it holds one comma; it is then name, comma and id, and neither part holds a comma |
| Registry.LoadInterfaces | mikrotik.py:11-13 | the loop over the `;`-separated items builds the dict that `Load` defines, or stops with the error of the first malformed item |
| Registry.LoadFails | mikrotik.py:12-13 | the first malformed item makes the whole list fail with that item's error |
| Registry.LoadFailureSticks | mikrotik.py:12-13 | once a prefix of the items fails, the whole list fails the same way |
| Registry.LoadIsWellFormed | mikrotik.py:11-13 | the list loads only when every item is a `name,id` pair |
| Registry.LoadPrefixSucceeds | mikrotik.py:11-13 | a list of pairs always loads |
| Registry.LoadKeys | mikrotik.py:11-13 | the loaded dict has no repeated key, and its keys are the names in order of first appearance |
| Registry.LoadLastWins | mikrotik.py:13 | each name maps to the id of its last item, so a repeated name takes the later id |
| Registry.GroupInterfaces | mikrotik.py:17-23 | the loop cuts the first `4 * (N / 4)` names into consecutive groups of exactly four; the remainder forms no group |
| Registry.GroupingIsUnique | mikrotik.py:17-23 | there is exactly one such grouping, `Grouped(names)` |
| Registry.GroupsCoverPrefix | mikrotik.py:17-23 | the groups, concatenated, are exactly the names before the remainder |
| Registry.GroupOfName | mikrotik.py:19-23 | with distinct names, the name at position `k` is in group `j` exactly when `j == k / 4` |
| Registry.GroupContaining | mikrotik.py:37-40 | None exactly when no group holds the name; otherwise the first group that holds it |
| Registry.LookupOfName | mikrotik.py:37-40 | a configured name is found in group `k / 4` if it is before the remainder and in no group otherwise; an unconfigured name is in no group |
| TableParser.Tail | mikrotik.py:54 | `s[1:]`: the elements after the first, none for an empty list |
| TableParser.DropLastTwo | mikrotik.py:54 | `s[:-2]`: the prefix two shorter, empty for two elements or fewer |
| TableParser.RowTokens | mikrotik.py:54 | the tokens of a line after its first piece: none is empty, none holds a space, and the right-stripped line with its runs of spaces squeezed is its first word followed by the tokens, each after one space |
| TableParser.Tokenise | mikrotik.py:54 | one token row per `\r\n`-line, the last two lines dropped |
| TableParser.FieldName | mikrotik.py:59 | `row[0][:-1]`: the label without its last character |
| TableParser.ValueIndexFits | mikrotik.py:58-69 | a port still on reads a value position below the number of ports still on |
| TableParser.TurnedOffAt | mikrotik.py:71-74 | a row turns a port off exactly when it is the `poe-out-status` row and the port's token, at its own column, is not `powered-on` |
| TableParser.RowStepKeepsPorts | mikrotik.py:57-74 | a row fails exactly when it is too short for the ports it must fill; otherwise the ports and their order stay, and the off set only grows |
| TableParser.RowStepPort | mikrotik.py:62-74 | a port already off keeps its record; a port still on gets the row's field from position `i - column_decrimator`, which is at most `i`; the port turns off when its status token is not `powered-on`, and it keeps that row's status |
| TableParser.RunEffect | mikrotik.py:57-74 | over all data rows, the ports and their order stay, the off set only grows, and a port that is off takes no field from any later row |
| TableParser.ParseKeys | mikrotik.py:54-55 | the parsed table has one record per distinct header token after the label, in header order |
| TableParser.ColumnPassIsRowStep | mikrotik.py:58-74 | the column loop, which tests the off set as it grows during the row, computes the same row step as testing the set the row started with |
| TableParser.ColumnBody | mikrotik.py:63-74 | one column: IndexError when its value or status token is missing; otherwise the loop variables advance as `Advance` says |
| TableParser.ApplyRow | mikrotik.py:58-74 | the loop over the columns of one row ends in the row's step (or its IndexError) |
| TableParser.ParseResult | mikrotik.py:51-75 | `_parse_result` returns the table `Parse` defines, or IndexError for output with no header or a row too short |
| Device.CommandNamesGroup | mikrotik.py:44 | the command names exactly the group's ports: its argument, split on commas, gives the group back |
| Device.Receive | mikrotik.py:44-46 | the call raises exactly when the transport failed, and then it raises RemoteError; a completed call is parsed |
| Device.ReceivedIsValid | mikrotik.py:46 | a parsed reply has no port twice |
| Device.Mark | mikrotik.py:81-85 | `snapshot[name]["cached"] = b`: KeyError exactly when the port is missing; otherwise the record gains the marker, its other fields, the other ports and the port order are unchanged |
| Device.ReadPolls | mikrotik.py:78-87 | while a poll is in flight a read sends nothing, keeps the flag set and marks its answer cached; otherwise it sends exactly the command of the name's group and marks its answer fresh |
| Device.ReadFlag | mikrotik.py:43-45 | after a read that found the flag clear, the flag is set exactly when the name is in no group or the transport failed |
| Device.ReadStores | mikrotik.py:47 | a successful read returns the record stored in the cache for the name's group; other groups' snapshots are untouched; only the name's group can gain a snapshot |
| Device.ReadReturns | mikrotik.py:79-86 | a successful read returns, apart from the marker, the record cached for the name while a poll is in flight, and otherwise the name's record in the table just parsed; the group's snapshot keeps its ports and changes only that record |
| Device.ReadSucceeds | mikrotik.py:79-86 | a read succeeds exactly when the name is in a group and, while a poll is in flight, the group's cached snapshot holds the name, or otherwise the reply parses to a table holding the name; a parsed table without the name is stored and the read raises KeyError |
| Device.ReadPollFailure | mikrotik.py:44-47 | when the poll fails the cache is unchanged and the read fails with the poll's error |
| Device.ReadKeepsValid | mikrotik.py:47 | reads keep every cached snapshot free of repeated ports |
| Device.ReadKeepsCover | mikrotik.py:78-87 | reads neither drop a group's snapshot nor add one for something that is not a group |
| Device.UngroupedNameFails | mikrotik.py:79-84 | a name that is unconfigured or in the remainder fails with KeyError (poll in flight) or TypeError (otherwise); nothing is sent, the cache is unchanged and the flag is left set |
| Device.PrimeSucceeds | mikrotik.py:27-28 | start-up succeeds exactly when every group's poll succeeds |
| Device.PrimeCache | mikrotik.py:27-28 | after start-up the cache holds a snapshot for every group and nothing else, each the parse of that group's reply |
| Device.PrimeFirstFailure | mikrotik.py:27-28 | a failed start-up reports the error of the first group whose poll fails, all earlier polls having succeeded |
| Device.PrimeFailureSticks | mikrotik.py:27-28 | once a poll fails, later groups do not change the start-up's error |
| Device.MikroTikSSHDevice.Create | mikrotik.py:10-28 | `__post_init__` fails exactly when `Startup` does, with its error; otherwise the device has its interfaces, groups and cache, one snapshot per group, the flag clear, and one command sent per group in order |
| Device.MikroTikSSHDevice.Configure | mikrotik.py:11-23 | loads the interface list or fails with the first malformed item; groups the names into `Grouped(keys)` |
| Device.MikroTikSSHDevice.PollAll | mikrotik.py:27-28 | polls the groups in order and stops at the first failure; on success the cache is `Prime`'s and the commands are one per group |
| Device.MikroTikSSHDevice.PollNext | mikrotik.py:27-28 | one round of the start-up loop: polls group `j`; on failure the error is that of `Prime` over the first `j + 1` groups, otherwise the cache is `Prime`'s over them, the flag is clear and one command more is logged |
| Device.MikroTikSSHDevice.PollInterfaceGroup | mikrotik.py:42-49 | sets the flag, sends the group's command, clears the flag only when the call returns, and replaces the group's snapshot only with a parsed table; TypeError with no command for a missing group |
| Device.MikroTikSSHDevice.StoreParsed | mikrotik.py:45-49 | clears the flag and stores the parsed table for the group, keeping every snapshot free of repeated ports |
| Device.MikroTikSSHDevice.GetInterfacePoe | mikrotik.py:78-87 | the result, cache, flag and commands sent are those `ReadPoe` gives; the interfaces and groups are unchanged, and the device stays well formed and primed |
| Device.MikroTikSSHDevice.ServeCached | mikrotik.py:81-82 | returns the stored record marked cached, written back into the cache; KeyError for a missing group or port |
| Device.MikroTikSSHDevice.ServePolled | mikrotik.py:84-85 | polls the name's group, then returns its new record marked fresh, as `ReadFresh` says |
| Device.MikroTikSSHDevice.ServeFresh | mikrotik.py:84-85 | the record of the name in the new snapshot, marked fresh in the cache as well |

## Left out

- The SSH transport: `_get_conn`, `fabric.Connection` and `run` (mikrotik.py:30-35, 44). Each poll takes the reply (`Completed(stdout)` or `TransportFailed`) as an argument. The command string goes only to a ghost log.
- The environment variables (mikrotik.py:12, 32-34). The interface list is a parameter of `Create`, and a missing variable's `KeyError` is not modelled.
- `threading.Event` and real concurrency (mikrotik.py:14, 43, 45, 80). The flag is a plain `bool`, and no interleaving of threads is modelled. A read "while a poll is in flight" is a read that finds the flag set.
- The `__main__` demo (mikrotik.py:89-99): dotenv loading, threads, `sleep` and printing.
- The regular-expression engine. `re.split(r" +", …)` is modelled as splitting on runs of the space character.
- Device.MikroTikSSHDevice.GetInterfacePoe: the returned dict and the cached record are one object in Python. The model returns the record by value and writes the same value into the cache, so later mutation through the returned dict is not modelled.
- Python's exception types are reduced to the five `Error` values. Messages and tracebacks are not modelled.
