# mac_changer, modelled in Dafny

A model of the core of `mac_changer.py`, a command-line tool that changes a
network interface's hardware (MAC) address. It covers:

- the address format check;
- the vendor lookup from the fixed prefix table;
- the random address generator;
- the three-command change sequence;
- the JSON backup file and restore;
- the "regenerate until different" loops;
- the rotation loop;
- the decisions `cli()` takes: the default to a random change, the `-m` check, the interface menu, backup before any change, and restore without backup;
- the Linux interface-name scanner over `ip link` output.

Modules, one per file:

- `Wrappers`: `Option`.
- `Text`: character classes and ASCII `upper()`/`lower()`. Also Python's `split(":")`/`":".join`, with a reference definition of "the first n fields".
- `MacFormat`: the `re.match` check of `-m`, proved equal to a positional description.
- `Vendor`: `VENDOR_PREFIXES` and `get_vendor`, characterised exactly.
- `Generator`: `random_mac`, with the random choices passed in as a `Draw`.
- `Backup`: the backup file as a value (`Missing`, `Unreadable` or a map), with `backup_mac` and `restore_mac`'s lookup.
- `Regenerate`: the first candidate that differs ignoring case. `PickNewMac` is the loop, proved against it.
- `LinkScan`: `re.findall(r'\d+: (\w+):', output)` as a scanner, with `detect_interfaces`.
- `Host`: a `Machine` class whose fields are the backup file and the ordered trace of effects (shell commands, backup writes).
  - Its methods are `change_mac`, `backup_mac`, `restore_mac` and `rotate_mac`.
  - Every trace it produces is well formed: whole down / set-address / up blocks and backup writes.
- `Cli`: flag dispatch, the menu loop, and `Run`, which is `cli()` against a `Machine`.

The outside world is a parameter:

- the `ip link` output;
- the menu inputs (already parsed by `int()`, with `None` for a `ValueError`);
- what `get_mac` returns;
- the clock (an opaque string);
- whether the backup file can be written;
- the random draws;
- the per-tick readings of the rotation loop.

The unbounded loops (the menu, regenerate until different, rotation) run over these finite inputs. Running out of them is an outcome of the model only.

Three behaviours of `mac_changer.py` that the model keeps:

- `re.match` with `$` also accepts an address followed by one `"\n"` (`MacFormat.AcceptsOneTrailingNewline`).
- `restore_mac` with no backup file reports "Restore failed", because `open` raises. It does not report "No backup found".
- `backup_mac` on a file that exists but cannot be loaded writes nothing.

## Model

| member | source | states |
|---|---|---|
| MacFormat.ValidMacFormat | mac_changer.py:131 | the model of the `re.match` check: five hex pairs each followed by ':' and a sixth pair (`Groups`), then the end of the string or one final "\n" before it |
| MacFormat.ValidMacFormatIff | mac_changer.py:131 | the regex accepts exactly 17 characters with ':' at positions 2, 5, 8, 11 and 14 and hex digits elsewhere, or that followed by a single newline |
| MacFormat.GroupsIff | mac_changer.py:131 | the group-by-group reading of `([0-9A-Fa-f]{2}:){n}[0-9A-Fa-f]{2}` is equivalent to the positional description |
| MacFormat.ValidMacFormatWithoutNewline | mac_changer.py:131 | for input without a newline the check is exactly the canonical shape |
| MacFormat.AcceptsCanonical | mac_changer.py:131 | "00:11:22:33:44:55" is accepted |
| MacFormat.AcceptsMixedCase | mac_changer.py:131 | mixed-case hex digits are accepted |
| MacFormat.RejectsWrongGroupCount | mac_changer.py:131 | five or seven groups are rejected |
| MacFormat.RejectsBadCharacters | mac_changer.py:131 | '-' separators and non-hex digits are rejected |
| MacFormat.AcceptsOneTrailingNewline | mac_changer.py:131 | one trailing "\n" is accepted, two are not |
| Text.Split | mac_changer.py:41 | the model of `str.split(":")`: at least one field, no field contains ':', empty fields kept |
| Text.Join | mac_changer.py:41 | the model of `":".join`: the fields with ':' between consecutive ones |
| Text.Upper | mac_changer.py:41 | the model of `str.upper()` on ASCII: each 'a'..'z' becomes its capital, every other character stays |
| Text.SameMac | mac_changer.py:96 | the tool's address comparison `a.lower() == b.lower()`, used by the rotation loop and by the one-shot change at line 180 |
| Text.JoinSplit | mac_changer.py:41 | `":".join(s.split(":")) == s` |
| Text.TakeFieldsIsPrefix | mac_changer.py:41 | joining the first n split fields gives the prefix of the string before its n-th ':' (or the whole string) |
| Text.FieldsPrefixIff | mac_changer.py:41 | that prefix equals a string p with n-1 colons exactly when p starts the string and is followed by ':' or the end |
| Text.UpperOfSameMac | mac_changer.py:41 | strings equal ignoring case have the same `upper()` |
| Vendor.PrefixKey | mac_changer.py:41 | the model of `":".join(mac.upper().split(":")[:3])`, characterised by `Text.TakeFieldsIsPrefix` and `Vendor.VendorIff` |
| Vendor.Lookup | mac_changer.py:42 | `dict.get` finds nothing exactly when no entry has the key, and otherwise returns an entry's value for that key |
| Vendor.GetVendor | mac_changer.py:40-42 | the result is "Unknown" or one of the table's vendor names |
| Vendor.TableFacts | mac_changer.py:15-19 | every key satisfies `IsKey`: eight characters, ':' at positions 2 and 5, upper-case hex digits elsewhere; hence two colons and its own upper-case form; keys and names are pairwise distinct and no name is "Unknown" |
| Vendor.VendorIff | mac_changer.py:40-42 | an address gets the i-th vendor exactly when its upper-cased form starts with the i-th key as three whole fields |
| Vendor.VendorUnknownIff | mac_changer.py:40-42 | "Unknown" exactly when no key starts the upper-cased address |
| Vendor.VendorIsCaseInsensitive | mac_changer.py:40-42 | addresses equal ignoring case have the same vendor |
| Vendor.VendorOfRecased | mac_changer.py:40-42 | upper- or lower-casing first does not change the vendor |
| Vendor.VendorOfDellExample | mac_changer.py:40-42 | "00:14:22:aa:bb:cc" is Dell |
| Vendor.VendorOfUnlistedExample | mac_changer.py:40-42 | "00:14:23:aa:bb:cc" is Unknown |
| Generator.RandomMac | mac_changer.py:44-47 | the model of `random_mac()` for one draw: the drawn key's fields followed by three two-digit lower-case hex octets, joined by ':' |
| Generator.Hex2 | mac_changer.py:46 | `f"{n:02x}"` is two lower-case hex digits whose value is n |
| Generator.RandomMacShape | mac_changer.py:44-47 | every generated address satisfies `ValidMacFormat`, starts with the drawn key, ends in lower-case hex, and its last three octets read back as the drawn values |
| Generator.RandomMacVendor | mac_changer.py:44-47 | every generated address gets the vendor of its drawn key, never "Unknown" |
| Backup.AfterBackup | mac_changer.py:63-74 | a successful backup sets the interface's record to (address, time) and keeps every other record; a failed load or write leaves the file unchanged |
| Backup.RestoreLookup | mac_changer.py:76-87 | restore finds the stored original address exactly when the file loads and has the interface; it fails exactly when the file does not load |
| Backup.BackupThenRestore | mac_changer.py:63-87 | restoring after a successful backup asks for the backed-up address |
| Backup.BackupOverwrites | mac_changer.py:69-71 | a second backup of the same interface replaces the first record |
| Backup.BackupKeepsOtherRestores | mac_changer.py:63-87 | backing up one interface does not change what restoring another finds, once the backup file exists |
| Regenerate.Candidates | mac_changer.py:179 | the addresses the change loop tries in order: the `-m` value if given, then one generated address per draw |
| Regenerate.RandomMacs | mac_changer.py:179-181 | the i-th draw yields the i-th generated address |
| Regenerate.FirstDifferent | mac_changer.py:96-97 | nothing is found exactly when all candidates equal the current address ignoring case; otherwise the result differs from it and every earlier candidate equals it |
| Regenerate.PickNewMac | mac_changer.py:179-181 | the loop returns the first candidate (`-m` value, then draws) that differs from the current address ignoring case; a valid `-m` value that already differs is kept |
| Host.ChangeSteps | mac_changer.py:52-56 | the `cmds` list of `change_mac`: interface down, set the address, interface up |
| Host.WellFormedAppend | mac_changer.py:50-61 | well-formed traces (backup writes and whole down/set/up blocks) concatenate to a well-formed trace |
| Host.ChangeStepsEachFacts | mac_changer.py:90-102 | a run of changes is well formed, sets exactly the given addresses in order, and writes no backup |
| Host.AddressesSetAppend | mac_changer.py:50-61 | the addresses a trace sets are those of its parts, in order |
| Host.RotationRunsEveryGoodTick | mac_changer.py:90-102 | for any ending allowed by `RotationEnds`: with a non-negative interval and ticks that each read an address and have a differing draw, every tick applies its first differing draw and only the interrupt ends the loop |
| Host.NegativeIntervalStopsAtFirst | mac_changer.py:94-100 | with a negative interval and a good first tick, the loop ends by the negative sleep after exactly that tick's change |
| Host.TickAppliesDifferent | mac_changer.py:94-97 | a rotation tick always applies an address that differs from the one it read |
| Host.Machine.ChangeMac | mac_changer.py:50-61 | appends down, set-address, up for the interface, in that order, and reports success |
| Host.Machine.BackupMac | mac_changer.py:63-74 | the file becomes `AfterBackup` of the old file; one backup write is recorded exactly when the write happens |
| Host.Machine.RestoreMac | mac_changer.py:76-87 | one change to the stored address when the lookup finds it, no effect otherwise; the file is unchanged |
| Host.Machine.RotateOnce | mac_changer.py:92-98 | one tick: no current address raises; otherwise the first differing draw is applied, or the draws run out |
| Host.Machine.Rotate | mac_changer.py:90-102 | the trace grows by one change per completed tick, and `RotationEnds` holds: each change is to that tick's first differing draw; the loop ends by interrupt after all ticks, by a missing current address, by a negative interval after the first tick, or by running out of draws; with a negative interval at most one change is applied, and one applied change means the negative sleep ended the loop |
| LinkScan.MatchAt | mac_changer.py:28 | a match captures a non-empty word-character name and consumes part of the input |
| LinkScan.MatchShape | mac_changer.py:28 | a match is the leading digit run (at least one digit), then ": ", then the captured name, then ':'; its length is exactly that much of the input |
| LinkScan.MatchesHeader | mac_changer.py:28 | conversely, digits, ": ", a word-character name and ':' at the start of the input always match, capturing that name |
| LinkScan.Scan | mac_changer.py:28 | the model of `re.findall`: try the pattern at each position from the left, resume after a match; every reported name is a non-empty run of word characters |
| LinkScan.DetectInterfaces | mac_changer.py:25-30 | a failed command gives no interfaces; every reported name is a non-empty run of word characters |
| LinkScan.NoIndexMarkAt | mac_changer.py:28 | in a text satisfying `NoIndexMark`, no position holds a digit followed by ": " and a word character |
| LinkScan.NoIndexMarkFrom | mac_changer.py:28 | conversely, a text with no such position satisfies `NoIndexMark` |
| LinkScan.ScanLine | mac_changer.py:28 | a header line "index: name:rest" with a word-character name and no digit followed by ": " and a word character in the rest contributes exactly its name |
| LinkScan.ScanRendered | mac_changer.py:28 | on such header lines exactly the names are reported, in order |
| LinkScan.SkipsNonWordName | mac_changer.py:28 | a header whose name has a character outside `\w` (as in "br-lan" or "veth0@if2") is not reported, when no digit after the index is followed by ": " and a word character |
| LinkScan.SkipsVethPeer | mac_changer.py:28 | the header "5: veth0@if2: <UP>" is not reported: after "2: " comes '<', which is not a word character |
| Cli.Dispatch | mac_changer.py:125-176 | a malformed `-m` aborts; otherwise restore wins over rotation and rotation over a one-shot change, which uses `-m` when given and a random address otherwise |
| Cli.DefaultIsRandom | mac_changer.py:125-127 | with no action flag the plan is a random one-shot change |
| Cli.RandomFlagChangesNothing | mac_changer.py:120-127 | `--random` never changes the plan |
| Cli.MenuChoice | mac_changer.py:145-154 | the menu's selection, defined input by input: the interface numbered by the first accepted input, always one of the listed interfaces |
| Cli.SelectInterface | mac_changer.py:145-154 | the loop selects `interfaces[choice - 1]` for the first input in range, which is `MenuChoice`; every earlier input is rejected |
| Cli.ResolveInterface | mac_changer.py:136-154 | `-i` wins when given; otherwise the run aborts exactly when no interface is detected, or exactly when `MenuChoice` selects nothing; a selected interface is the one `MenuChoice` selects |
| Cli.ChangeOnce | mac_changer.py:179-187 | applies the first candidate that differs from the current address, then reads the address back and names its vendor |
| Cli.BackUpAndChange | mac_changer.py:170-187 | the backup is taken first; then rotation for a rotation plan, ending as `RotationEnds` allows for the plan's interval and the ticks, else the one-shot change, each appended after the backup write |
| Cli.Proceed | mac_changer.py:165-187 | the restore plan restores without backup; every other plan goes through the backup first, and a rotation ends as `RotationEnds` allows |
| Cli.Run | mac_changer.py:105-188 | aborts change nothing; the interface acted on is the `-i` value or `MenuChoice` of the detected interfaces; restore takes no backup and changes at most once, to the stored address; every other path backs up the current address before any change, then rotates, ending as `RotationEnds` allows for `--interval` and the ticks, or changes once to a different address |

## Left out

- Shell command strings, `subprocess`, exit codes and the non-Linux (`ifconfig`) variants are not modelled. Commands are the abstract `Command` values, the same on both platforms.
- `get_mac`'s regex scraping and the non-Linux branch of `detect_interfaces` are not modelled. What `get_mac` returns is an input.
- Host.Machine.ChangeMac: the `except` branch that returns False is not modelled. No failure is visible to the model, so the function always reports success.
- Backup.AfterBackup: JSON parsing and serialisation are not modelled, and neither is a partial write. A file whose JSON is not a mapping of records with both `original_mac` and `timestamp` is `Unreadable`, and the model writes nothing for it. The source differs in one case:
  - a mapping in which some entry (any interface's) lacks a field: `backup_mac` still writes, replacing this interface's entry and keeping the others as they are.
  For any other JSON value (a list, a string, a number) item assignment raises and `backup_mac` writes nothing, as in the model.
- Backup.RestoreLookup: the model reports a restore failure for every `Unreadable` file. The source differs in these cases:
  - a mapping where only other interfaces' entries are malformed: `restore_mac` still finds this interface's record;
  - a mapping where this interface's entry has `original_mac` but no `timestamp`: `restore_mac` restores that address;
  - a JSON list without the interface name, or a JSON string without it as a substring: `restore_mac` reports "No backup found".
  It agrees with the model, reporting "Restore failed", when this interface's own entry lacks `original_mac`, when a list or string does contain the name, and for a number, boolean or `null`.
- `datetime.now()` is an opaque string.
- `argparse` and `int(input(...))` are not modelled. Inputs arrive parsed; EOF on the menu is not modelled.
- Printing and `termcolor` are not modelled.
- Text.Upper: `upper()`/`lower()`, `\d` and `\w` are modelled on ASCII only. Unicode case mapping and Unicode digits and letters are not modelled.
- Host.Machine.Rotate: an interrupt can only arrive during the sleep after the last tick, and the sleep duration is not modelled. An interval too large for `time.sleep` is not modelled.
- Regenerate.PickNewMac: the unbounded regenerate loop runs over a finite sequence of draws. Running out of draws is an outcome of the model only.
- Cli.SelectInterface: the unbounded menu loop runs over a finite sequence of inputs. Running out of inputs is an outcome of the model only.
- Cli.Run: the crash when `get_mac` returns None after the change is the outcome `UpdatedMacMissing`. The crashes inside rotation are outcomes of `Rotate`.
