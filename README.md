# Reboot to boot-loader entry: a Dafny model

This project models the core of a GNOME Shell extension that adds one
"Restart to ..." item per boot-loader entry to the system menu. Choosing an
item opens a confirmation dialog with a sixty-second countdown. When the
countdown runs out, or when the user presses Restart, the extension asks the
login manager (logind) to boot that entry next and then to reboot. Cancel
stops the countdown and issues no call.

The model has four modules:

- `Labels` (`labels.dfy`) holds the string side.
  - The display name of an entry id: strip a trailing `.conf`, replace the
    first `auto-reboot-to-firmware-setup` by `UEFI`, delete the first
    `auto-`, turn the first `-` into a space, then upper-case the first
    character.
  - The `Restart to %s` and countdown-message templates.
  - The decimal rendering of the seconds shown.
  - `String.prototype.replace` with a string pattern is `ReplaceFirst`, a
    left-to-right scan that replaces only the first occurrence.
- `Countdown` (`countdown.dfy`) is the countdown as a pure state machine:
  - activation, the one-second tick, the half-second message refresh, Cancel
    and Restart;
  - the two intervals are flags;
  - the calls to logind are appended, in order, to a trace;
  - whether the logind proxy is held is a flag. `disable` drops the proxy but
    leaves a running countdown alone. `_reboot` then fails on the missing
    proxy before its first call, so no call is made (`DisabledIsSilent`).
- `Menu` (`menu.dfy`) is the host menu as a sequence of items, with:
  - the host's `addMenuItem(item, position)`;
  - the block of items `enable` inserts from position 2;
  - the name table;
  - the removal of items by `disable`.
- `RebootTo` (`extension.dfy`) holds the class `Extension`. Its fields are
  the ones the source mutates, and its methods follow `enable`, `disable`,
  the `activate` handler, the tick closure, `_buildDialog`, the refresh
  closure, the Cancel and Restart actions, `_reboot` and `_clearIntervals`.
  - Each countdown method is proved against the matching `Countdown`
    function through the ghost `Snapshot()`.
  - `Enable` is proved against `ItemsFor`, `Splice` and `NameTable`.
  - `Disable` is proved against `Without`.

Where the code and its comments or documentation disagree, the model follows
the code:

- `Pop_OS-current.conf` is shown as `Pop_OS current`, and the firmware entry
  as `UEFI`. The table commented out in `enable` (other names such as
  `Pop!_OS` and `Firmware Setup`) is not used by the code.
- `auto-` is deleted at its first occurrence anywhere in the id, not only at
  the start, because the pattern has no anchor (`AutoDeletedAnywhere`).
- `disable` keeps the name table. Only the items and the proxy are dropped.
- `disable` does not stop a countdown that is running. Its ticks and its
  Restart button still reach `_reboot`, which then issues no call.

## Model

| member | source | states |
|---|---|---|
| Labels.ReplaceFirst | src/extension.js:94 | at most one occurrence of the pattern is replaced: the length is either kept or changed by exactly one replacement (where it happens is stated by `ReplaceFirstAt` and `ReplaceFirstAbsent`) |
| Labels.StripSuffix | src/extension.js:94 | when the id ends in the suffix, the result followed by the suffix is the id; otherwise the id is unchanged |
| Labels.Capitalize | src/extension.js:95 | the length is kept, only the first character can change, and it changes exactly when it is a lower-case letter, into the same letter in upper case |
| Labels.Substituted | src/extension.js:94 | the four substitutions, in source order, never lengthen the id |
| Labels.PrettyName | src/extension.js:94-95 | capitalising the first character keeps the length of the substituted id, so a display name is never longer than its id |
| Labels.TitleText | src/extension.js:170 | no contract of its own: `TitleTextShape` proves it equal to `Restart to %s` with `%s` replaced by the name |
| Labels.MenuText | src/extension.js:98 | no contract of its own: `TitleTextShape` proves it equal to the replaced restart template followed by `...` |
| Labels.MessageText | src/extension.js:202 | no contract of its own: `MessageTextShape` proves it equal to the countdown template with `%d` replaced by the rendered seconds |
| Labels.ReplaceFirstAt | src/extension.js:94 | `replace` with a string pattern rewrites the first occurrence only: the text before and after it is kept |
| Labels.ReplaceFirstAbsent | src/extension.js:94 | `replace` leaves a string without the pattern unchanged |
| Labels.ReplaceAfterPrefix | src/extension.js:94 | a pattern occurrence with none before it is the one replaced |
| Labels.StripConfSuffix | src/extension.js:94 | `.conf` at the end of an id is removed |
| Labels.StripConfOnlyAtEnd | src/extension.js:94 | a `.conf` followed by a non-empty rest that does not end in `.conf` is kept: the pattern is anchored at the end |
| Labels.ConfInTheMiddle | src/extension.js:94 | the id `x.conf-y` passes the first step unchanged |
| Labels.FirstHyphenOnly | src/extension.js:94 | only the first hyphen becomes a space: with no hyphen nothing changes, otherwise the hyphen at the first index is replaced and exactly one hyphen disappears |
| Labels.FirstHyphenReplaced | src/extension.js:94 | the hyphen at index i, with none before it, is the one turned into a space |
| Labels.HyphenCountDrops | src/extension.js:94 | turning the hyphen at index i into a space removes exactly one hyphen |
| Labels.AutoDeletedAnywhere | src/extension.js:94 | `auto-` is deleted at its first occurrence even when that occurrence is not at the start |
| Labels.CapitalizeIdempotent | src/extension.js:95 | capitalising the first character twice is the same as once |
| Labels.EmptyLabel | src/extension.js:95 | the display name is empty exactly when the substitutions leave nothing |
| Labels.AutoEntryLabel | src/extension.js:94-95 | `auto-<name>`, for a hyphen-free name that is not a `.conf` file, is shown as the capitalised name |
| Labels.ConfEntryLabel | src/extension.js:94-95 | `<distro>-<variant>.conf` is shown as the capitalised `<distro> <variant>` |
| Labels.WindowsLabel | src/extension.js:94-95 | `auto-windows` is shown as `Windows` |
| Labels.PopCurrentLabel | src/extension.js:94-95 | `Pop_OS-current.conf` is shown as `Pop_OS current` |
| Labels.FirmwareLabel | src/extension.js:94-95 | `auto-reboot-to-firmware-setup` is shown as `UEFI` |
| Labels.TitleTextShape | src/extension.js:98 | replacing `%s` in `Restart to %s` gives the title text, and the menu label is that text followed by `...` |
| Labels.MessageTextShape | src/extension.js:201-203 | replacing `%d` in the countdown template with the rendered seconds gives the dialog message |
| Labels.Decimal | src/extension.js:202 | the seconds are rendered as at least one decimal digit, with a leading zero only for 0 |
| Labels.DecimalRoundTrip | src/extension.js:202 | reading the rendered digits back gives the number of seconds |
| Countdown.Initial | src/extension.js:50-65 | before activation no interval runs, no dialog is open and no call has been made |
| Countdown.Connect | src/extension.js:75 | after `enable` the proxy is held, and the countdown, its dialog and the trace are left exactly as they were |
| Countdown.Disconnect | src/extension.js:133 | after `disable` the proxy is gone, and a running countdown, its dialog and the trace are left exactly as they were |
| Countdown.ClearIntervals | src/extension.js:205-208 | both intervals are stopped and nothing else changes |
| Countdown.IssueReboot | src/extension.js:141-145 | with the proxy held, `SetRebootToBootLoaderEntry(entry)` then `Reboot(false)` are appended; without it, line 143 fails on the missing proxy and no call is made; nothing but the trace changes |
| Countdown.Refresh | src/extension.js:192-194 | only the message changes: while the refresh interval runs it is the countdown message for the shown seconds, and once the interval is cleared a refresh changes nothing |
| Countdown.Activate | src/extension.js:100-122 | activation from a state with no countdown running keeps the countdown invariant |
| Countdown.Tick | src/extension.js:110-120 | a tick keeps the countdown invariant: at most 60 seconds left, the shown seconds are the seconds left rounded up to a multiple of ten, both intervals run together, and a running countdown has an open dialog and a chosen entry |
| Countdown.Cancel | src/extension.js:152-155 | Cancel keeps the countdown invariant |
| Countdown.Restart | src/extension.js:160-164 | Restart keeps the countdown invariant |
| Countdown.Ticks | src/extension.js:110-120 | any number of ticks keeps the countdown invariant |
| Countdown.SecondsShown | src/extension.js:111-115 | the shown seconds are a multiple of ten and lie from the seconds left to nine above them |
| Countdown.TickCountsDown | src/extension.js:111-115 | a tick with seconds left takes one off and issues no call; the shown seconds change exactly when the new count is a multiple of ten; both intervals keep running, and the dialog and its message are untouched |
| Countdown.TickFires | src/extension.js:116-119 | a tick at zero clears both intervals and, if the proxy is held, issues `SetRebootToBootLoaderEntry(entry)` then `Reboot(false)`, and otherwise no call; the count, the entry, the dialog and its message are untouched |
| Countdown.IdleTicks | src/extension.js:205-208 | after the interval is cleared, ticks change nothing |
| Countdown.CountingDown | src/extension.js:110-115 | up to `counter` ticks only count down and keep the entry and the proxy |
| Countdown.RunsOut | src/extension.js:110-120 | more ticks than seconds left stop both intervals and issue the two reboot calls exactly once if the proxy is held, and none otherwise |
| Countdown.AutomaticReboot | src/extension.js:100-122 | after activating an entry, the first 60 ticks issue no call; after 61 or more ticks both intervals have stopped and exactly the two reboot calls for that entry have been issued, or none without the proxy |
| Countdown.CancelIsSilent | src/extension.js:152-155 | Cancel issues no call, keeps the count and the entry, closes the dialog, and no later tick issues a call |
| Countdown.RestartReboots | src/extension.js:160-164 | Restart stops both intervals and issues the two reboot calls at once (none without the proxy), and no later tick issues more |
| Countdown.DisabledIsSilent | src/extension.js:130-145 | after `disable`, no tick and no Restart issues a call, and a countdown that runs out still stops both intervals |
| Countdown.RefreshShowsSeconds | src/extension.js:192-194 | the refresh puts the template with `%d` replaced by the shown seconds into the message, and those seconds can be read back from it |
| Menu.Splice | src/extension.js:124 | the block of added items is placed in the menu with nothing lost and nothing else added |
| Menu.NameTable | src/extension.js:88-96 | the keys of the name table after the `forEach` are exactly the entries |
| Menu.Insert | src/extension.js:124 | `addMenuItem` adds exactly one item and keeps every item already there |
| Menu.ItemsFor | src/extension.js:91-93 | one item is built per entry |
| Menu.Without | src/extension.js:131 | after the items are destroyed, the menu holds exactly its items that were not destroyed |
| Menu.InsertExtendsBlock | src/extension.js:124 | inserting the i-th item at position 2 + i extends the block of added items by one |
| Menu.ItemsForAt | src/extension.js:93-98 | the i-th item is the one for the i-th entry |
| Menu.ItemText | src/extension.js:98 | the item `ItemFor` builds for an entry, labelled by `Text`, is labelled `Restart to %s`, with `%s` replaced by the entry's display name, followed by `...` |
| Menu.NameTableContents | src/extension.js:88-96 | the name table has exactly the entries as keys, each mapped to its display name |
| Menu.NameTableExtend | src/extension.js:96 | recording one more entry sets exactly its display name |
| Menu.WithoutOneMore | src/extension.js:131 | destroying items one at a time is the same as removing them all at once |
| Menu.WithoutConcat | src/extension.js:131 | removal works piecewise over a split menu |
| Menu.WithoutNothing | src/extension.js:131 | removing items that are not in the menu changes nothing |
| Menu.WithoutAll | src/extension.js:131 | removing every item of a menu leaves it empty |
| Menu.ItemsForFacts | src/extension.js:91-125 | the added items are pairwise distinct, each is an item for one of the entries, and their identities are fresh |
| Menu.EnabledBookkept | src/extension.js:88-125 | after `enable`, every identity in the menu is below the next one, and every stored item's entry has a name |
| Menu.AddThenRemove | src/extension.js:91-134 | `disable` after `enable` gives back the menu as it was |
| Menu.RemoveBlock | src/extension.js:131 | destroying a block of items spliced between items outside it leaves exactly the items around it |
| RebootTo.Extension.constructor | src/extension.js:67-72 | the extension starts on the host menu with no items, no proxy, an empty name table (undefined in the source until `enable`, see "## Left out") and no countdown |
| RebootTo.Extension.Enable | src/extension.js:74-127 | enable connects the proxy (leaving the countdown as it is, `Countdown.Connect`) and stores one fresh item per entry, in order. The menu becomes the host menu with those items spliced in from position 2, the name table maps every entry to its display name, and the invariant is kept |
| RebootTo.Extension.ConnectProxy | src/extension.js:75 | the proxy is held afterwards and the countdown is left as it is (`Countdown.Connect`) |
| RebootTo.Extension.AddEntries | src/extension.js:88-126 | a fresh name table and item array are filled: the items, the menu and the name table are those of `ItemsFor`, `Splice` and `NameTable`, and the bookkeeping invariant holds |
| RebootTo.Extension.AddItems | src/extension.js:93-126 | the `forEach` over the entries builds the items, the menu and the name table given by the specification functions |
| RebootTo.Extension.AddItem | src/extension.js:93-126 | one `forEach` step extends the items, the menu block and the name table by the entry at `index` |
| RebootTo.Extension.RecordName | src/extension.js:94-96 | the name table grows by the entry's display name |
| RebootTo.Extension.PlaceItem | src/extension.js:98-125 | the new item goes to menu position 2 + index and into slot `index` |
| RebootTo.Extension.Disable | src/extension.js:130-134 | disable removes exactly the stored items from the menu, drops the items, and drops the proxy while leaving the countdown as it is (`Countdown.Disconnect`) |
| RebootTo.Extension.Activate | src/extension.js:100-122 | activating item `index` moves the countdown state as `Countdown.Activate` does for its entry, and the dialog title is the restart text for its display name |
| RebootTo.Extension.BuildDialog | src/extension.js:147-194 | the dialog shows the title for the selected entry's display name and the message for the shown seconds, and the refresh interval is scheduled |
| RebootTo.Extension.Tick | src/extension.js:110-120 | the tick closure moves the countdown state as `Countdown.Tick` does |
| RebootTo.Extension.Refresh | src/extension.js:192-194 | the refresh closure moves the countdown state as `Countdown.Refresh` does |
| RebootTo.Extension.Cancel | src/extension.js:152-155 | the Cancel action moves the countdown state as `Countdown.Cancel` does |
| RebootTo.Extension.Restart | src/extension.js:160-164 | the Restart action moves the countdown state as `Countdown.Restart` does |
| RebootTo.Extension.Reboot | src/extension.js:141-145 | with the proxy held, `_reboot` issues `SetRebootToBootLoaderEntry(selected)` and then `Reboot(false)`; after `disable` it fails on the missing proxy and issues neither |
| RebootTo.Extension.ClearIntervals | src/extension.js:205-208 | both intervals are cleared |

## Left out

- The D-Bus proxy and its interface description (lines 37-48, 75-77) are not modelled as such.
  - The list of boot-loader entries is the argument of `Enable`.
  - The two remote calls are recorded in the `calls` trace.
  - Whether logind accepts them is outside the model.
- Timers: `setInterval` and `clearInterval` are flags. Each firing of an interval is a call of `Tick` or `Refresh`. Wall-clock timing is not modelled.
- Widgets (the menu item objects, the modal dialog, labels, layout and styling) are not modelled. An item is an identity and an entry, and the dialog is its title, its message and an open flag.
- Translation through gettext is taken as the identity on the English strings.
- `replace` replacement patterns are not modelled: entry ids are assumed free of `$`. The source uses the display name as the replacement string in the menu label and the dialog title (lines 98 and 170). For an id with a `$`, it would expand `$&`, `$$`, `` $` `` and `$'` there: the id `a$&b` is titled `Restart to A%sb`, where `TitleText` gives `Restart to A$&b`. The other replacements (lines 94 and 202) hold no `$`.
- `toUpperCase` is modelled on ASCII letters only. Other characters are left as they are.
- The shell version check and the choice of system menu in the constructor (lines 31, 67-72, 136-139) are not modelled. The constructor takes the menu as a parameter.
- The host's `addMenuItem(item, position)` is modelled as inserting before the item at `position`, or appending when the menu is shorter.
- Logging (lines 105 and 142; the one at line 90 is commented out) is not modelled.
- RebootTo.Extension.Activate: requires that no countdown is running. Activating a second item while a countdown runs would start a second interval in the source. The model keeps a single countdown.
- RebootTo.Extension.Disable: requires that `enable` ran before. Otherwise the source's `forEach` throws.
- The exception `_reboot` raises without a proxy is modelled as "no call made"; the error itself, reported by the shell, is not modelled. The intervals were cleared before it, as the model keeps.
- `counter` and `seconds` are undefined in the source until the first activation, and `prettyNames` until the first `enable` (line 88). The model starts the numbers at 0 and the name table empty, and no behaviour depends on those values.
- One `dialogOpen` flag stands for the last dialog built. A dialog's own closing by the host is not modelled.
- Countdown.Activate, Countdown.Tick, Countdown.Cancel, Countdown.Restart, Countdown.Ticks: their own contracts state only that the invariant is kept. What each step does is stated by the lemmas about them (`TickCountsDown`, `TickFires`, `AutomaticReboot`, `CancelIsSilent`, `RestartReboots`).
- Labels.PrettyName: its own contract states only the length. The display names are stated by `AutoEntryLabel`, `ConfEntryLabel`, `FirstHyphenOnly`, `AutoDeletedAnywhere` and the example lemmas.
