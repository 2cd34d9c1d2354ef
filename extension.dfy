/** The extension object: it adds one "Restart to ..." item per boot-loader
    entry to the host's system menu when enabled, removes them when disabled,
    and runs the countdown that ends in a reboot into the chosen entry.

    The login manager is reached only through what it is asked: its list of
    entries is the argument of `Enable`, and the two calls made to it are
    appended to `calls`. Each interval is a flag, and each firing of one is a
    call of `Tick` or `Refresh`. */
module RebootTo {
  import opened Labels
  import opened Menu
  import Countdown

  class Extension {
    var menu: seq<MenuItem>                    // the host's system menu
    var nextId: nat                            // identity of the next item allocated
    var proxyConnected: bool                   // a login-manager proxy is held
    var rebootToEntryItems: array?<MenuItem>   // the items added, by entry index
    var prettyNames: map<string, string>       // entry id to display name
    var selectedEntry: Option<string>
    var counter: nat
    var seconds: nat
    var counterIntervalActive: bool
    var messageIntervalActive: bool
    var dialogOpen: bool
    var dialogTitle: string
    var dialogMessage: string
    var calls: seq<Countdown.Call>             // calls issued to the login manager

    /** The countdown part of the state, as the state machine sees it. */
    ghost function Snapshot(): Countdown.State
      reads this`counter, this`seconds, this`selectedEntry, this`proxyConnected,
            this`counterIntervalActive, this`messageIntervalActive, this`dialogOpen,
            this`dialogMessage, this`calls
    {
      Countdown.State(counter, seconds, selectedEntry, proxyConnected, counterIntervalActive,
                      messageIntervalActive, dialogOpen, dialogMessage, calls)
    }

    /** The items stored, or none before `Enable` and after `Disable`. */
    ghost function Items(): seq<MenuItem>
      reads this`rebootToEntryItems, rebootToEntryItems
    {
      if rebootToEntryItems == null then [] else rebootToEntryItems[..]
    }

    /** The countdown invariant, the menu bookkeeping, and: the proxy is held
        exactly while the items are (from `Enable` to `Disable`). */
    ghost predicate Valid()
      reads this, rebootToEntryItems
    {
      && Countdown.Inv(Snapshot())
      && Bookkept(menu, nextId, Items(), prettyNames)
      && proxyConnected == (rebootToEntryItems != null)
    }

    /** The extension is created on the host's menu before it is enabled. */
    constructor (hostMenu: seq<MenuItem>)
      ensures Valid()
      ensures menu == hostMenu && rebootToEntryItems == null && !proxyConnected
      ensures prettyNames == map[] && Snapshot() == Countdown.Initial()
    {
      menu := hostMenu;
      nextId := FreshId(hostMenu);
      proxyConnected := false;
      rebootToEntryItems := null;
      prettyNames := map[];
      selectedEntry := None;
      counter, seconds := 0, 0;
      counterIntervalActive, messageIntervalActive := false, false;
      dialogOpen := false;
      dialogTitle, dialogMessage := "", "";
      calls := [];
    }

    /** Connect to the login manager and add an item for each of its `entries`,
        in order, the i-th at menu position 2 + i, recording each display name. */
    method Enable(entries: seq<string>)
      requires Valid()
      modifies this`proxyConnected, this`prettyNames, this`rebootToEntryItems,
               this`nextId, this`menu
      ensures Valid()
      ensures Snapshot() == Countdown.Connect(old(Snapshot()))
      ensures rebootToEntryItems != null && fresh(rebootToEntryItems)
      ensures rebootToEntryItems[..] == ItemsFor(entries, old(nextId))
      ensures menu == Splice(old(menu), rebootToEntryItems[..])
      ensures prettyNames == NameTable(entries)
      ensures nextId == old(nextId) + |entries|
    {
      ConnectProxy();
      AddEntries(entries);
    }

    /** Create the login-manager proxy; the countdown is left as it is. */
    method ConnectProxy()
      requires Countdown.Inv(Snapshot())
      modifies this`proxyConnected
      ensures Snapshot() == Countdown.Connect(old(Snapshot()))
    {
      proxyConnected := true;
    }

    /** Start a fresh name table and item array, and add an item per entry. */
    method AddEntries(entries: seq<string>)
      requires forall x :: x in menu ==> x.id < nextId
      modifies this`prettyNames, this`rebootToEntryItems, this`nextId, this`menu
      ensures rebootToEntryItems != null && fresh(rebootToEntryItems)
      ensures rebootToEntryItems[..] == ItemsFor(entries, old(nextId))
      ensures menu == Splice(old(menu), rebootToEntryItems[..])
      ensures prettyNames == NameTable(entries)
      ensures nextId == old(nextId) + |entries|
      ensures Bookkept(menu, nextId, Items(), prettyNames)
    {
      prettyNames := map[];
      var items := new MenuItem[|entries|];
      rebootToEntryItems := items;
      AddItems(entries, items, menu, nextId);
    }

    /** The `forEach` over the entries: one `AddItem` per entry, in order. */
    method AddItems(entries: seq<string>, items: array<MenuItem>,
                    ghost hostMenu: seq<MenuItem>, ghost firstId: nat)
      requires |entries| == items.Length
      requires menu == hostMenu && prettyNames == map[] && nextId == firstId
      requires forall x :: x in hostMenu ==> x.id < firstId
      modifies this`prettyNames, this`nextId, this`menu, items
      ensures items[..] == ItemsFor(entries, firstId)
      ensures menu == Splice(hostMenu, items[..])
      ensures prettyNames == NameTable(entries)
      ensures nextId == firstId + |entries|
      ensures Bookkept(menu, nextId, items[..], prettyNames)
    {
      var index := 0;
      while index < |entries|
        invariant index <= |entries|
        invariant items[..index] == ItemsFor(entries[..index], firstId)
        invariant menu == Splice(hostMenu, items[..index])
        invariant prettyNames == NameTable(entries[..index])
        invariant nextId == firstId + index
      {
        AddItem(entries, index, items, hostMenu, firstId);
        index := index + 1;
      }
      assert items[..] == items[..index];
      assert entries[..index] == entries;
      EnabledBookkept(hostMenu, entries, firstId);
    }

    /** The `forEach` callback of `Enable` for `entries[index]`: record its
        display name, then build its item, insert the item at menu position
        2 + index and store it in slot `index`. */
    method AddItem(entries: seq<string>, index: nat, items: array<MenuItem>,
                   ghost hostMenu: seq<MenuItem>, ghost firstId: nat)
      requires index < |entries| == items.Length
      requires items[..index] == ItemsFor(entries[..index], firstId)
      requires menu == Splice(hostMenu, items[..index])
      requires prettyNames == NameTable(entries[..index])
      requires nextId == firstId + index
      modifies this`prettyNames, this`nextId, this`menu, items
      ensures items[..index + 1] == ItemsFor(entries[..index + 1], firstId)
      ensures menu == Splice(hostMenu, items[..index + 1])
      ensures prettyNames == NameTable(entries[..index + 1])
      ensures nextId == firstId + index + 1
    {
      RecordName(entries, index);
      PlaceItem(entries, index, items, hostMenu, firstId);
    }

    /** Record the display name of `entries[index]` in the name table. */
    method RecordName(entries: seq<string>, index: nat)
      requires index < |entries|
      requires prettyNames == NameTable(entries[..index])
      modifies this`prettyNames
      ensures prettyNames == NameTable(entries[..index + 1])
    {
      var entry := entries[index];
      NameTableExtend(entries, index);
      prettyNames := prettyNames[entry := PrettyName(entry)];
    }

    /** Build the item for `entries[index]` with the next identity, insert it
        at menu position 2 + index and store it in slot `index`. */
    method PlaceItem(entries: seq<string>, index: nat, items: array<MenuItem>,
                     ghost hostMenu: seq<MenuItem>, ghost firstId: nat)
      requires index < |entries| == items.Length
      requires items[..index] == ItemsFor(entries[..index], firstId)
      requires menu == Splice(hostMenu, items[..index])
      requires nextId == firstId + index
      modifies this`nextId, this`menu, items
      ensures items[..index + 1] == ItemsFor(entries[..index + 1], firstId)
      ensures menu == Splice(hostMenu, items[..index + 1])
      ensures nextId == firstId + index + 1
    {
      var item := RebootItem(nextId, entries[index]);
      assert entries[..index + 1][..index] == entries[..index];
      nextId := nextId + 1;
      InsertExtendsBlock(hostMenu, items[..index], item);
      menu := Insert(menu, Offset + index, item);
      items[index] := item;
      assert items[..index + 1] == items[..index] + [item];
    }

    /** Destroy every item `Enable` added, which takes it out of the menu, and
        drop the items and the proxy. The name table is kept, and so is a
        countdown already running: its dialog and intervals are not touched. */
    method Disable()
      requires Valid() && rebootToEntryItems != null
      modifies this`menu, this`rebootToEntryItems, this`proxyConnected
      ensures Valid()
      ensures menu == Without(old(menu), old(rebootToEntryItems[..]))
      ensures rebootToEntryItems == null
      ensures Snapshot() == Countdown.Disconnect(old(Snapshot()))
    {
      var index := 0;
      WithoutNothing(menu, []);
      while index < rebootToEntryItems.Length
        invariant rebootToEntryItems == old(rebootToEntryItems)
        invariant index <= rebootToEntryItems.Length
        invariant menu == Without(old(menu), rebootToEntryItems[..index])
        invariant forall x :: x in menu ==> x in old(menu)
      {
        WithoutOneMore(old(menu), rebootToEntryItems[..index], rebootToEntryItems[index]);
        assert rebootToEntryItems[..index + 1] == rebootToEntryItems[..index] + [rebootToEntryItems[index]];
        menu := Without(menu, [rebootToEntryItems[index]]);
        index := index + 1;
      }
      assert rebootToEntryItems[..index] == rebootToEntryItems[..];
      rebootToEntryItems := null;
      proxyConnected := false;
    }

    /** The `activate` handler of the item at `index`: start a countdown of
        sixty seconds for its entry, open the dialog and schedule both
        intervals. Only one countdown runs at a time. */
    method Activate(index: nat)
      requires Valid() && rebootToEntryItems != null && index < rebootToEntryItems.Length
      requires !counterIntervalActive
      modifies this`counter, this`seconds, this`selectedEntry, this`dialogTitle,
               this`dialogMessage, this`messageIntervalActive, this`counterIntervalActive,
               this`dialogOpen
      ensures Valid()
      ensures Snapshot() == Countdown.Activate(old(Snapshot()), rebootToEntryItems[index].entry)
      ensures dialogTitle == TitleText(prettyNames[rebootToEntryItems[index].entry])
    {
      var entry := rebootToEntryItems[index].entry;
      counter := Countdown.Start;
      seconds := counter;
      selectedEntry := Some(entry);
      BuildDialog();
      dialogOpen := true;
      counterIntervalActive := true;
    }

    /** Title and message of the confirmation dialog, and the refresh interval. */
    method BuildDialog()
      requires selectedEntry.Some? && selectedEntry.value in prettyNames
      modifies this`dialogTitle, this`dialogMessage, this`messageIntervalActive
      ensures dialogTitle == TitleText(prettyNames[selectedEntry.value])
      ensures dialogMessage == MessageText(seconds)
      ensures messageIntervalActive
    {
      dialogTitle := TitleText(prettyNames[selectedEntry.value]);
      dialogMessage := MessageText(seconds);
      messageIntervalActive := true;
    }

    /** One firing of the one-second interval. */
    method Tick()
      requires Valid()
      modifies this`counter, this`seconds, this`counterIntervalActive,
               this`messageIntervalActive, this`calls
      ensures Valid()
      ensures Snapshot() == Countdown.Tick(old(Snapshot()))
    {
      if !counterIntervalActive {
        return;
      }
      if counter > 0 {
        counter := counter - 1;
        if counter % 10 == 0 {
          seconds := counter;
        }
      } else {
        ghost var before := Snapshot();
        ClearIntervals();
        Reboot();
        assert Snapshot() == Countdown.IssueReboot(Countdown.ClearIntervals(before));
      }
    }

    /** One firing of the half-second interval. */
    method Refresh()
      requires Valid()
      modifies this`dialogMessage
      ensures Valid()
      ensures Snapshot() == Countdown.Refresh(old(Snapshot()))
    {
      if messageIntervalActive {
        dialogMessage := MessageText(seconds);
      }
    }

    /** The dialog's Cancel button (or Escape). */
    method Cancel()
      requires Valid() && dialogOpen
      modifies this`counterIntervalActive, this`messageIntervalActive, this`dialogOpen
      ensures Valid()
      ensures Snapshot() == Countdown.Cancel(old(Snapshot()))
    {
      ClearIntervals();
      dialogOpen := false;
    }

    /** The dialog's Restart button. */
    method Restart()
      requires Valid() && dialogOpen
      modifies this`counterIntervalActive, this`messageIntervalActive, this`calls
      ensures Valid()
      ensures Snapshot() == Countdown.Restart(old(Snapshot()))
    {
      ClearIntervals();
      Reboot();
    }

    /** Ask the login manager to boot `selectedEntry` next, then to reboot.
        After `Disable` there is no proxy: the first call fails on it and
        neither call is made. */
    method Reboot()
      requires selectedEntry.Some?
      modifies this`calls
      ensures proxyConnected ==> calls == old(calls) + Countdown.RebootCalls(selectedEntry.value)
      ensures !proxyConnected ==> calls == old(calls)
    {
      if !proxyConnected {
        return;
      }
      calls := calls + [Countdown.SetRebootToBootLoaderEntry(selectedEntry.value)];
      calls := calls + [Countdown.Reboot(false)];
    }

    method ClearIntervals()
      modifies this`counterIntervalActive, this`messageIntervalActive
      ensures !counterIntervalActive && !messageIntervalActive
    {
      counterIntervalActive := false;
      messageIntervalActive := false;
    }
  }
}
