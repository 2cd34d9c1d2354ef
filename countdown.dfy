/** The countdown that runs between choosing a boot entry and rebooting into it,
    as a pure state machine. The two intervals of the extension (the one-second
    countdown tick and the half-second message refresh) are flags; each firing
    of an interval is one step. The two calls made to the login manager are
    recorded, in order, in an append-only trace; they can only be made while
    the extension holds a proxy for it, which disabling drops. */
module Countdown {
  import opened Labels

  /** Seconds a countdown starts from. */
  const Start: nat := 60

  /** A call issued to the login manager. */
  datatype Call = SetRebootToBootLoaderEntry(entry: string) | Reboot(interactive: bool)

  datatype State = State(
    counter: nat,              // seconds left
    seconds: nat,              // seconds shown in the dialog
    selected: Option<string>,  // entry chosen for the next boot
    connected: bool,           // a login-manager proxy is held
    ticking: bool,             // the one-second interval is scheduled
    refreshing: bool,          // the half-second interval is scheduled
    dialogOpen: bool,          // the confirmation dialog is open
    message: string,           // text the dialog currently shows
    calls: seq<Call>)          // calls issued so far

  /** The two calls that reboot into `entry`, in the order they are issued. */
  function RebootCalls(entry: string): seq<Call> {
    [SetRebootToBootLoaderEntry(entry), Reboot(false)]
  }

  /** `counter` rounded up to a multiple of ten. */
  function RoundUp(counter: nat): nat {
    ((counter + 9) / 10) * 10
  }

  /** What holds between steps of a single countdown. */
  ghost predicate Inv(s: State) {
    && s.counter <= Start
    && s.seconds == RoundUp(s.counter)
    && s.ticking == s.refreshing
    && (s.ticking ==> s.dialogOpen)
    && (s.dialogOpen ==> s.selected.Some?)
  }

  /** Before any entry has been chosen. */
  function Initial(): (s: State)
    ensures Inv(s) && !s.ticking && !s.dialogOpen && s.calls == []
  {
    State(0, 0, None, false, false, false, false, "", [])
  }

  /** Activating the menu item of `entry`: start from sixty, open the dialog
      with the current message and schedule both intervals. */
  function Activate(s: State, entry: string): (r: State)
    requires Inv(s) && !s.ticking
    ensures Inv(r)
  {
    s.(counter := Start, seconds := Start, selected := Some(entry),
       ticking := true, refreshing := true, dialogOpen := true,
       message := MessageText(Start))
  }

  /** Enabling creates the proxy; the countdown is left as it is. */
  function Connect(s: State): (r: State)
    requires Inv(s)
    ensures Inv(r) && r.connected
    ensures r.(connected := s.connected) == s
  {
    s.(connected := true)
  }

  /** Disabling drops the proxy, but a countdown already running goes on. */
  function Disconnect(s: State): (r: State)
    requires Inv(s)
    ensures Inv(r) && !r.connected
    ensures r.(connected := s.connected) == s
  {
    s.(connected := false)
  }

  /** Both intervals cleared; nothing else changes. */
  function ClearIntervals(s: State): (r: State)
    ensures !r.ticking && !r.refreshing
    ensures r.(ticking := s.ticking, refreshing := s.refreshing) == s
  {
    s.(ticking := false, refreshing := false)
  }

  /** The two reboot calls for the selected entry appended to the trace. With
      no proxy the first call fails on the missing proxy, so neither is made. */
  function IssueReboot(s: State): (r: State)
    requires s.selected.Some?
    ensures s.connected ==> r.calls == s.calls + RebootCalls(s.selected.value)
    ensures !s.connected ==> r.calls == s.calls
    ensures r.(calls := s.calls) == s
  {
    if s.connected then s.(calls := s.calls + RebootCalls(s.selected.value)) else s
  }

  /** One firing of the one-second interval; nothing happens once it is cleared. */
  function Tick(s: State): (r: State)
    requires Inv(s)
    ensures Inv(r)
  {
    if !s.ticking then s
    else if s.counter > 0 then
      var c := s.counter - 1;
      s.(counter := c, seconds := if c % 10 == 0 then c else s.seconds)
    else IssueReboot(ClearIntervals(s))
  }

  /** One firing of the half-second interval: re-render the message. Only the
      message changes, and while the interval runs it shows the seconds. */
  function Refresh(s: State): (r: State)
    ensures r.refreshing ==> r.message == MessageText(r.seconds)
    ensures !s.refreshing ==> r == s
    ensures r.(message := s.message) == s
  {
    if s.refreshing then s.(message := MessageText(s.seconds)) else s
  }

  /** The Cancel button: clear both intervals and close the dialog. */
  function Cancel(s: State): (r: State)
    requires Inv(s) && s.dialogOpen
    ensures Inv(r)
  {
    ClearIntervals(s).(dialogOpen := false)
  }

  /** The Restart button: clear both intervals and reboot into the selected
      entry. The dialog is left open. */
  function Restart(s: State): (r: State)
    requires Inv(s) && s.dialogOpen
    ensures Inv(r)
  {
    IssueReboot(ClearIntervals(s))
  }

  /** `n` firings of the one-second interval with no user action between. */
  function Ticks(s: State, n: nat): (r: State)
    requires Inv(s)
    ensures Inv(r)
    decreases n
  {
    if n == 0 then s else Ticks(Tick(s), n - 1)
  }

  // ---------------------------------------------------------------------------
  // Properties

  /** The seconds shown are a multiple of ten and at most nine above the
      seconds left. */
  lemma SecondsShown(s: State)
    requires Inv(s)
    ensures s.seconds % 10 == 0
    ensures s.counter <= s.seconds < s.counter + 10
  {
  }

  /** A tick while seconds are left takes exactly one off, issues no call, and
      changes the seconds shown only when the new count is a multiple of ten. */
  lemma TickCountsDown(s: State)
    requires Inv(s) && s.ticking && s.counter > 0
    ensures Tick(s).counter == s.counter - 1
    ensures Tick(s).calls == s.calls
    ensures Tick(s).ticking && Tick(s).selected == s.selected
    ensures Tick(s).seconds != s.seconds <==> Tick(s).counter % 10 == 0
    ensures Tick(s).refreshing && Tick(s).dialogOpen && Tick(s).message == s.message
  {
  }

  /** A tick with no seconds left clears both intervals and issues the two
      reboot calls, in order, if the proxy is still held, and none otherwise.
      The count, the entry, the dialog and its message stay as they were. */
  lemma TickFires(s: State)
    requires Inv(s) && s.ticking && s.counter == 0
    ensures !Tick(s).ticking && !Tick(s).refreshing
    ensures s.connected ==> Tick(s).calls == s.calls + RebootCalls(s.selected.value)
    ensures !s.connected ==> Tick(s).calls == s.calls
    ensures Tick(s).counter == 0 && Tick(s).selected == s.selected
    ensures Tick(s).dialogOpen && Tick(s).message == s.message
  {
  }

  /** Once the one-second interval is cleared, further ticks change nothing. */
  lemma {:induction false} IdleTicks(s: State, n: nat)
    requires Inv(s) && !s.ticking
    ensures Ticks(s, n) == s
    decreases n
  {
    if n > 0 {
      IdleTicks(Tick(s), n - 1);
    }
  }

  /** Up to `counter` ticks only count down. */
  lemma {:induction false} CountingDown(s: State, n: nat)
    requires Inv(s) && s.ticking && n <= s.counter
    ensures Ticks(s, n).counter == s.counter - n
    ensures Ticks(s, n).ticking
    ensures Ticks(s, n).calls == s.calls
    ensures Ticks(s, n).selected == s.selected
    ensures Ticks(s, n).connected == s.connected
    decreases n
  {
    if n > 0 {
      CountingDown(Tick(s), n - 1);
    }
  }

  /** The tick after the count has run out reboots, and every later tick does
      nothing: the reboot calls are issued once, and only if the proxy is
      held; either way both intervals stop. */
  lemma {:induction false} RunsOut(s: State, n: nat)
    requires Inv(s) && s.ticking && n > s.counter
    ensures s.connected ==> Ticks(s, n).calls == s.calls + RebootCalls(s.selected.value)
    ensures !s.connected ==> Ticks(s, n).calls == s.calls
    ensures !Ticks(s, n).ticking && !Ticks(s, n).refreshing
    decreases n
  {
    if s.counter == 0 {
      TickFires(s);
      IdleTicks(Tick(s), n - 1);
    } else {
      RunsOut(Tick(s), n - 1);
    }
  }

  /** After activating `entry`, with no user action, the calls are issued on
      the sixty-first tick and never again (and not at all without a proxy). */
  lemma AutomaticReboot(s: State, entry: string, n: nat)
    requires Inv(s) && !s.ticking
    ensures var r := Ticks(Activate(s, entry), n);
      && (n <= Start ==> r.calls == s.calls && r.counter == Start - n && r.ticking)
      && (n > Start && s.connected ==> r.calls == s.calls + RebootCalls(entry))
      && (n > Start && !s.connected ==> r.calls == s.calls)
      && (n > Start ==> !r.ticking)
  {
    var a := Activate(s, entry);
    if n <= Start {
      CountingDown(a, n);
    } else {
      RunsOut(a, n);
    }
  }

  /** Cancel issues no call, keeps the count and the entry, closes the dialog,
      and no tick after it issues a call either. */
  lemma CancelIsSilent(s: State, n: nat)
    requires Inv(s) && s.dialogOpen
    ensures Cancel(s).calls == s.calls
    ensures Cancel(s).counter == s.counter && Cancel(s).selected == s.selected
    ensures !Cancel(s).dialogOpen && !Cancel(s).ticking && !Cancel(s).refreshing
    ensures Ticks(Cancel(s), n) == Cancel(s)
  {
    IdleTicks(Cancel(s), n);
  }

  /** Restart issues the two calls at once whatever the count (none once the
      proxy is dropped), and no tick after it issues more. */
  lemma RestartReboots(s: State, n: nat)
    requires Inv(s) && s.dialogOpen
    ensures s.connected ==> Restart(s).calls == s.calls + RebootCalls(s.selected.value)
    ensures !s.connected ==> Restart(s).calls == s.calls
    ensures !Restart(s).ticking && !Restart(s).refreshing
    ensures Ticks(Restart(s), n) == Restart(s)
  {
    IdleTicks(Restart(s), n);
  }

  /** Disabling in the middle of a countdown: the count goes on and the
      intervals still stop once it runs out, but no tick and no Restart after
      it issues a call. */
  lemma {:induction false} DisabledIsSilent(s: State, n: nat)
    requires Inv(s)
    ensures Ticks(Disconnect(s), n).calls == s.calls
    ensures s.ticking && n > s.counter ==> !Ticks(Disconnect(s), n).ticking
    ensures s.dialogOpen ==> Restart(Disconnect(s)).calls == s.calls
  {
    var d := Disconnect(s);
    if !s.ticking {
      IdleTicks(d, n);
    } else if n > s.counter {
      RunsOut(d, n);
    } else {
      CountingDown(d, n);
    }
  }

  /** While the refresh interval runs, the dialog shows the seconds in the
      message template, and the number can be read back from it. */
  lemma RefreshShowsSeconds(s: State)
    requires s.refreshing
    ensures Refresh(s).message == ReplaceFirst(MessageTemplate, "%d", Decimal(s.seconds))
    ensures ValueOf(Decimal(s.seconds)) == s.seconds
  {
    MessageTextShape(s.seconds);
    DecimalRoundTrip(s.seconds);
  }
}
