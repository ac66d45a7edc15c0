/** The connection state machine of LocalSocketController (client/mozilla/localsocketcontroller.cpp):
    bounded retry while connecting, and one slot for a pending log callback. */
module Controller {
  import opened Wrappers

  datatype State = Unknown | Initializing | Ready

  const MaxRetry := 10

  /** A command of the daemon, as far as it changes the controller. `Status` tells whether the fields
      the first status needs are well formed. */
  datatype Command = Status(wellFormed: bool) | Disconnected | Logs(text: Option<string>) | Other

  /** Logs come with "|" for newlines; anything that is not text counts as empty. */
  function Unpacked(text: Option<string>): (r: string)
    ensures text.None? ==> r == ""
    ensures text.Some? ==> |r| == |text.value| && forall i :: 0 <= i < |r| ==>
              r[i] == if text.value[i] == '|' then '\n' else text.value[i]
  {
    if text.None? then ""
    else seq(|text.value|, i requires 0 <= i < |text.value| => if text.value[i] == '|' then '\n' else text.value[i])
  }

  datatype Event =
    | Initialize
    | SocketError
    | RetryTimeout
    | Received(command: Command)
    | GetBackendLogs
    | CleanupBackendLogs

  // ------------------------------------------------------------- the connection on values

  /** Where the connection stands: its state, the retries used up, and whether the retry timer runs. */
  datatype Connection = Connection(state: State, retry: nat, timerArmed: bool)

  function After(c: Connection, event: Event): Connection {
    match event
    case Initialize => c.(state := Initializing, retry := 0)
    case SocketError =>
      if c.state.Initializing? && c.retry < 10 then c.(retry := c.retry + 1, timerArmed := true)
      else Connection(Ready, 0, false)
    case RetryTimeout => if c.timerArmed then c.(state := Initializing, timerArmed := false) else c
    case Received(Status(_)) => if c.state.Initializing? then c.(state := Ready) else c
    case Received(Disconnected) => if c.state.Ready? then Connection(Ready, 0, false) else c
    case _ => c
  }

  function AfterAll(c: Connection, events: seq<Event>): Connection {
    if events == [] then c else After(AfterAll(c, events[..|events| - 1]), events[|events| - 1])
  }

  lemma {:induction false} AfterBoth(c: Connection, a: seq<Event>, b: seq<Event>)
    ensures AfterAll(c, a + b) == AfterAll(AfterAll(c, a), b)
  {
    if b == [] {
      assert a + b == a;
    } else {
      AfterBoth(c, a, b[..|b| - 1]);
      assert (a + b)[..|a + b| - 1] == a + b[..|b| - 1];
    }
  }

  /** Connecting fails n times in a row, and each time the timer runs out. */
  function Failures(n: nat): seq<Event> {
    if n == 0 then [] else Failures(n - 1) + [SocketError, RetryTimeout]
  }

  lemma OneFailure(c: Connection)
    requires c.state.Initializing? && c.retry < 10
    ensures AfterAll(c, [SocketError, RetryTimeout]) == Connection(Initializing, c.retry + 1, false)
  {
    var both := [SocketError, RetryTimeout];
    assert both[..1] == [SocketError] && [SocketError][..0] == [];
    assert AfterAll(c, []) == c;
    assert AfterAll(c, [SocketError]) == After(c, SocketError);
  }

  /** Ten failures in a row are borne, whatever the controller did before it was initialised; one more
      error leaves it ready, with its retries back. */
  lemma {:induction false} FailuresBorne(c: Connection, n: nat)
    requires n <= 10
    ensures var c' := AfterAll(After(c, Initialize), Failures(n));
            && c' == Connection(Initializing, n, n == 0 && c.timerArmed)
            && (After(c', SocketError).state.Initializing? <==> n < 10)
            && (n == 10 ==> After(c', SocketError) == Connection(Ready, 0, false))
  {
    if n > 0 {
      FailuresBorne(c, n - 1);
      AfterBoth(After(c, Initialize), Failures(n - 1), [SocketError, RetryTimeout]);
      OneFailure(AfterAll(After(c, Initialize), Failures(n - 1)));
    }
  }

  class Controller {
    var state: State
    var retry: nat
    var timerArmed: bool

    /** Signals: initialized(true), initialized(false) and disconnected. */
    var succeeded: nat
    var gaveUp: nat
    var disconnections: nat

    /** Log callbacks are numbered in the order they are offered. */
    var offered: nat
    var invoked: seq<nat>

    /** The text each invoked callback was given. */
    var given: seq<string>
    var logCallback: Option<nat>

    /** Retry timers started since the counter was last reset. */
    ghost var timersStarted: nat

    ghost predicate RetryBounded()
      reads this
    {
      retry == timersStarted <= 10
    }

    function Now(): Connection
      reads this
    {
      Connection(state, retry, timerArmed)
    }

    /** Every callback offered was invoked exactly once or is the pending one. */
    ghost predicate CallbacksAccounted()
      reads this
    {
      && (forall i, j :: 0 <= i < j < |invoked| ==> invoked[i] != invoked[j])
      && (forall id: nat :: id in invoked <==> id < offered && logCallback != Some(id))
      && (logCallback.Some? ==> logCallback.value < offered)
      && offered == |invoked| + (if logCallback.Some? then 1 else 0) && |given| == |invoked|
    }

    constructor ()
      ensures RetryBounded() && CallbacksAccounted() && state == Unknown && gaveUp == 0
    {
      state, retry, timerArmed := Unknown, 0, false;
      succeeded, gaveUp, disconnections := 0, 0, 0;
      offered, invoked, given, logCallback, timersStarted := 0, [], [], None, 0;
    }

    method Initialize()
      modifies this`state, this`retry, this`timersStarted
      ensures RetryBounded() && retry == 0 && state == Initializing
    {
      retry, timersStarted := 0, 0;
      InitializeInternal();
    }

    method InitializeInternal()
      modifies this`state
      ensures state == Initializing
    {
      state := Initializing;
    }

    /** While connecting, an error starts one more retry until ten were started; then it gives up. */
    method ErrorOccurred()
      requires RetryBounded()
      modifies this`state, this`retry, this`timerArmed, this`timersStarted, this`gaveUp, this`disconnections
      ensures RetryBounded()
      ensures gaveUp == old(gaveUp) + (if old(state).Initializing? && old(timersStarted) == 10 then 1 else 0)
      ensures old(state).Initializing? && old(timersStarted) < 10 ==>
                && timerArmed && state == old(state)
                && timersStarted == old(timersStarted) + 1 && disconnections == old(disconnections)
      ensures !(old(state).Initializing? && old(timersStarted) < 10) ==>
                !timerArmed && state == Ready && timersStarted == 0 && disconnections == old(disconnections) + 1
    {
      if state.Initializing? {
        var before := retry;
        retry := retry + 1;
        if before < MaxRetry {
          timerArmed := true;
          timersStarted := timersStarted + 1;
          return;
        }
        gaveUp := gaveUp + 1;
      }
      DisconnectInternal();
    }

    method DisconnectInternal()
      modifies this`state, this`retry, this`timerArmed, this`timersStarted, this`disconnections
      ensures state == Ready && retry == timersStarted == 0 && !timerArmed && disconnections == old(disconnections) + 1
    {
      state, retry, timerArmed, timersStarted := Ready, 0, false, 0;
      disconnections := disconnections + 1;
    }

    /** Hands the pending callback its text and frees the slot. */
    method InvokePending(text: string)
      requires CallbacksAccounted()
      modifies this`invoked, this`given, this`logCallback
      ensures CallbacksAccounted() && logCallback.None?
      ensures invoked == old(invoked) + if old(logCallback).Some? then [old(logCallback).value] else []
      ensures given == old(given) + if old(logCallback).Some? then [text] else []
    {
      if logCallback.Some? {
        invoked, given := invoked + [logCallback.value], given + [text];
        logCallback := None;
      }
    }

    /** The newest callback is pending if and only if the daemon is ready; an older one was answered
        with the empty text. */
    method GetBackendLogs() returns (id: nat)
      requires CallbacksAccounted()
      modifies this`offered, this`invoked, this`given, this`logCallback
      ensures CallbacksAccounted() && id == old(offered) && offered == old(offered) + 1
      ensures logCallback == if state.Ready? then Some(id) else None
      ensures invoked == old(invoked) + (if old(logCallback).Some? then [old(logCallback).value] else [])
                         + if state.Ready? then [] else [id]
      ensures old(given) <= given && forall i :: |old(given)| <= i < |given| ==> given[i] == ""
    {
      InvokePending("");
      id := offered;
      offered := offered + 1;
      if !state.Ready? {
        assert forall i :: 0 <= i < |invoked| ==> invoked[i] in invoked;
        invoked, given := invoked + [id], given + [""];
        return;
      }
      logCallback := Some(id);
    }

    method CleanupBackendLogs()
      requires CallbacksAccounted()
      modifies this`invoked, this`given, this`logCallback
      ensures CallbacksAccounted() && logCallback.None?
      ensures given == old(given) + if old(logCallback).Some? then [""] else []
    {
      InvokePending("");
    }

    method ParseCommand(command: Command)
      requires RetryBounded() && CallbacksAccounted()
      modifies this`state, this`retry, this`timerArmed, this`timersStarted, this`succeeded, this`disconnections,
               this`invoked, this`given, this`logCallback
      ensures RetryBounded() && CallbacksAccounted()
      ensures state == if old(state).Initializing? && command.Status? then Ready else old(state)
      ensures succeeded == old(succeeded) + if old(state).Initializing? && command == Status(true) then 1 else 0
      ensures disconnections == old(disconnections) + if old(state).Ready? && command.Disconnected? then 1 else 0
      ensures if old(state).Ready? && command.Disconnected? then timersStarted == 0 && !timerArmed
              else timersStarted == old(timersStarted) && timerArmed == old(timerArmed)
      // Logs, and nothing else, answer the pending callback, with their own text.
      ensures if old(state).Ready? && command.Logs? && old(logCallback).Some?
              then logCallback.None? && invoked == old(invoked) + [old(logCallback).value]
                   && given == old(given) + [Unpacked(command.text)]
              else logCallback == old(logCallback) && invoked == old(invoked) && given == old(given)
    {
      if state.Initializing? && command.Status? {
        state := Ready;
        if command.wellFormed { succeeded := succeeded + 1; }
        return;
      }
      if !state.Ready? { return; }
      match command
      case Disconnected => DisconnectInternal();
      case Logs(text) => InvokePending(Unpacked(text));
      case _ =>
    }

    method RetryTimerFired()
      modifies this`state, this`timerArmed
      ensures Now() == After(old(Now()), RetryTimeout)
    {
      if timerArmed {
        timerArmed := false;
        InitializeInternal();
      }
    }

    method ServeOne(event: Event)
      requires RetryBounded() && CallbacksAccounted()
      modifies this
      ensures RetryBounded() && CallbacksAccounted() && Now() == After(old(Now()), event)
    {
      match event
      case Initialize => Initialize();
      case SocketError => ErrorOccurred();
      case RetryTimeout => RetryTimerFired();
      case Received(command) => ParseCommand(command);
      case GetBackendLogs => var _ := GetBackendLogs();
      case CleanupBackendLogs => CleanupBackendLogs();
    }

    /** Any run. */
    method Serve(events: seq<Event>)
      requires RetryBounded() && CallbacksAccounted()
      modifies this
      ensures RetryBounded() && CallbacksAccounted() && Now() == AfterAll(old(Now()), events)
    {
      for i := 0 to |events|
        invariant RetryBounded() && CallbacksAccounted() && Now() == AfterAll(old(Now()), events[..i])
      {
        assert events[..i + 1][..i] == events[..i];
        ServeOne(events[i]);
      }
      assert events[..|events|] == events;
    }
  }
}
