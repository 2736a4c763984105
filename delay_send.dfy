/** The deferred send of `src/content/components/GmailIntegration.tsx`. A send
    click or Ctrl/Meta+Enter in a compose window is intercepted; the message is
    held in a single `pending` slot while an interval timer counts a closure-local
    `secondsLeft` down from `DELAY_MS / 1000`; when it reaches zero the timer is
    cleared, the slot is emptied and the message is handed to the API once.
    Cancel clears timer and slot. Compose windows are attached at most once,
    tracked by a `seen` set.

    Each interval firing is an explicit call; the send is an entry appended to a
    log of API calls; DOM elements are identities; the send button and the data
    read from a compose window are parameters. */
module DelaySend {
  import opened Wrappers
  import opened GmailApi

  const DelayMs: nat := 30000

  /** `secondsLeft` at the start of a countdown. */
  const InitialSeconds: nat := DelayMs / 1000

  type ElementId = nat
  type TimerId = nat

  /** The React `pending` state. */
  datatype Pending = Pending(emailData: EmailData, timer: TimerId, secondsLeft: int)

  /** A live `setInterval` callback: the counter and message its closure captured. */
  datatype Interval = Interval(secondsLeft: int, emailData: EmailData)

  datatype ListenerKind = Click | Keydown

  /** A registered listener: its kind, the element it sits on, and the compose
      window whose send it intercepts. */
  datatype Listener = Listener(kind: ListenerKind, target: ElementId, compose: ElementId)

  datatype Controller = Controller(
    pending: Option<Pending>,
    timers: map<TimerId, Interval>,
    nextTimer: TimerId,
    sent: seq<EmailData>,          // calls of `sendEmailViaGmailApi`, in order
    seen: set<ElementId>,
    listeners: seq<Listener>)

  const Idle: Controller := Controller(None, map[], 0, [], {}, [])

  /** The relation the code keeps between the slot and the timers: with nothing
      pending no interval is live; otherwise exactly the pending one is, with the
      same counter and message, and the counter is still positive. */
  ghost predicate Valid(c: Controller) {
    && (forall t :: t in c.timers ==> t < c.nextTimer)
    && (c.pending.None? ==> c.timers == map[])
    && (c.pending.Some? ==>
          var p := c.pending.value;
          && c.timers.Keys == {p.timer}
          && c.timers[p.timer] == Interval(p.secondsLeft, p.emailData)
          && 0 < p.secondsLeft <= InitialSeconds)
  }

  // ---------------------------------------------------------------- steps

  /** `handleInterceptSend`: a no-op while something is pending; otherwise start
      an interval and fill the slot. */
  function Intercept(c: Controller, emailData: EmailData): Controller {
    if c.pending.Some? then c
    else
      var id := c.nextTimer;
      c.(pending := Some(Pending(emailData, id, InitialSeconds)),
         timers := c.timers[id := Interval(InitialSeconds, emailData)],
         nextTimer := id + 1)
  }

  /** One firing of interval `id`: decrement its counter, copy it into the slot
      if the slot is set, and at zero clear the interval, empty the slot and send
      the message the closure captured. A cleared interval no longer fires. */
  function Tick(c: Controller, id: TimerId): Controller {
    if id !in c.timers then c
    else
      var iv := c.timers[id];
      var left := iv.secondsLeft - 1;
      var shown := if c.pending.Some? then Some(c.pending.value.(secondsLeft := left)) else None;
      if left <= 0 then
        c.(pending := None, timers := c.timers - {id}, sent := c.sent + [iv.emailData])
      else
        c.(pending := shown, timers := c.timers[id := Interval(left, iv.emailData)])
  }

  /** `handleCancel`. */
  function Cancel(c: Controller): Controller {
    if c.pending.Some? then c.(pending := None, timers := c.timers - {c.pending.value.timer})
    else c
  }

  /** `attachToCompose`: once per compose window, a capturing click listener on
      its send button when there is one and a capturing keydown listener on the
      window itself. */
  function Attach(c: Controller, compose: ElementId, sendButton: Option<ElementId>): Controller {
    if compose in c.seen then c
    else
      var click := if sendButton.Some? then [Listener(Click, sendButton.value, compose)] else [];
      c.(seen := c.seen + {compose}, listeners := c.listeners + click + [Listener(Keydown, compose, compose)])
  }

  datatype KeyEvent = KeyEvent(key: string, ctrlKey: bool, metaKey: bool)

  /** The keydown filter. */
  predicate InterceptsKey(e: KeyEvent) {
    (e.ctrlKey || e.metaKey) && e.key == "Enter"
  }

  /** What the component renders: the banner with the seconds left, or nothing. */
  function RenderedBanner(c: Controller): (r: Option<int>)
    ensures r.Some? <==> c.pending.Some?
    ensures r.Some? ==> r.value == c.pending.value.secondsLeft
  {
    if c.pending.Some? then Some(c.pending.value.secondsLeft) else None
  }

  /** One second of wall time: the live interval, if any, fires. Under `Valid`
      the pending one is the only live interval. */
  function Second(c: Controller): Controller {
    if c.pending.Some? then Tick(c, c.pending.value.timer) else c
  }

  function Seconds(c: Controller, n: nat): Controller
    decreases n
  {
    if n == 0 then c else Seconds(Second(c), n - 1)
  }

  // ---------------------------------------------------------------- invariant

  lemma IdleValid()
    ensures Valid(Idle)
  {
  }

  lemma InterceptValid(c: Controller, emailData: EmailData)
    requires Valid(c)
    ensures Valid(Intercept(c, emailData))
  {
  }

  lemma TickValid(c: Controller, id: TimerId)
    requires Valid(c)
    ensures Valid(Tick(c, id))
  {
  }

  lemma CancelValid(c: Controller)
    requires Valid(c)
    ensures Valid(Cancel(c))
  {
  }

  /** Attaching touches only `seen` and the listeners. */
  lemma AttachValid(c: Controller, compose: ElementId, sendButton: Option<ElementId>)
    requires Valid(c)
    ensures Valid(Attach(c, compose, sendButton))
  {
  }

  /** At most one send is pending: never more than one live interval. */
  lemma AtMostOneTimer(c: Controller)
    requires Valid(c)
    ensures |c.timers| <= 1
    ensures c.pending.None? ==> |c.timers| == 0
  {
    if c.pending.Some? {
      assert c.timers.Keys == {c.pending.value.timer};
      assert |c.timers.Keys| == 1;
    }
  }

  // ---------------------------------------------------------------- properties

  /** A new intercept starts at 30 seconds; an intercept while pending changes
      nothing. */
  lemma InterceptStarts(c: Controller, emailData: EmailData)
    ensures InitialSeconds == 30
    ensures c.pending.None? ==>
      (RenderedBanner(Intercept(c, emailData)) == Some(30)
       && Intercept(c, emailData).pending.value.emailData == emailData
       && Intercept(c, emailData).sent == c.sent)
    ensures c.pending.Some? ==> Intercept(c, emailData) == c
  {
  }

  /** A firing that does not reach zero decrements the counter by exactly one
      and sends nothing; the firing that reaches zero empties the slot, leaves no
      live interval and sends the held message exactly once. */
  lemma TickStep(c: Controller)
    requires Valid(c) && c.pending.Some?
    ensures var p, d := c.pending.value, Second(c);
      && (p.secondsLeft > 1 ==> d.pending == Some(p.(secondsLeft := p.secondsLeft - 1)) && d.sent == c.sent)
      && (p.secondsLeft == 1 ==> d.pending.None? && d.timers == map[] && d.sent == c.sent + [p.emailData])
  {
  }

  /** Counting down from `n`: before `n` seconds nothing is sent and the banner
      shows `n - k`; from the `n`-th second on the message has been sent exactly
      once and nothing is pending. */
  lemma {:induction false} Countdown(c: Controller, k: nat)
    requires Valid(c) && c.pending.Some?
    decreases k
    ensures var p, d := c.pending.value, Seconds(c, k);
      && (k < p.secondsLeft ==> d.pending == Some(p.(secondsLeft := p.secondsLeft - k)) && d.sent == c.sent && Valid(d))
      && (k >= p.secondsLeft ==> d.pending.None? && d.timers == map[] && d.sent == c.sent + [p.emailData])
  {
    var p := c.pending.value;
    if k > 0 {
      TickStep(c);
      TickValid(c, p.timer);
      var c' := Second(c);
      if p.secondsLeft > 1 {
        Countdown(c', k - 1);
      } else {
        QuietAfterSend(c', k - 1);
      }
    }
  }

  /** With nothing pending, time passing changes nothing: no later tick sends. */
  lemma {:induction false} QuietAfterSend(c: Controller, k: nat)
    requires c.pending.None?
    ensures Seconds(c, k) == c
  {
    if k > 0 {
      QuietAfterSend(Second(c), k - 1);
    }
  }

  /** The whole deferred send: after an intercept from the idle slot nothing is
      sent for 29 seconds, and at 30 seconds and forever after the message has
      been sent exactly once. */
  lemma DelayedSendOnce(c: Controller, emailData: EmailData, k: nat)
    requires Valid(c) && c.pending.None?
    ensures var d := Seconds(Intercept(c, emailData), k);
      && (k < 30 ==> d.sent == c.sent && RenderedBanner(d) == Some(30 - k))
      && (k >= 30 ==> d.sent == c.sent + [emailData] && RenderedBanner(d).None?)
  {
    InterceptValid(c, emailData);
    Countdown(Intercept(c, emailData), k);
  }

  /** Cancelling while pending means the message is never sent; cancelling with
      nothing pending changes nothing. */
  lemma CancelPreventsSend(c: Controller, k: nat)
    requires Valid(c)
    ensures c.pending.None? ==> Cancel(c) == c
    ensures Seconds(Cancel(c), k).sent == c.sent
    ensures Cancel(c).timers == map[] && RenderedBanner(Cancel(c)).None?
  {
    QuietAfterSend(Cancel(c), k);
  }

  /** Attaching the same compose window again registers nothing further. */
  lemma AttachIdempotent(c: Controller, compose: ElementId, b1: Option<ElementId>, b2: Option<ElementId>)
    ensures Attach(Attach(c, compose, b1), compose, b2) == Attach(c, compose, b1)
    ensures compose !in c.seen ==>
      |Attach(c, compose, b1).listeners| == |c.listeners| + (if b1.Some? then 2 else 1)
  {
  }

  // ---------------------------------------------------------------- the component

  /** The component: its `pending` state, the live intervals, the log of API
      sends, the `seen` set and the listeners on the page. */
  class GmailIntegration {
    var pending: Option<Pending>
    var timers: map<TimerId, Interval>
    var nextTimer: TimerId
    var sent: seq<EmailData>
    var seen: set<ElementId>
    var listeners: seq<Listener>

    function State(): Controller
      reads this
    {
      Controller(pending, timers, nextTimer, sent, seen, listeners)
    }

    constructor()
      ensures State() == Idle && Valid(State())
    {
      IdleValid();
      pending := None;
      timers := map[];
      nextTimer := 0;
      sent := [];
      seen := {};
      listeners := [];
    }

    method HandleInterceptSend(emailData: EmailData)
      requires Valid(State())
      modifies this
      ensures State() == Intercept(old(State()), emailData)
      ensures Valid(State())
    {
      InterceptValid(State(), emailData);
      if pending.Some? {
        return;
      }
      var secondsLeft := DelayMs / 1000;
      var timer := nextTimer;
      nextTimer := nextTimer + 1;
      timers := timers[timer := Interval(secondsLeft, emailData)];
      pending := Some(Pending(emailData, timer, secondsLeft));
    }

    /** The callback of interval `id`. */
    method IntervalFired(id: TimerId)
      requires Valid(State())
      modifies this
      ensures State() == Tick(old(State()), id)
      ensures Valid(State())
    {
      TickValid(State(), id);
      if id !in timers {
        return;
      }
      var closure := timers[id];
      var secondsLeft := closure.secondsLeft - 1;
      if pending.Some? {
        pending := Some(pending.value.(secondsLeft := secondsLeft));
      }
      if secondsLeft <= 0 {
        timers := timers - {id};
        pending := None;
        sent := sent + [closure.emailData];
      } else {
        timers := timers[id := Interval(secondsLeft, closure.emailData)];
      }
    }

    method HandleCancel()
      requires Valid(State())
      modifies this
      ensures State() == Cancel(old(State()))
      ensures Valid(State())
    {
      CancelValid(State());
      if pending.Some? {
        timers := timers - {pending.value.timer};
        pending := None;
      }
    }

    method AttachToCompose(compose: ElementId, sendButton: Option<ElementId>)
      requires Valid(State())
      modifies this
      ensures State() == Attach(old(State()), compose, sendButton)
      ensures Valid(State())
    {
      AttachValid(State(), compose, sendButton);
      if compose in seen {
        return;
      }
      seen := seen + {compose};
      if sendButton.Some? {
        listeners := listeners + [Listener(Click, sendButton.value, compose)];
      }
      listeners := listeners + [Listener(Keydown, compose, compose)];
    }

    /** The capturing click listener: always prevents Gmail's own send. */
    method OnSendClick(emailData: EmailData) returns (prevented: bool)
      requires Valid(State())
      modifies this
      ensures prevented
      ensures State() == Intercept(old(State()), emailData)
      ensures Valid(State())
    {
      prevented := true;
      HandleInterceptSend(emailData);
    }

    /** The capturing keydown listener: only Ctrl/Meta+Enter is prevented and
        intercepted; any other key passes through untouched. */
    method OnKeydown(e: KeyEvent, emailData: EmailData) returns (prevented: bool)
      requires Valid(State())
      modifies this
      ensures prevented <==> InterceptsKey(e)
      ensures State() == if prevented then Intercept(old(State()), emailData) else old(State())
      ensures Valid(State())
    {
      prevented := false;
      if (e.ctrlKey || e.metaKey) && e.key == "Enter" {
        prevented := true;
        HandleInterceptSend(emailData);
      }
    }
  }
}
