/** The state of the prayer-feed screen and the events that change it: the
    hold-to-pray session machine (start, one-second tick, stop), posting from
    the compose form, and the expiry of the transient notice. Every event is
    one atomic transition. */
module PrayerApp {
  import opened Wrappers
  import opened Decimal
  import opened PrayerStats
  import opened JsText
  import opened Entries

  /** `prayingId` is the target being prayed over (`null` when none), `dur`
      the elapsed seconds, `ticking` whether the one-second interval is
      installed, `notice` the notification banner. */
  datatype App = App(
    prayingId: Option<Id>, dur: nat, ticking: bool, stats: Stats,
    notice: Option<string>, prayers: seq<Prayer>, journal: seq<JournalEntry>)

  datatype Event =
    | PrayStart(id: Id)             // press on a prayer or journal card
    | Tick                          // the one-second interval fires
    | PrayEnd                       // release, mouse leave or touch end
    | PressSubmit(form: Form, newId: Id) // the compose form's submit button
    | NoticeExpired                 // the notice's timeout fires

  /** The screen as it first appears, over the given seed lists. */
  function Boot(prayers: seq<Prayer>, journal: seq<JournalEntry>): (a: App)
    ensures Idle(a) && Inv(a)
    ensures a.stats == PrayerStats.Initial && a.notice.None?
    ensures a.prayers == prayers && a.journal == journal
  {
    App(None, 0, false, PrayerStats.Initial, None, prayers, journal)
  }

  /** No session: no target, no elapsed time, no interval. */
  predicate Idle(a: App) {
    a.prayingId.None? && a.dur == 0 && !a.ticking
  }

  /** What every reachable state satisfies: the interval runs exactly while
      a target is set, and elapsed time is zero without one. */
  predicate Inv(a: App) {
    (a.ticking <==> a.prayingId.Some?) && (!a.ticking ==> a.dur == 0)
  }

  /** `startPray(id)`: ignored while the interval runs; otherwise targets
      `id`, restarts the count at zero and installs the interval. */
  function StartPray(a: App, id: Id): (r: App)
    ensures r.ticking
    ensures Inv(a) ==> Inv(r) && r.prayingId.Some?
    ensures a.ticking ==> r == a
    ensures !a.ticking ==> r.prayingId == Some(id) && r.dur == 0
    ensures r.stats == a.stats && r.notice == a.notice
    ensures r.prayers == a.prayers && r.journal == a.journal
  {
    if a.ticking then a
    else a.(prayingId := Some(id), dur := 0, ticking := true)
  }

  /** The interval's callback: one more second. */
  function TickSecond(a: App): (r: App)
    ensures r == a.(dur := r.dur)
    ensures r.dur == a.dur + 1 <==> a.ticking
    ensures r.dur == a.dur <==> !a.ticking
  {
    if a.ticking then a.(dur := a.dur + 1) else a
  }

  /** The `prayingId && dur > 0` test: a target whose id is truthy (a
      JavaScript number is falsy only when zero) and some elapsed time. */
  predicate Credits(a: App) {
    a.prayingId.Some? && a.prayingId.value != 0 && a.dur > 0
  }

  /** The banner shown when a session of `s` seconds is recorded. */
  function RecordedNotice(s: nat): (r: string)
    ensures |r| > 19 && r[..18] == "Prayer recorded · " && r[|r| - 1] == 's'
    ensures r[18..|r| - 1] == NatToString(s)
  {
    "Prayer recorded · " + NatToString(s) + "s"
  }

  /** Distinct session lengths are announced by distinct notices. */
  lemma RecordedNoticeInjective(s: nat, t: nat)
    requires RecordedNotice(s) == RecordedNotice(t)
    ensures s == t
  {
    var r := RecordedNotice(s);
    assert NatToString(s) == r[18..|r| - 1] == NatToString(t);
    NatToStringInjective(s, t);
  }

  /** `stopPray`: removes the interval, records the session when it
      counts, and clears target and elapsed time. */
  function StopPray(a: App): (r: App)
    ensures Idle(r) && Inv(r)
    ensures r.prayers == a.prayers && r.journal == a.journal
    ensures Credits(a) ==> r.stats == RecordSession(a.stats, a.dur) && r.notice == Some(RecordedNotice(a.dur))
    ensures !Credits(a) ==> r.stats == a.stats && r.notice == a.notice
  {
    var b := a.(prayingId := None, dur := 0, ticking := false);
    if Credits(a) then b.(stats := RecordSession(a.stats, a.dur), notice := Some(RecordedNotice(a.dur)))
    else b
  }

  /** `handleSubmit`: puts the new entry at the head of the journal or of
      the prayer list and announces it. */
  function HandleSubmit(a: App, f: Form, newId: Id): (r: App)
    ensures |r.prayers| + |r.journal| == |a.prayers| + |a.journal| + 1
    ensures f.isJournal ==> r.journal == [NewJournalEntry(f, newId)] + a.journal && r.prayers == a.prayers
    ensures !f.isJournal ==> r.prayers == [NewPrayer(f, newId)] + a.prayers && r.journal == a.journal
    ensures r.notice.Some?
    ensures r.prayingId == a.prayingId && r.dur == a.dur && r.ticking == a.ticking && r.stats == a.stats
  {
    if f.isJournal then
      a.(journal := [NewJournalEntry(f, newId)] + a.journal, notice := Some("Added to your prayer journal"))
    else
      a.(prayers := [NewPrayer(f, newId)] + a.prayers, notice := Some("Prayer request posted"))
  }

  /** The compose form's button submits only when the trimmed text is
      non-empty. */
  function SubmitPressed(a: App, f: Form, newId: Id): (r: App)
    ensures r == a <==> !HasContent(f.text)
  {
    if HasContent(f.text) then HandleSubmit(a, f, newId) else a
  }

  /** One event. Only a stop touches the statistics, only a submit touches
      the lists, and the notice timeout clears the notice and nothing else. */
  function Step(a: App, e: Event): (r: App)
    ensures !e.PrayEnd? ==> r.stats == a.stats
    ensures !e.PressSubmit? ==> r.prayers == a.prayers && r.journal == a.journal
    ensures e.NoticeExpired? ==> r == a.(notice := None)
  {
    match e
    case PrayStart(id) => StartPray(a, id)
    case Tick => TickSecond(a)
    case PrayEnd => StopPray(a)
    case PressSubmit(f, newId) => SubmitPressed(a, f, newId)
    case NoticeExpired => a.(notice := None)
  }

  /** The state after the events `es`, in order. */
  function Run(a: App, es: seq<Event>): App
    decreases |es|
  {
    if es == [] then a else Run(Step(a, es[0]), es[1..])
  }

  // ---------------------------------------------------------------------
  // The session machine

  /** Every event keeps the invariant. */
  lemma StepPreservesInv(a: App, e: Event)
    requires Inv(a)
    ensures Inv(Step(a, e))
  {
  }

  /** Every run from a state satisfying the invariant keeps it. */
  lemma {:induction false} RunPreservesInv(a: App, es: seq<Event>)
    requires Inv(a)
    ensures Inv(Run(a, es))
    decreases |es|
  {
    if es != [] {
      StepPreservesInv(a, es[0]);
      RunPreservesInv(Step(a, es[0]), es[1..]);
    }
  }

  /** Starting while a session runs changes nothing: the target and the
      elapsed count stay, and no second interval is installed. */
  lemma StartWhileActiveIsNoOp(a: App, id: Id)
    requires Inv(a) && a.prayingId.Some?
    ensures StartPray(a, id) == a
  {
  }

  /** Starting from idle targets `id` with the count at zero and the interval
      running, and touches nothing else. */
  lemma StartFromIdle(a: App, id: Id)
    requires Inv(a) && a.prayingId.None?
    ensures var b := StartPray(a, id);
      && b.prayingId == Some(id) && b.dur == 0 && b.ticking && Inv(b)
      && b.stats == a.stats && b.notice == a.notice
      && b.prayers == a.prayers && b.journal == a.journal
  {
  }

  /** While a session runs each tick adds exactly one second; without one a
      tick changes nothing. */
  lemma TickAddsOneSecond(a: App)
    requires Inv(a)
    ensures a.prayingId.Some? ==> TickSecond(a) == a.(dur := a.dur + 1)
    ensures a.prayingId.None? ==> TickSecond(a) == a
  {
  }

  /** `n` consecutive ticks. */
  function Ticks(n: nat): (es: seq<Event>)
    ensures |es| == n && forall i :: 0 <= i < n ==> es[i] == Tick
  {
    if n == 0 then [] else [Tick] + Ticks(n - 1)
  }

  /** During a session, `n` ticks add exactly `n` seconds and nothing else. */
  lemma {:induction false} TicksAccumulate(a: App, n: nat)
    requires Inv(a) && a.prayingId.Some?
    ensures Run(a, Ticks(n)) == a.(dur := a.dur + n)
    decreases n
  {
    if n > 0 {
      assert Ticks(n)[1..] == Ticks(n - 1);
      TicksAccumulate(a.(dur := a.dur + 1), n - 1);
    }
  }

  /** Stopping a counting session adds one prayer to week and month, the same
      credited minutes (at least one, the rounded elapsed minutes) to week and
      month, and leaves needs and goals alone. */
  lemma StopCreditsSession(a: App)
    requires Credits(a)
    ensures var b := StopPray(a);
      && b.stats.pw == a.stats.pw + 1 && b.stats.pm == a.stats.pm + 1
      && b.stats.mw - a.stats.mw == b.stats.mm - a.stats.mm == CreditedMinutes(a.dur) >= 1
      && SameNeedsAndGoals(a.stats, b.stats)
      && b.notice == Some(RecordedNotice(a.dur))
      && b.prayers == a.prayers && b.journal == a.journal
  {
  }

  /** Stopping with nothing elapsed, with no target, or with a zero id,
      leaves every counter and the notice as they were. */
  lemma StopWithoutCreditKeepsStats(a: App)
    requires !Credits(a)
    ensures StopPray(a).stats == a.stats && StopPray(a).notice == a.notice
  {
  }

  /** After any stop the machine is idle, and a following start succeeds and
      counts from zero. */
  lemma StopThenStart(a: App, id: Id)
    ensures Idle(StopPray(a)) && Inv(StopPray(a))
    ensures var b := StartPray(StopPray(a), id);
      b.prayingId == Some(id) && b.dur == 0 && b.ticking
  {
  }

  /** One event never lowers a counter; it adds as many prayers to the week
      as to the month and as many minutes to the week as to the month, at
      least one minute per prayer; needs and goals never change. */
  lemma StepStatsGrow(a: App, e: Event)
    ensures var b := Step(a, e).stats;
      && Le(a.stats, b) && SameNeedsAndGoals(a.stats, b)
      && b.pw - a.stats.pw == b.pm - a.stats.pm
      && b.mw - a.stats.mw == b.mm - a.stats.mm
      && b.mw - a.stats.mw >= b.pw - a.stats.pw
  {
  }

  /** The same over any sequence of events. */
  lemma {:induction false} RunStatsGrow(a: App, es: seq<Event>)
    ensures var b := Run(a, es).stats;
      && Le(a.stats, b) && SameNeedsAndGoals(a.stats, b)
      && b.pw - a.stats.pw == b.pm - a.stats.pm
      && b.mw - a.stats.mw == b.mm - a.stats.mm
      && b.mw - a.stats.mw >= b.pw - a.stats.pw
    decreases |es|
  {
    if es != [] {
      StepStatsGrow(a, es[0]);
      RunStatsGrow(Step(a, es[0]), es[1..]);
    }
  }

  /** Running `xs` then `ys` is running their concatenation. */
  lemma {:induction false} RunAppend(a: App, xs: seq<Event>, ys: seq<Event>)
    ensures Run(a, xs + ys) == Run(Run(a, xs), ys)
    decreases |xs|
  {
    if xs == [] {
      assert xs + ys == ys;
    } else {
      assert (xs + ys)[0] == xs[0];
      assert (xs + ys)[1..] == xs[1..] + ys;
      RunAppend(Step(a, xs[0]), xs[1..], ys);
    }
  }

  // ---------------------------------------------------------------------
  // Posting

  /** Pressing submit with blank text changes nothing; with text it adds
      exactly one entry at the head of the chosen list, keeps the existing
      entries in order, and leaves the other list, the session and the
      stats alone. */
  lemma SubmitPrependsOne(a: App, f: Form, newId: Id)
    ensures !HasContent(f.text) ==> SubmitPressed(a, f, newId) == a
    ensures HasContent(f.text) && f.isJournal ==>
      var b := SubmitPressed(a, f, newId);
      && |b.journal| == |a.journal| + 1 && b.journal[0] == NewJournalEntry(f, newId)
      && b.journal[1..] == a.journal && b.prayers == a.prayers
      && b.prayingId == a.prayingId && b.dur == a.dur && b.ticking == a.ticking
      && b.stats == a.stats && b.notice == Some("Added to your prayer journal")
    ensures HasContent(f.text) && !f.isJournal ==>
      var b := SubmitPressed(a, f, newId);
      && |b.prayers| == |a.prayers| + 1 && b.prayers[0] == NewPrayer(f, newId)
      && b.prayers[1..] == a.prayers && b.journal == a.journal
      && b.prayingId == a.prayingId && b.dur == a.dur && b.ticking == a.ticking
      && b.stats == a.stats && b.notice == Some("Prayer request posted")
  {
  }

  /** A posted request heads the feed, the wall is unchanged, and every
      prayer still shows on exactly one of the two. */
  lemma SubmitFeedsFeed(a: App, f: Form, newId: Id)
    requires HasContent(f.text) && !f.isJournal
    ensures var b := SubmitPressed(a, f, newId);
      && Feed(b.prayers) == [NewPrayer(f, newId)] + Feed(a.prayers)
      && Wall(b.prayers) == Wall(a.prayers)
      && forall p :: p in b.prayers ==> (p in Feed(b.prayers) <==> p !in Wall(b.prayers))
  {
  }
}
