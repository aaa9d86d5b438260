/** Concrete runs of the hold-to-pray machine from the seed statistics. */
module Scenarios {
  import opened Wrappers
  import opened PrayerStats
  import opened Entries
  import opened PrayerApp

  /** Holding prayer 1 for 125 seconds and releasing takes the week from 12
      prayers and 34 minutes to 13 prayers and 36 minutes. */
  lemma LongPrayer(ps: seq<Prayer>, js: seq<JournalEntry>)
    ensures var a := Run(Boot(ps, js), [PrayStart(1)] + Ticks(125) + [PrayEnd]);
      && a.stats.pw == 13 && a.stats.mw == 36 && a.stats.pm == 39 && a.stats.mm == 109
      && Idle(a)
  {
    var a0 := Boot(ps, js);
    var a1 := StartPray(a0, 1);
    assert Run(a0, [PrayStart(1)]) == a1;
    TicksAccumulate(a1, 125);
    var a2 := a1.(dur := 125);
    assert Run(a2, [PrayEnd]) == StopPray(a2);
    RunAppend(a0, [PrayStart(1)], Ticks(125));
    RunAppend(a0, [PrayStart(1)] + Ticks(125), [PrayEnd]);
    CreditedMinutesExamples();
  }

  /** Pressing prayer 2 and releasing at once leaves the stats untouched. */
  lemma ImmediateRelease(ps: seq<Prayer>, js: seq<JournalEntry>)
    ensures Run(Boot(ps, js), [PrayStart(2), PrayEnd]).stats == PrayerStats.Initial
  {
  }

  /** Pressing prayer 4 while prayer 3 is held keeps the session on prayer 3. */
  lemma SecondStartIgnored(ps: seq<Prayer>, js: seq<JournalEntry>)
    ensures Run(Boot(ps, js), [PrayStart(3), PrayStart(4)]).prayingId == Some(3)
  {
  }
}
