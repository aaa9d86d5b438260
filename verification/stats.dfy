/** The personal prayer statistics shown on the dashboard, and the update a
    finished timed prayer applies to them. */
module PrayerStats {

  /** Weekly counters `pw` (prayers), `mw` (minutes), `nw` (needs); weekly
      goals `gp`, `gm`, `gn`; monthly counters `pm`, `mm`, `nm`. */
  datatype Stats = Stats(pw: nat, mw: nat, nw: nat, gp: nat, gm: nat, gn: nat, pm: nat, mm: nat, nm: nat)

  /** The seed values the app starts with. */
  const Initial: Stats := Stats(12, 34, 8, 15, 45, 10, 38, 107, 19)

  /** `Math.round(s / 60)` for a non-negative whole number of seconds: the
      nearest whole number of minutes, a half minute rounding up. */
  function RoundedMinutes(s: nat): (q: nat)
    ensures 120 * q - 60 <= 2 * s < 120 * q + 60
  {
    var q := (s + 30) / 60;
    assert s + 30 == 60 * q + (s + 30) % 60;
    q
  }

  /** At most one whole number lies within half a minute of `s` seconds
      (a half minute below included, a half minute above excluded). */
  lemma RoundedMinutesUnique(s: nat, q: int)
    requires 120 * q - 60 <= 2 * s < 120 * q + 60
    ensures q == RoundedMinutes(s)
  {
  }

  /** `Math.max(1, Math.round(s / 60))`: the minutes a session of `s` seconds
      adds to the minute counters. */
  function CreditedMinutes(s: nat): (c: nat)
    ensures c >= 1
    ensures s >= 30 ==> 120 * c - 60 <= 2 * s < 120 * c + 60
    ensures s < 30 ==> c == 1
  {
    var q := RoundedMinutes(s);
    if q < 1 then 1 else q
  }

  /** Sample values: 125 s credit 2 minutes, 29 s credit 1, 90 s credit 2. */
  lemma CreditedMinutesExamples()
    ensures CreditedMinutes(125) == 2
    ensures CreditedMinutes(29) == 1
    ensures CreditedMinutes(90) == 2
    ensures CreditedMinutes(1) == 1
  {
  }

  /** The update for one finished session of `s` seconds: one more prayer this
      week and month, and the credited minutes on both minute counters. */
  function RecordSession(st: Stats, s: nat): (r: Stats)
    ensures r.pw == st.pw + 1 && r.pm == st.pm + 1
    ensures r.mw - st.mw == r.mm - st.mm == CreditedMinutes(s) >= 1
    ensures SameNeedsAndGoals(st, r) && Le(st, r)
  {
    var c := CreditedMinutes(s);
    st.(pw := st.pw + 1, pm := st.pm + 1, mw := st.mw + c, mm := st.mm + c)
  }

  /** Every counter and goal of `a` is at most the one of `b`. */
  predicate Le(a: Stats, b: Stats) {
    && a.pw <= b.pw && a.mw <= b.mw && a.nw <= b.nw
    && a.gp <= b.gp && a.gm <= b.gm && a.gn <= b.gn
    && a.pm <= b.pm && a.mm <= b.mm && a.nm <= b.nm
  }

  /** The fields a timed session never touches: needs counters and goals. */
  predicate SameNeedsAndGoals(a: Stats, b: Stats) {
    a.nw == b.nw && a.nm == b.nm && a.gp == b.gp && a.gm == b.gm && a.gn == b.gn
  }
}
