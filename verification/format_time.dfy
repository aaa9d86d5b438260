/** The dashboard's rendering of a minute count (`formatTime`): `"Nm"` below
    an hour, `"Hh Mm"` from an hour on. */
module Duration {
  import opened Wrappers
  import opened Decimal

  /** A minute count split into whole hours and the minutes left over. */
  datatype Clock = Clock(hours: nat, minutes: nat)

  /** The label the dashboard shows for `m` minutes. */
  function FormatTime(m: nat): (r: string)
    ensures |r| >= 2 && r[|r| - 1] == 'm'
    ensures 'h' in r <==> m >= 60
  {
    if m < 60 then NatToString(m) + "m"
    else NatToString(m / 60) + "h " + NatToString(m % 60) + "m"
  }

  /** Position of the first `c` in `s`, if any. */
  function IndexOf(s: string, c: char): (r: Option<nat>)
    ensures r.Some? ==> r.value < |s| && s[r.value] == c && c !in s[..r.value]
    ensures r.None? ==> c !in s
  {
    if s == [] then None
    else if s[0] == c then Some(0)
    else match IndexOf(s[1..], c)
      case None => None
      case Some(i) => assert s[..i + 1] == [s[0]] + s[1..][..i]; Some(i + 1)
  }

  /** Reads a label of either shape back: `<numeral>m` as minutes only, and
      `<numeral>h <numeral>m` as hours and minutes, where a numeral has no
      leading zero unless it is `0` itself. Anything else is rejected. */
  function ParseClock(t: string): Option<Clock> {
    if |t| == 0 || t[|t| - 1] != 'm' then None
    else
      var body := t[..|t| - 1];
      if Numeral(body) then Some(Clock(0, DigitsValue(body)))
      else ParseHours(body)
  }

  /** Reads `<numeral>h <numeral>`, a label's text before its final `m`. */
  function ParseHours(body: string): Option<Clock> {
    match IndexOf(body, 'h')
    case None => None
    case Some(i) =>
      if i + 1 < |body| && body[i + 1] == ' '
         && Numeral(body[..i]) && Numeral(body[i + 2..])
      then Some(Clock(DigitsValue(body[..i]), DigitsValue(body[i + 2..])))
      else None
  }

  /** Total minutes a clock reading stands for. */
  function TotalMinutes(c: Clock): nat {
    c.hours * 60 + c.minutes
  }

  /** Every label reads back as the same number of minutes, with fewer than
      sixty left-over minutes, and with hours shown exactly from sixty on. */
  lemma {:induction false} FormatTimeRoundTrip(m: nat)
    ensures ParseClock(FormatTime(m)).Some?
    ensures var c := ParseClock(FormatTime(m)).value;
      && TotalMinutes(c) == m
      && c.minutes < 60
      && (c.hours == 0 <==> m < 60)
  {
    var t := FormatTime(m);
    var body := t[..|t| - 1];
    if m < 60 {
      assert body == NatToString(m);
      DigitsValueOfNatToString(m);
    } else {
      var a := NatToString(m / 60);
      var b := NatToString(m % 60);
      assert body == a + "h " + b;
      assert body[|a|] == 'h';
      assert 'h' !in a;
      assert body[..|a|] == a;
      assert IndexOf(body, 'h') == Some(|a|);
      assert body[|a| + 2..] == b;
      DigitsValueOfNatToString(m / 60);
      DigitsValueOfNatToString(m % 60);
    }
  }

  /** Conversely, a label that reads back with fewer than sixty left-over
      minutes, and with hours exactly when it shows an `h`, is the label of
      its total: the rendering is fixed to the character. */
  lemma {:induction false} ParseClockThenFormat(t: string, c: Clock)
    requires ParseClock(t) == Some(c)
    requires c.minutes < 60
    requires c.hours == 0 <==> 'h' !in t
    ensures FormatTime(TotalMinutes(c)) == t
  {
    var body := t[..|t| - 1];
    assert t == body + "m";
    if Numeral(body) {
      assert c == Clock(0, DigitsValue(body));
      MinutesLabel(body);
    } else {
      assert 'h' in t ==> 'h' in body;
      ParseHoursThenFormat(body, c);
    }
  }

  /** The hours-and-minutes shape of `ParseClockThenFormat`. */
  lemma {:induction false} ParseHoursThenFormat(body: string, c: Clock)
    requires ParseHours(body) == Some(c)
    requires c.minutes < 60 && c.hours != 0
    ensures FormatTime(TotalMinutes(c)) == body + "m"
  {
    var idx := IndexOf(body, 'h');
    assert idx.Some?;
    var i := idx.value;
    assert i + 1 < |body| && body[i] == 'h' && body[i + 1] == ' ';
    var a := body[..i];
    var b := body[i + 2..];
    assert Numeral(a) && Numeral(b);
    assert c.hours == DigitsValue(a) && c.minutes == DigitsValue(b);
    assert body[i..i + 2] == "h ";
    assert body == a + body[i..i + 2] + b;
    HoursLabel(a, b);
    var m := TotalMinutes(c);
    assert m == DigitsValue(a) * 60 + DigitsValue(b);
    assert FormatTime(m) == a + "h " + b + "m";
    assert a + "h " + b + "m" == body + "m";
  }

  /** A numeral below sixty followed by `m` is the label of its value. */
  lemma {:induction false} MinutesLabel(s: string)
    requires Numeral(s) && DigitsValue(s) < 60
    ensures FormatTime(DigitsValue(s)) == s + "m"
  {
    NatToStringOfNumeral(s);
  }

  /** `<a>h <b>m`, with `a` not zero and `b` below sixty, is the label of
      `a` hours and `b` minutes. */
  lemma {:induction false} HoursLabel(a: string, b: string)
    requires Numeral(a) && Numeral(b) && DigitsValue(a) >= 1 && DigitsValue(b) < 60
    ensures FormatTime(DigitsValue(a) * 60 + DigitsValue(b)) == a + "h " + b + "m"
  {
    var h := DigitsValue(a);
    var r := DigitsValue(b);
    var m := h * 60 + r;
    HoursAndMinutes(h, r);
    assert FormatTime(m) == NatToString(m / 60) + "h " + NatToString(m % 60) + "m";
    NatToStringOfNumeral(a);
    NatToStringOfNumeral(b);
  }

  /** Splitting `h * 60 + r` minutes, `r` below sixty, gives back `h` and `r`. */
  lemma HoursAndMinutes(h: nat, r: nat)
    requires r < 60
    ensures h * 60 + r >= 60 || h == 0
    ensures (h * 60 + r) / 60 == h && (h * 60 + r) % 60 == r
  {
  }

  /** Distinct minute counts get distinct labels. */
  lemma FormatTimeInjective(m: nat, n: nat)
    requires FormatTime(m) == FormatTime(n)
    ensures m == n
  {
    FormatTimeRoundTrip(m);
    FormatTimeRoundTrip(n);
  }
}
