/** Reading-time figures of the statistics unit: a whole number of seconds is
    split into days, hours and minutes and printed as "2 days, 3 mins". */
module StatsTime {
  import opened Text

  const SECONDS_PER_MINUTE := 60
  const SECONDS_PER_HOUR := 3600
  const SECONDS_PER_DAY := 86400

  datatype Duration = Duration(days: nat, hours: nat, minutes: nat)

  /** The number of seconds a duration stands for. */
  function Seconds(d: Duration): nat {
    d.days * SECONDS_PER_DAY + d.hours * SECONDS_PER_HOUR + d.minutes * SECONDS_PER_MINUTE
  }

  /** The quotient/remainder facts the decomposition rests on. */
  lemma DayRemainder(delta: nat)
    ensures delta - (delta / SECONDS_PER_DAY) * SECONDS_PER_DAY == delta % SECONDS_PER_DAY
    ensures (delta % SECONDS_PER_DAY) / SECONDS_PER_HOUR < 24
    ensures (delta % SECONDS_PER_DAY) % SECONDS_PER_HOUR == delta % SECONDS_PER_HOUR
  {
    var r := delta % SECONDS_PER_DAY;
    var q := delta / SECONDS_PER_DAY;
    assert delta == q * SECONDS_PER_DAY + r;
    assert delta == (q * 24 + r / SECONDS_PER_HOUR) * SECONDS_PER_HOUR + r % SECONDS_PER_HOUR;
  }

  lemma HourRemainder(rest: nat)
    requires rest < SECONDS_PER_DAY
    ensures rest - (rest / SECONDS_PER_HOUR) * SECONDS_PER_HOUR == rest % SECONDS_PER_HOUR
    ensures (rest % SECONDS_PER_HOUR) / SECONDS_PER_MINUTE < 60
  {
  }

  /** A count of seconds is its whole days, hours of the day, minutes of the hour and
      seconds of the minute. */
  lemma Decompose(delta: nat)
    ensures delta == (delta / SECONDS_PER_DAY) * SECONDS_PER_DAY
                     + (delta % SECONDS_PER_DAY / SECONDS_PER_HOUR) * SECONDS_PER_HOUR
                     + (delta % SECONDS_PER_HOUR / SECONDS_PER_MINUTE) * SECONDS_PER_MINUTE
                     + delta % SECONDS_PER_MINUTE
  {
    DayRemainder(delta);
    var r := delta % SECONDS_PER_DAY;
    assert r == (r / SECONDS_PER_HOUR) * SECONDS_PER_HOUR + r % SECONDS_PER_HOUR;
    var m := delta % SECONDS_PER_HOUR;
    assert m == (m / SECONDS_PER_MINUTE) * SECONDS_PER_MINUTE + m % SECONDS_PER_MINUTE;
    assert delta == (delta / SECONDS_PER_MINUTE) * SECONDS_PER_MINUTE + delta % SECONDS_PER_MINUTE;
    assert delta == (delta / SECONDS_PER_HOUR) * SECONDS_PER_HOUR + m;
    assert m % SECONDS_PER_MINUTE == delta % SECONDS_PER_MINUTE;
  }

  /** `processTime`: floor-divides a count of seconds into whole days, hours of
      the day and minutes of the hour; leftover seconds are dropped, and a result
      of all zeros is raised to one minute. */
  function ProcessTime(delta: nat): (d: Duration)
    ensures d.days == delta / SECONDS_PER_DAY
    ensures d.hours < 24 && d.minutes < 60
    ensures delta >= SECONDS_PER_MINUTE ==> Seconds(d) <= delta < Seconds(d) + SECONDS_PER_MINUTE
    ensures delta < SECONDS_PER_MINUTE ==> d == Duration(0, 0, 1)
    ensures d != Duration(0, 0, 0)
  {
    var days := delta / SECONDS_PER_DAY;
    var rest := delta - days * SECONDS_PER_DAY;
    DayRemainder(delta);
    var hours := (rest / SECONDS_PER_HOUR) % 24;
    var rest' := rest - hours * SECONDS_PER_HOUR;
    HourRemainder(rest);
    var minutes := (rest' / SECONDS_PER_MINUTE) % 60;
    assert hours == delta % SECONDS_PER_DAY / SECONDS_PER_HOUR;
    assert minutes == delta % SECONDS_PER_HOUR / SECONDS_PER_MINUTE;
    Decompose(delta);
    if days == 0 && hours == 0 && minutes == 0 then Duration(days, hours, 1)
    else Duration(days, hours, minutes)
  }

  /** From one minute on, each component is the plain quotient of the matching remainder. */
  lemma {:induction false} ProcessTimeReference(delta: nat)
    requires delta >= SECONDS_PER_MINUTE
    ensures ProcessTime(delta) == Duration(delta / SECONDS_PER_DAY,
                                           delta % SECONDS_PER_DAY / SECONDS_PER_HOUR,
                                           delta % SECONDS_PER_HOUR / SECONDS_PER_MINUTE)
  {
    DayRemainder(delta);
    HourRemainder(delta % SECONDS_PER_DAY);
  }

  /** One `${amount} ${pluralize(unit, amount)}` piece; `pluralize` is a parameter. */
  function Piece(unit: string, amount: nat, pluralize: (string, nat) -> string): (p: string)
    ensures |p| > 0
  {
    Decimal(amount) + " " + pluralize(unit, amount)
  }

  datatype Entry = Entry(unit: string, amount: nat)

  /** The `{ day, hour, min }` object, in key order. */
  function Entries(d: Duration): seq<Entry> {
    [Entry("day", d.days), Entry("hour", d.hours), Entry("min", d.minutes)]
  }

  /** The `map` to a piece or `null` for a zero amount, then the `filter` of the nulls. */
  function NonZeroPieces(es: seq<Entry>, pluralize: (string, nat) -> string): (r: seq<string>)
    ensures |r| <= |es|
  {
    if |es| == 0 then []
    else
      (if es[0].amount == 0 then [] else [Piece(es[0].unit, es[0].amount, pluralize)])
      + NonZeroPieces(es[1..], pluralize)
  }

  /** The pieces of a duration written out: zero components left out, the rest in
      day, hour, minute order. */
  function PresentPieces(d: Duration, pluralize: (string, nat) -> string): seq<string> {
    (if d.days != 0 then [Piece("day", d.days, pluralize)] else [])
    + (if d.hours != 0 then [Piece("hour", d.hours, pluralize)] else [])
    + (if d.minutes != 0 then [Piece("min", d.minutes, pluralize)] else [])
  }

  lemma NonZeroPiecesOfEntries(d: Duration, pluralize: (string, nat) -> string)
    ensures NonZeroPieces(Entries(d), pluralize) == PresentPieces(d, pluralize)
  {
    var es := Entries(d);
    var a := if d.days != 0 then [Piece("day", d.days, pluralize)] else [];
    var b := if d.hours != 0 then [Piece("hour", d.hours, pluralize)] else [];
    var c := if d.minutes != 0 then [Piece("min", d.minutes, pluralize)] else [];
    assert es[1..][1..][1..] == [];
    assert NonZeroPieces(es[1..][1..], pluralize) == c + NonZeroPieces(es[1..][1..][1..], pluralize) == c;
    assert NonZeroPieces(es[1..], pluralize) == b + c;
    assert NonZeroPieces(es, pluralize) == a + (b + c);
    assert a + (b + c) == a + b + c;
  }

  /** `formatTime`: the non-zero components in order, joined with ", "; never empty. */
  function FormatTime(totalSeconds: nat, pluralize: (string, nat) -> string): (r: string)
    ensures r == JoinWith(PresentPieces(ProcessTime(totalSeconds), pluralize), ", ")
    ensures |r| > 0
  {
    var d := ProcessTime(totalSeconds);
    NonZeroPiecesOfEntries(d, pluralize);
    JoinWith(NonZeroPieces(Entries(d), pluralize), ", ")
  }

  /** Under a minute the text is always "1 min" (as pluralised). */
  lemma FormatTimeUnderAMinute(totalSeconds: nat, pluralize: (string, nat) -> string)
    requires totalSeconds < SECONDS_PER_MINUTE
    ensures FormatTime(totalSeconds, pluralize) == "1 " + pluralize("min", 1)
  {
    assert Decimal(1) == "1";
  }

  /** One day, one hour, one minute and one second: all three components appear. */
  lemma FormatTimeAllComponents(pluralize: (string, nat) -> string)
    ensures FormatTime(90061, pluralize)
         == "1 " + pluralize("day", 1) + ", 1 " + pluralize("hour", 1) + ", 1 " + pluralize("min", 1)
  {
    assert Decimal(1) == "1";
    assert ProcessTime(90061) == Duration(1, 1, 1);
    var p := PresentPieces(Duration(1, 1, 1), pluralize);
    assert Piece("day", 1, pluralize) == "1 " + pluralize("day", 1);
    assert Piece("hour", 1, pluralize) == "1 " + pluralize("hour", 1);
    assert Piece("min", 1, pluralize) == "1 " + pluralize("min", 1);
    assert p == [Piece("day", 1, pluralize), Piece("hour", 1, pluralize), Piece("min", 1, pluralize)];
    assert p[1..][1..] == [p[2]];
    assert JoinWith(p[1..][1..], ", ") == p[2];
    assert JoinWith(p[1..], ", ") == p[1] + ", " + p[2];
  }
}
