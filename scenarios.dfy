/**
 * Worked fixtures on one court and one date, with times written the way the
 * feed writes them, and the instants at which the court card changes.
 */
module Scenarios {
  import opened Wrappers
  import opened Text
  import opened Csv
  import opened MatchTime
  import opened MatchTimeFacts
  import opened CourtSelect

  /** A fixture record with the given court, date and time columns. */
  function Fixture(court: string, date: string, time: string): Row
  {
    map["Court" := court, "Date" := date, "Time" := time]
  }

  /** A fixture written "H:MM AM|PM" starts at midnight of its date plus its 24-hour reading. */
  lemma FixtureStart(court: string, date: string, hour: nat, minute: nat)
    requires DateOk(date) && hour < 24 && minute < 60
    ensures var row := Fixture(court, date, TwelveHourText(hour, minute));
      Parsable(row) && StartOf(row) == Some(Midnight(date) + 60 * hour + minute)
  {
    var time := TwelveHourText(hour, minute);
    var row := Fixture(court, date, time);
    assert TimeText(row) == time && DateText(row) == date && "Date" in row;
    TwelveHourRoundTrip(hour, minute, date);
  }

  /**
   * One fixture written "H:MM AM|PM" (say "3:00 PM" on 2024-03-10, instant T): its
   * court shows it, upcoming, before T (at 14:50, say); live from T until T + 10
   * (at 15:05, say); and shows nothing from T + 10 on (at 15:11, say).
   */
  lemma SingleFixtureDay(court: string, date: string, hour: nat, minute: nat, now: int)
    requires court != "" && DateOk(date) && hour < 24 && minute < 60
    ensures var row := Fixture(court, date, TwelveHourText(hour, minute));
      && AllParsable([row])
      && var t := Midnight(date) + 60 * hour + minute;
      && var next := NextPerCourt([row], now);
      && (court in next <==> now < t + LiveWindow)
      && (court in next ==> next[court].row == row && (IsLive(next[court].start, now) <==> t <= now))
  {
    var row := Fixture(court, date, TwelveHourText(hour, minute));
    FixtureStart(court, date, hour, minute);
    assert CourtOf(row) == court;
    OneFixture(row, now);
  }
}
