/**
 * `getNextMatchPerCourt` (app.js:67-107) and the live/upcoming test of
 * app.js:139: which fixture each court shows at instant `now`.
 */
module CourtSelect {
  import opened Wrappers
  import opened Csv
  import opened MatchTime

  /** Minutes after its start during which a match still counts as playing (app.js:93). */
  const LiveWindow := 10

  /** A fixture row together with the start instant `parseMatchTime` gave it (`match.parsedTime`). */
  datatype Scheduled = Scheduled(row: Row, start: int)

  /** `match.Court || 'Unknown Court'`: an absent or empty label falls back to 'Unknown Court'. */
  function CourtOf(row: Row): (court: string)
    ensures court != ""
    ensures "Court" in row && row["Court"] != "" ==> court == row["Court"]
  {
    if "Court" in row && row["Court"] != "" then row["Court"] else "Unknown Court"
  }

  /** `match.Time`, with an absent column read as the (equally falsy) empty text. */
  function TimeText(row: Row): string
  {
    if "Time" in row then row["Time"] else ""
  }

  function DateText(row: Row): string
  {
    if "Date" in row then row["Date"] else ""
  }

  /**
   * What `parseMatchTime(match.Time, match.Date)` needs to run: past its early `null`
   * return the date column must exist (else `dateStr.split` throws), and when a
   * clock is read the date must be one whose parts `parseInt` reads exactly.
   */
  predicate Parsable(row: Row)
    ensures TimeText(row) == "" || TimeText(row) == "N/A" ==> Parsable(row)
    ensures "Date" !in row ==> (Parsable(row) <==> TimeText(row) == "" || TimeText(row) == "N/A")
  {
    var time := TimeText(row);
    time == "" || time == "N/A" || ("Date" in row && (ReadsClock(time) ==> DateOk(row["Date"])))
  }

  predicate AllParsable(matches: seq<Row>)
  {
    forall i :: 0 <= i < |matches| ==> Parsable(matches[i])
  }

  /** The parsed start of a row, `None` where `parseMatchTime` returns `null`. */
  function StartOf(row: Row): (t: Option<int>)
    requires Parsable(row)
    ensures "Time" !in row ==> t.None?
    ensures t.None? <==> TimeText(row) == "" || TimeText(row) == "N/A" || FindClock(TimeText(row)).None?
  {
    ParseMatchTime(TimeText(row), DateText(row))
  }

  /** The court labels of the feed, the possible keys of `courtMatches`. */
  function CourtsOf(matches: seq<Row>): set<string>
  {
    set i | 0 <= i < |matches| :: CourtOf(matches[i])
  }

  /**
   * `courtMatches[court]` after the `forEach` of app.js:71-82: the rows of that
   * court whose time parses, in feed order, each with its start.
   */
  function Bucket(matches: seq<Row>, court: string): (b: seq<Scheduled>)
    requires AllParsable(matches)
    ensures |b| <= |matches|
    ensures forall s :: s in b ==> s.row in matches && CourtOf(s.row) == court && StartOf(s.row) == Some(s.start)
    decreases |matches|
  {
    if matches == [] then []
    else
      var last := matches[|matches| - 1];
      var t := StartOf(last);
      Bucket(matches[..|matches| - 1], court)
        + (if CourtOf(last) == court && t.Some? then [Scheduled(last, t.value)] else [])
  }

  /** Every row of the court whose time parses is in its bucket, with its start. */
  lemma BucketComplete(matches: seq<Row>, court: string)
    requires AllParsable(matches)
    ensures forall i :: 0 <= i < |matches| && CourtOf(matches[i]) == court && StartOf(matches[i]).Some?
                ==> Scheduled(matches[i], StartOf(matches[i]).value) in Bucket(matches, court)
  {
    forall i | 0 <= i < |matches| && CourtOf(matches[i]) == court && StartOf(matches[i]).Some?
      ensures Scheduled(matches[i], StartOf(matches[i]).value) in Bucket(matches, court)
    {
      BucketHasRow(matches, court, i, StartOf(matches[i]).value);
    }
  }

  /** The row at `i`, of court `court` and starting at `t`, is in the court's bucket. */
  lemma {:induction false} BucketHasRow(matches: seq<Row>, court: string, i: nat, t: int)
    requires AllParsable(matches) && i < |matches|
    requires CourtOf(matches[i]) == court && StartOf(matches[i]) == Some(t)
    ensures Scheduled(matches[i], t) in Bucket(matches, court)
    decreases |matches|
  {
    var done, last := matches[..|matches| - 1], matches[|matches| - 1];
    assert matches == done + [last];
    BucketSnoc(done, last, court);
    if i < |done| {
      assert done[i] == matches[i];
      BucketHasRow(done, court, i, t);
    } else {
      assert last == matches[i];
    }
  }

  /** `now < tenMinutesAfterStart` (app.js:95): the match has not yet left its live window. */
  predicate Eligible(s: Scheduled, now: int)
  {
    now < s.start + LiveWindow
  }

  predicate HasEligible(b: seq<Scheduled>, now: int)
  {
    exists k :: 0 <= k < |b| && Eligible(b[k], now)
  }

  /**
   * The match a court should show: `b[k]` has not left its live window, every match
   * that starts earlier has, and no match with the same start comes before it in
   * the feed.
   */
  predicate IsNextAt(b: seq<Scheduled>, now: int, k: int)
  {
    && 0 <= k < |b|
    && Eligible(b[k], now)
    && (forall j :: 0 <= j < |b| && b[j].start < b[k].start ==> !Eligible(b[j], now))
    && (forall j :: 0 <= j < k ==> b[j].start != b[k].start)
  }

  ghost predicate IsNext(b: seq<Scheduled>, now: int, s: Scheduled)
  {
    exists k :: IsNextAt(b, now, k) && b[k] == s
  }

  /** At most one match of a bucket is the one to show. */
  lemma IsNextAtUnique(b: seq<Scheduled>, now: int, k1: int, k2: int)
    requires IsNextAt(b, now, k1) && IsNextAt(b, now, k2)
    ensures k1 == k2
  {
  }

  /**
   * Reference selection, independent of sorting: one pass over the bucket in feed
   * order keeping the eligible match with the smallest start, the earlier one on a tie.
   */
  function EarliestIndex(b: seq<Scheduled>, now: int): (r: Option<nat>)
    ensures r.Some? ==> IsNextAt(b, now, r.value)
    ensures r.None? ==> !HasEligible(b, now)
    decreases |b|
  {
    if b == [] then None
    else
      var n := |b| - 1;
      var p := EarliestIndex(b[..n], now);
      assert forall j :: 0 <= j < n ==> b[..n][j] == b[j];
      if !Eligible(b[n], now) then p
      else if p.Some? && b[p.value].start <= b[n].start then p
      else Some(n)
  }

  function Earliest(b: seq<Scheduled>, now: int): (r: Option<Scheduled>)
    ensures r.Some? ==> IsNext(b, now, r.value)
    ensures r.None? <==> !HasEligible(b, now)
  {
    match EarliestIndex(b, now)
    case Some(k) => Some(b[k])
    case None => None
  }

  /** The reference keeps the running choice unless `x` is eligible and strictly earlier. */
  function Step(p: Option<Scheduled>, x: Scheduled, now: int): Option<Scheduled>
  {
    if !Eligible(x, now) then p
    else if p.Some? && p.value.start <= x.start then p
    else Some(x)
  }

  lemma EarliestSnoc(b: seq<Scheduled>, x: Scheduled, now: int)
    ensures Earliest(b + [x], now) == Step(Earliest(b, now), x, now)
  {
    assert (b + [x])[..|b|] == b;
  }

  predicate Sorted(s: seq<Scheduled>)
  {
    forall i, j :: 0 <= i < j < |s| ==> s[i].start <= s[j].start
  }

  /** One step of a stable insertion sort: `x` goes after every element that does not start later. */
  function Insert(r: seq<Scheduled>, x: Scheduled): (q: seq<Scheduled>)
    ensures multiset(q) == multiset(r) + multiset{x}
    decreases |r|
  {
    if r == [] || r[|r| - 1].start <= x.start then r + [x]
    else
      var n := |r| - 1;
      assert r == r[..n] + [r[n]];
      Insert(r[..n], x) + [r[n]]
  }

  lemma {:induction false} InsertSorted(r: seq<Scheduled>, x: Scheduled)
    requires Sorted(r)
    ensures Sorted(Insert(r, x))
    decreases |r|
  {
    if r != [] && r[|r| - 1].start > x.start {
      var n := |r| - 1;
      var front := r[..n];
      assert Sorted(front);
      InsertSorted(front, x);
      SortedBelow(front, Insert(front, x), x, r[n]);
      assert Insert(r, x) == Insert(front, x) + [r[n]];
    }
  }

  /**
   * When `q` is a sorted rearrangement of `r` and `x`, none of which starts after
   * `y`, then `y` can follow `q` and the result is still sorted.
   */
  lemma SortedBelow(r: seq<Scheduled>, q: seq<Scheduled>, x: Scheduled, y: Scheduled)
    requires Sorted(q) && multiset(q) == multiset(r) + multiset{x}
    requires x.start <= y.start && forall k :: 0 <= k < |r| ==> r[k].start <= y.start
    ensures Sorted(q + [y])
  {
    forall i | 0 <= i < |q|
      ensures q[i].start <= y.start
    {
      var e := q[i];
      assert e in multiset(q);
      if e != x {
        assert e in multiset(r);
        var k :| 0 <= k < |r| && r[k] == e;
      }
    }
  }

  /**
   * `courtMatches[court].sort((a, b) => a.parsedTime - b.parsedTime)` (app.js:87):
   * ascending by start, a permutation of the bucket, and stable (ECMAScript 2019 on).
   */
  function SortByStart(b: seq<Scheduled>): (r: seq<Scheduled>)
    ensures Sorted(r)
    ensures multiset(r) == multiset(b)
    decreases |b|
  {
    if b == [] then []
    else
      var n := |b| - 1;
      assert b == b[..n] + [b[n]];
      var sorted := SortByStart(b[..n]);
      InsertSorted(sorted, b[n]);
      Insert(sorted, b[n])
  }

  /** The elements that start at `t`, in order. */
  function WithStart(s: seq<Scheduled>, t: int): seq<Scheduled>
    decreases |s|
  {
    if s == [] then []
    else WithStart(s[..|s| - 1], t) + (if s[|s| - 1].start == t then [s[|s| - 1]] else [])
  }

  lemma WithStartSnoc(s: seq<Scheduled>, y: Scheduled, t: int)
    ensures WithStart(s + [y], t) == WithStart(s, t) + (if y.start == t then [y] else [])
  {
    assert (s + [y])[..|s|] == s;
  }

  lemma {:induction false} InsertWithStart(r: seq<Scheduled>, x: Scheduled, t: int)
    ensures WithStart(Insert(r, x), t) == WithStart(r, t) + (if x.start == t then [x] else [])
    decreases |r|
  {
    if r == [] || r[|r| - 1].start <= x.start {
      WithStartSnoc(r, x, t);
    } else {
      var n := |r| - 1;
      var front, last := r[..n], r[n];
      assert r == front + [last];
      assert Insert(r, x) == Insert(front, x) + [last];
      InsertWithStart(front, x, t);
      WithStartSnoc(Insert(front, x), last, t);
      WithStartSnoc(front, last, t);
    }
  }

  /** Stability: matches with equal starts keep their feed order. */
  lemma {:induction false} SortIsStable(b: seq<Scheduled>, t: int)
    ensures WithStart(SortByStart(b), t) == WithStart(b, t)
    decreases |b|
  {
    if b != [] {
      var n := |b| - 1;
      SortIsStable(b[..n], t);
      InsertWithStart(SortByStart(b[..n]), b[n], t);
    }
  }

  /** The `for ... break` scan of app.js:91-99 as a function: the first eligible match. */
  function FirstEligible(s: seq<Scheduled>, now: int): (r: Option<Scheduled>)
    ensures r.Some? ==> r.value in s && Eligible(r.value, now)
    ensures r.None? ==> forall k :: 0 <= k < |s| ==> !Eligible(s[k], now)
    decreases |s|
  {
    if s == [] then None
    else if Eligible(s[0], now) then Some(s[0])
    else FirstEligible(s[1..], now)
  }

  lemma {:induction false} FirstEligibleSnoc(r: seq<Scheduled>, y: Scheduled, now: int)
    ensures FirstEligible(r + [y], now)
         == if FirstEligible(r, now).Some? then FirstEligible(r, now)
            else if Eligible(y, now) then Some(y) else None
    decreases |r|
  {
    if r != [] {
      assert (r + [y])[1..] == r[1..] + [y];
      FirstEligibleSnoc(r[1..], y, now);
    }
  }

  /** On a sorted list, inserting `x` changes the first eligible match exactly as the reference step does. */
  lemma {:induction false} FirstEligibleInsert(r: seq<Scheduled>, x: Scheduled, now: int)
    requires Sorted(r)
    ensures FirstEligible(Insert(r, x), now) == Step(FirstEligible(r, now), x, now)
    decreases |r|
  {
    if r == [] || r[|r| - 1].start <= x.start {
      FirstEligibleSnoc(r, x, now);
      var f := FirstEligible(r, now);
      if f.Some? {
        var k :| 0 <= k < |r| && r[k] == f.value;
        assert r[k].start <= r[|r| - 1].start;
      }
    } else {
      var n := |r| - 1;
      var l := r[n];
      assert r == r[..n] + [l];
      FirstEligibleInsert(r[..n], x, now);
      FirstEligibleSnoc(Insert(r[..n], x), l, now);
      FirstEligibleSnoc(r[..n], l, now);
    }
  }

  /** Sorting stably and scanning for the first eligible match is the reference selection. */
  lemma {:induction false} SortThenScan(b: seq<Scheduled>, now: int)
    ensures FirstEligible(SortByStart(b), now) == Earliest(b, now)
    decreases |b|
  {
    if b != [] {
      var n := |b| - 1;
      var front, last := b[..n], b[n];
      assert b == front + [last];
      calc {
        FirstEligible(SortByStart(b), now);
        FirstEligible(Insert(SortByStart(front), last), now);
        { FirstEligibleInsert(SortByStart(front), last, now); }
        Step(FirstEligible(SortByStart(front), now), last, now);
        { SortThenScan(front, now); }
        Step(Earliest(front, now), last, now);
        { EarliestSnoc(front, last, now); }
        Earliest(b, now);
      }
    }
  }

  /** The scan of app.js:89-99 over a sorted bucket. */
  method ScanForNext(games: seq<Scheduled>, now: int) returns (found: Option<Scheduled>)
    ensures found == FirstEligible(games, now)
    ensures found.None? <==> forall k :: 0 <= k < |games| ==> !Eligible(games[k], now)
    ensures found.Some? ==> exists k :: 0 <= k < |games| && games[k] == found.value
                              && Eligible(games[k], now) && forall j :: 0 <= j < k ==> !Eligible(games[j], now)
  {
    found := None;
    var i := 0;
    while i < |games|
      invariant 0 <= i <= |games|
      invariant forall j :: 0 <= j < i ==> !Eligible(games[j], now)
      invariant FirstEligible(games, now) == FirstEligible(games[i..], now)
    {
      if now < games[i].start + LiveWindow {
        found := Some(games[i]);
        return;
      }
      assert games[i..][1..] == games[i + 1..];
      i := i + 1;
    }
  }

  /**
   * Reference result of `getNextMatchPerCourt`: each court of the feed with an
   * eligible match, mapped to the match the court should show.
   */
  function NextPerCourt(matches: seq<Row>, now: int): (r: map<string, Scheduled>)
    requires AllParsable(matches)
    ensures r.Keys <= CourtsOf(matches)
    ensures forall c :: c in r <==> c in CourtsOf(matches) && HasEligible(Bucket(matches, c), now)
    ensures forall c :: c in r ==> IsNext(Bucket(matches, c), now, r[c])
    ensures forall c :: c in r ==> r[c].row in matches && CourtOf(r[c].row) == c
                                   && StartOf(r[c].row) == Some(r[c].start) && now < r[c].start + LiveWindow
  {
    map c | c in CourtsOf(matches) && Earliest(Bucket(matches, c), now).Some?
      :: Earliest(Bucket(matches, c), now).value
  }

  lemma BucketSnoc(matches: seq<Row>, m: Row, court: string)
    requires AllParsable(matches + [m])
    ensures AllParsable(matches) && Parsable(m)
    ensures Bucket(matches + [m], court)
         == Bucket(matches, court) + (if CourtOf(m) == court && StartOf(m).Some? then [Scheduled(m, StartOf(m).value)] else [])
  {
    assert forall i :: 0 <= i < |matches| ==> (matches + [m])[i] == matches[i];
    assert (matches + [m])[|matches|] == m;
    assert (matches + [m])[..|matches|] == matches;
  }

  lemma CourtsOfSnoc(matches: seq<Row>, m: Row)
    ensures CourtsOf(matches + [m]) == CourtsOf(matches) + {CourtOf(m)}
  {
    var ms := matches + [m];
    assert forall i :: 0 <= i < |matches| ==> ms[i] == matches[i];
    assert ms[|matches|] == m;
  }

  /** A court with no row in the feed has an empty bucket. */
  lemma BucketOutside(matches: seq<Row>, court: string)
    requires AllParsable(matches) && court !in CourtsOf(matches)
    ensures Bucket(matches, court) == []
  {
  }

  /** What a row adds to its court's bucket: the row with its start, when its time parses. */
  function EntryOf(m: Row): Option<Scheduled>
    requires Parsable(m)
  {
    var t := StartOf(m);
    if t.Some? then Some(Scheduled(m, t.value)) else None
  }

  /**
   * One pass of the grouping `forEach` (app.js:72-81), giving every court label its
   * own bucket: the row's court gets a bucket if it had none, and the row is
   * appended to it when its time parses.
   */
  function GroupStep(g: map<string, seq<Scheduled>>, m: Row): (r: map<string, seq<Scheduled>>)
    requires Parsable(m)
    ensures r.Keys == g.Keys + {CourtOf(m)}
    ensures forall c :: c in g && c != CourtOf(m) ==> r[c] == g[c]
    ensures r[CourtOf(m)] == (if CourtOf(m) in g then g[CourtOf(m)] else [])
                             + (if StartOf(m).Some? then [Scheduled(m, StartOf(m).value)] else [])
  {
    var court := CourtOf(m);
    var withCourt := if court in g then g else g[court := []];
    var t := StartOf(m);
    if t.Some? then withCourt[court := withCourt[court] + [Scheduled(m, t.value)]] else withCourt
  }

  /** The map the grouping `forEach` of app.js:71-82 has built after the rows `ms`. */
  function Grouping(ms: seq<Row>): map<string, seq<Scheduled>>
    requires AllParsable(ms)
    decreases |ms|
  {
    if ms == [] then map[] else GroupStep(Grouping(ms[..|ms| - 1]), ms[|ms| - 1])
  }

  /** The grouping has a bucket for exactly the courts of the feed. */
  lemma {:induction false} GroupingKeys(ms: seq<Row>)
    requires AllParsable(ms)
    ensures Grouping(ms).Keys == CourtsOf(ms)
    decreases |ms|
  {
    if ms != [] {
      var done := ms[..|ms| - 1];
      var m := ms[|ms| - 1];
      assert ms == done + [m];
      GroupingKeys(done);
      CourtsOfSnoc(done, m);
    }
  }

  /** Each bucket of the grouping holds its court's parsed rows in feed order. */
  lemma {:induction false} GroupingIsBuckets(ms: seq<Row>)
    requires AllParsable(ms)
    ensures forall c :: c in Grouping(ms) ==> Grouping(ms)[c] == Bucket(ms, c)
    decreases |ms|
  {
    if ms != [] {
      var done := ms[..|ms| - 1];
      var m := ms[|ms| - 1];
      assert ms == done + [m];
      GroupingIsBuckets(done);
      GroupingKeys(done);
      forall c | c in Grouping(ms)
        ensures Grouping(ms)[c] == Bucket(ms, c)
      {
        BucketSnoc(done, m, c);
        if c == CourtOf(m) && c !in Grouping(done) {
          BucketOutside(done, c);
        }
      }
    }
  }

  /**
   * The grouping `forEach` of app.js:71-82: every court of the feed gets a bucket,
   * even one none of whose times parse, holding its parsed rows in feed order.
   */
  method GroupByCourt(matches: seq<Row>) returns (buckets: map<string, seq<Scheduled>>)
    requires AllParsable(matches)
    ensures buckets.Keys == CourtsOf(matches)
    ensures forall c :: c in buckets ==> buckets[c] == Bucket(matches, c)
  {
    buckets := map[];
    for i := 0 to |matches|
      invariant buckets == Grouping(matches[..i])
    {
      var m := matches[i];
      GroupingPrefix(matches, i);
      var court := CourtOf(m);
      if court !in buckets {
        buckets := buckets[court := []];
      }
      var t := StartOf(m);
      if t.Some? {
        buckets := buckets[court := buckets[court] + [Scheduled(m, t.value)]];
      }
    }
    assert matches[..|matches|] == matches;
    GroupingKeys(matches);
    GroupingIsBuckets(matches);
  }

  /** The grouping of one more row of the feed takes one more step. */
  lemma GroupingPrefix(matches: seq<Row>, i: nat)
    requires AllParsable(matches) && i < |matches|
    ensures AllParsable(matches[..i]) && Parsable(matches[i])
    ensures Grouping(matches[..i + 1]) == GroupStep(Grouping(matches[..i]), matches[i])
  {
    assert matches[..i + 1][..i] == matches[..i];
    assert matches[..i + 1][i] == matches[i];
  }

  /**
   * Property names every plain JavaScript object inherits from `Object.prototype`;
   * reading `courtMatches[court]` with one of them finds the inherited value.
   */
  const InheritedNames: set<string> := {
    "constructor", "hasOwnProperty", "isPrototypeOf", "propertyIsEnumerable",
    "toLocaleString", "toString", "valueOf", "__proto__",
    "__defineGetter__", "__defineSetter__", "__lookupGetter__", "__lookupSetter__"
  }

  /**
   * One grouping step as app.js:73-80 runs it on the plain object `courtMatches`:
   * `!courtMatches[court]` is false for an inherited name, so no bucket is made,
   * and the later `.push` on the inherited function throws (`None`).
   */
  function GroupStepAsWritten(buckets: map<string, seq<Scheduled>>, court: string, entry: Option<Scheduled>)
    : (r: Option<map<string, seq<Scheduled>>>)
    ensures r.None? <==> entry.Some? && court !in buckets && court in InheritedNames
    ensures r.Some? ==> court in InheritedNames || court in r.value
  {
    var found := court in buckets || court in InheritedNames;
    var withCourt := if found then buckets else buckets[court := []];
    match entry
    case None => Some(withCourt)
    case Some(x) => if court in withCourt then Some(withCourt[court := withCourt[court] + [x]]) else None
  }

  /** A fixture on a court labelled "constructor" whose time parses makes the whole selection throw. */
  lemma InheritedCourtThrows(x: Scheduled)
    ensures GroupStepAsWritten(map[], "constructor", Some(x)) == None
  {
  }

  /**
   * For every other label the step as written is the step `Grouping` takes, so
   * `GroupByCourt` is the intended behaviour: every label gets its own bucket.
   */
  lemma AsWrittenAgrees(g: map<string, seq<Scheduled>>, m: Row)
    requires Parsable(m) && CourtOf(m) !in InheritedNames
    ensures GroupStepAsWritten(g, CourtOf(m), EntryOf(m)) == Some(GroupStep(g, m))
  {
  }

  /**
   * The grouping `forEach` of app.js:71-82 as written, over the rows `ms`: `None` once
   * a step has thrown. The object it builds never holds an inherited name as its own key.
   */
  function GroupAsWritten(ms: seq<Row>): (r: Option<map<string, seq<Scheduled>>>)
    requires AllParsable(ms)
    ensures r.Some? ==> forall c :: c in r.value ==> c !in InheritedNames
    decreases |ms|
  {
    if ms == [] then Some(map[])
    else
      var m := ms[|ms| - 1];
      match GroupAsWritten(ms[..|ms| - 1])
      case None => None
      case Some(g) => GroupStepAsWritten(g, CourtOf(m), EntryOf(m))
  }

  /** A row whose time parses, on a court named after an inherited property: its step throws. */
  predicate Throws(m: Row)
    requires Parsable(m)
  {
    EntryOf(m).Some? && CourtOf(m) in InheritedNames
  }

  /** The grouping as written throws exactly when a row whose time parses is on an inherited name. */
  lemma {:induction false} AsWrittenThrows(ms: seq<Row>)
    requires AllParsable(ms)
    ensures GroupAsWritten(ms).None? <==> exists i :: 0 <= i < |ms| && Throws(ms[i])
    decreases |ms|
  {
    if ms != [] {
      var done, m := ms[..|ms| - 1], ms[|ms| - 1];
      assert ms == done + [m];
      AsWrittenSnoc(done, m);
      AsWrittenThrows(done);
      ThrowsSnoc(done, m);
    }
  }

  /** A throwing row of `done + [m]` is one of `done` or `m` itself. */
  lemma ThrowsSnoc(done: seq<Row>, m: Row)
    requires AllParsable(done + [m])
    ensures AllParsable(done) && Parsable(m)
    ensures (exists i :: 0 <= i < |done + [m]| && Throws((done + [m])[i]))
        <==> (exists i :: 0 <= i < |done| && Throws(done[i])) || Throws(m)
  {
    var ms := done + [m];
    assert forall i :: 0 <= i < |done| ==> ms[i] == done[i];
    assert ms[|done|] == m;
  }

  /** One more row makes the grouping as written throw exactly when that row's step throws. */
  lemma AsWrittenSnoc(done: seq<Row>, m: Row)
    requires AllParsable(done + [m])
    ensures AllParsable(done) && Parsable(m)
    ensures GroupAsWritten(done + [m]).None? <==> GroupAsWritten(done).None? || Throws(m)
  {
    var ms := done + [m];
    assert forall i :: 0 <= i < |done| ==> ms[i] == done[i];
    assert ms[|done|] == m && ms[..|done|] == done;
  }

  /** On a feed with no court named after an inherited property, the code as written builds `Grouping`. */
  lemma {:induction false} AsWrittenFeed(ms: seq<Row>)
    requires AllParsable(ms) && forall i :: 0 <= i < |ms| ==> CourtOf(ms[i]) !in InheritedNames
    ensures GroupAsWritten(ms) == Some(Grouping(ms))
    decreases |ms|
  {
    if ms != [] {
      var done, m := ms[..|ms| - 1], ms[|ms| - 1];
      assert forall i :: 0 <= i < |done| ==> done[i] == ms[i];
      AsWrittenFeed(done);
      AsWrittenAgrees(Grouping(done), m);
    }
  }

  /**
   * The per-court pass of app.js:86-104: sort each bucket, keep its first match
   * still inside its live window, and leave out a court that has none.
   */
  method PickPerCourt(buckets: map<string, seq<Scheduled>>, now: int) returns (next: map<string, Scheduled>)
    ensures next.Keys <= buckets.Keys
    ensures forall c :: c in buckets ==> Earliest(buckets[c], now) == (if c in next then Some(next[c]) else None)
  {
    next := map[];
    var todo := buckets.Keys;
    while todo != {}
      invariant todo <= buckets.Keys
      invariant next.Keys <= buckets.Keys - todo
      invariant forall c :: c in buckets.Keys - todo ==> Earliest(buckets[c], now) == (if c in next then Some(next[c]) else None)
      decreases todo
    {
      var court :| court in todo;
      var found := NextOfCourt(buckets[court], now);
      if found.Some? {
        next := next[court := found.value];
      }
      todo := todo - {court};
    }
  }

  /** The body of the per-court pass (app.js:87-99): sort the bucket, then scan it. */
  method NextOfCourt(bucket: seq<Scheduled>, now: int) returns (found: Option<Scheduled>)
    ensures found == FirstEligible(SortByStart(bucket), now)
    ensures found == Earliest(bucket, now)
  {
    var games := SortByStart(bucket);
    found := ScanForNext(games, now);
    SortThenScan(bucket, now);
  }

  /** `getNextMatchPerCourt(matches)` with the clock reading passed in as `now`. */
  method GetNextMatchPerCourt(matches: seq<Row>, now: int) returns (next: map<string, Scheduled>)
    requires AllParsable(matches)
    ensures next == NextPerCourt(matches, now)
  {
    var buckets := GroupByCourt(matches);
    next := PickPerCourt(buckets, now);
    var reference := NextPerCourt(matches, now);
    forall c | c in next
      ensures c in reference && reference[c] == next[c]
    {
    }
    forall c | c in reference
      ensures c in next
    {
    }
    SameEntries(next, reference);
  }

  lemma SameEntries(m1: map<string, Scheduled>, m2: map<string, Scheduled>)
    requires forall c :: c in m1 ==> c in m2 && m2[c] == m1[c]
    requires forall c :: c in m2 ==> c in m1
    ensures m1 == m2
  {
  }

  /** The `isLive` test of app.js:139. */
  predicate IsLive(start: int, now: int)
  {
    now >= start && now < start + LiveWindow
  }

  /**
   * The card reads the clock again (app.js:135) after the selection has read it
   * (app.js:68). For a match selected at `chosenAt` and drawn at `shownAt`: a match
   * that has not started is shown upcoming; when both readings agree, it is live
   * exactly when it has started; and a match that has started is shown upcoming
   * only when its live window closed between the two readings.
   */
  lemma SelectedStatus(matches: seq<Row>, chosenAt: int, shownAt: int, c: string)
    requires AllParsable(matches) && chosenAt <= shownAt && c in NextPerCourt(matches, chosenAt)
    ensures var s := NextPerCourt(matches, chosenAt)[c];
      && (shownAt < s.start ==> !IsLive(s.start, shownAt))
      && (chosenAt == shownAt ==> (IsLive(s.start, shownAt) <==> s.start <= shownAt))
      && (s.start <= shownAt && !IsLive(s.start, shownAt) ==> chosenAt < s.start + LiveWindow <= shownAt)
  {
    var s := NextPerCourt(matches, chosenAt)[c];
    assert Eligible(s, chosenAt);
  }

  /**
   * The case the second reading lets through: a court whose only fixture is selected in
   * the last minute of its live window, and drawn a minute later, shows it upcoming
   * although it has started.
   */
  lemma StaleUpcoming(x: Scheduled)
    ensures var chosenAt, shownAt := x.start + LiveWindow - 1, x.start + LiveWindow;
      && chosenAt <= shownAt
      && Earliest([x], chosenAt) == Some(x)
      && x.start <= shownAt && !IsLive(x.start, shownAt)
  {
    SingleEarliest(x, x.start + LiveWindow - 1);
  }

  /**
   * A feed of one fixture that starts at `t`: its court shows it, upcoming while
   * `now < t`, live while `t <= now < t + 10`, and shows nothing from `t + 10` on.
   */
  lemma OneFixture(row: Row, now: int)
    requires Parsable(row) && StartOf(row).Some?
    ensures var next := NextPerCourt([row], now); var t := StartOf(row).value;
      && next.Keys <= {CourtOf(row)}
      && (CourtOf(row) in next <==> now < t + LiveWindow)
      && (CourtOf(row) in next ==> next[CourtOf(row)] == Scheduled(row, t) && (IsLive(t, now) <==> t <= now))
  {
    SingleRow(row);
    SingleEarliest(Scheduled(row, StartOf(row).value), now);
  }

  /**
   * Two fixtures of one court, starting at t1 and t2: once the first one's window has
   * closed and before the second starts, the court shows the second, as upcoming.
   */
  lemma TwoFixtures(first: Row, second: Row, now: int)
    requires Parsable(first) && Parsable(second) && StartOf(first).Some? && StartOf(second).Some?
    requires CourtOf(first) == CourtOf(second)
    requires StartOf(first).value + LiveWindow <= now < StartOf(second).value
    ensures AllParsable([first, second])
    ensures var next := NextPerCourt([first, second], now); var c := CourtOf(first);
      && c in next && next[c] == Scheduled(second, StartOf(second).value) && !IsLive(next[c].start, now)
  {
    var x, y := Scheduled(first, StartOf(first).value), Scheduled(second, StartOf(second).value);
    TwoRows(first, second);
    assert [x, y][..1] == [x] && [x][..0] == [];
    assert Earliest([x, y], now) == Some(y);
  }

  lemma TwoRows(first: Row, second: Row)
    requires Parsable(first) && Parsable(second) && StartOf(first).Some? && StartOf(second).Some?
    requires CourtOf(first) == CourtOf(second)
    ensures AllParsable([first, second])
    ensures CourtOf(first) in CourtsOf([first, second])
    ensures Bucket([first, second], CourtOf(first))
         == [Scheduled(first, StartOf(first).value), Scheduled(second, StartOf(second).value)]
  {
    PairFeed(first, second);
    SingleBucket(first);
    BucketSnoc([first], second, CourtOf(first));
  }

  /** The two-row feed is the first row with the second appended; it parses and holds the first court. */
  lemma PairFeed(first: Row, second: Row)
    requires Parsable(first) && Parsable(second)
    ensures [first, second] == [first] + [second]
    ensures AllParsable([first, second]) && CourtOf(first) in CourtsOf([first, second])
  {
    var feed := [first, second];
    assert feed[0] == first && feed[1] == second;
  }

  lemma SingleRow(row: Row)
    requires Parsable(row) && StartOf(row).Some?
    ensures AllParsable([row])
    ensures CourtsOf([row]) == {CourtOf(row)}
    ensures Bucket([row], CourtOf(row)) == [Scheduled(row, StartOf(row).value)]
  {
    SingleCourt(row);
    SingleBucket(row);
  }

  /** A one-row feed has exactly that row's court. */
  lemma SingleCourt(row: Row)
    ensures CourtsOf([row]) == {CourtOf(row)}
  {
    assert CourtsOf([]) == {};
    assert [] + [row] == [row];
    CourtsOfSnoc([], row);
  }

  /** A one-row feed's bucket for that row's court holds the row exactly when its time parses. */
  lemma SingleBucket(row: Row)
    requires Parsable(row)
    ensures AllParsable([row])
    ensures Bucket([row], CourtOf(row)) == if StartOf(row).Some? then [Scheduled(row, StartOf(row).value)] else []
  {
    assert [] + [row] == [row];
    BucketSnoc([], row, CourtOf(row));
  }

  lemma SingleEarliest(x: Scheduled, now: int)
    ensures Earliest([x], now) == if now < x.start + LiveWindow then Some(x) else None
  {
    assert [x][..0] == [];
  }

  /**
   * As the clock advances, a court's choice only moves to later starts, and a
   * court that has a match to show at a later instant had one earlier too.
   */
  lemma {:induction false} SelectionAdvances(b: seq<Scheduled>, now1: int, now2: int)
    requires now1 <= now2 && Earliest(b, now2).Some?
    ensures Earliest(b, now1).Some?
    ensures Earliest(b, now1).value.start <= Earliest(b, now2).value.start
  {
    var s2 := Earliest(b, now2).value;
    var k2 :| IsNextAt(b, now2, k2) && b[k2] == s2;
    assert Eligible(b[k2], now1);
    var s1 := Earliest(b, now1).value;
    var k1 :| IsNextAt(b, now1, k1) && b[k1] == s1;
  }
}
