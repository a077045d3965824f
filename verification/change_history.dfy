/**
 * `useChangeHistory`: the corrections feed turned into a daily trend. Each
 * correction falls on the UTC calendar date of its `error_corrected` instant;
 * the corrections are tallied per date, in a record whose keys keep their
 * first-insertion order, and the tally is sorted by the time each date key
 * parses to. Any failure, of the request or of a date, leaves the trend empty
 * and sets an error message instead.
 */
module ChangeHistory {
  import opened Wrappers
  import opened Decimal
  import opened CivilDate
  import opened Api

  /**
   * A correction: its id and the instant `new Date(error_corrected)` denotes,
   * in milliseconds since the epoch, or None for an invalid date.
   */
  datatype Correction = Correction(id: int, errorCorrected: Option<int>)

  /** One point of the trend: a `YYYY-MM-DD` key and the number of corrections on that date. */
  datatype TrendPoint = TrendPoint(date: string, changes: nat)

  /** What the hook publishes once the fetch settles. */
  datatype ChangeHistoryState = ChangeHistoryState(trends: seq<TrendPoint>, error: Option<string>)

  /** Every valid instant lies in the years 0000..9999, where `toISOString` prints a four-digit year. */
  predicate InFourDigitRange(cs: seq<Correction>)
  {
    forall i :: 0 <= i < |cs| && cs[i].errorCorrected.Some? ==> InFourDigitYears(cs[i].errorCorrected.value)
  }

  predicate AllValid(cs: seq<Correction>)
  {
    forall i :: 0 <= i < |cs| ==> cs[i].errorCorrected.Some?
  }

  // ----- The grouping reduce -----

  /**
   * The key the reduce computes for each correction, in order:
   * `toISOString().split('T')[0]` of its instant. An invalid date makes
   * `toISOString` throw, which aborts the whole reduce; FetchCorrections
   * handles that case before the keys are computed.
   */
  function DateKeys(cs: seq<Correction>): (keys: seq<string>)
    requires InFourDigitRange(cs) && AllValid(cs)
    ensures |keys| == |cs|
    ensures forall i :: 0 <= i < |cs| ==> keys[i] == IsoDate(cs[i].errorCorrected.value)
  {
    if |cs| == 0 then []
    else
      assert InFourDigitRange(cs[1..]) && AllValid(cs[1..]) by {
        assert forall i :: 1 <= i < |cs| ==> cs[1..][i - 1] == cs[i];
      }
      [IsoDate(cs[0].errorCorrected.value)] + DateKeys(cs[1..])
  }

  /** The correction has a valid instant and its ISO date is key. */
  predicate OnDate(c: Correction, key: string)
  {
    c.errorCorrected.Some? && InFourDigitYears(c.errorCorrected.value) && IsoDate(c.errorCorrected.value) == key
  }

  /** The number of corrections whose instant falls on the date key. */
  function Occurrences(cs: seq<Correction>, key: string): nat
  {
    if |cs| == 0 then 0 else (if OnDate(cs[0], key) then 1 else 0) + Occurrences(cs[1..], key)
  }

  /** The changes a list of points records for key, over all its entries with that date. */
  function CountOf(ps: seq<TrendPoint>, key: string): nat
  {
    if |ps| == 0 then 0 else (if ps[0].date == key then ps[0].changes else 0) + CountOf(ps[1..], key)
  }

  /** The changes of all points together. */
  function Sum(ps: seq<TrendPoint>): nat
  {
    if |ps| == 0 then 0 else ps[0].changes + Sum(ps[1..])
  }

  /** The dates a list of points carries. */
  function Dates(ps: seq<TrendPoint>): set<string>
  {
    if |ps| == 0 then {} else {ps[0].date} + Dates(ps[1..])
  }

  /** No date occurs twice. */
  predicate DistinctDates(ps: seq<TrendPoint>)
  {
    |ps| == 0 || (ps[0].date !in Dates(ps[1..]) && DistinctDates(ps[1..]))
  }

  predicate AllPositive(ps: seq<TrendPoint>)
  {
    |ps| == 0 || (ps[0].changes >= 1 && AllPositive(ps[1..]))
  }

  /**
   * `acc[date] = (acc[date] || 0) + 1` on a record listed in key-insertion
   * order: an existing key keeps its place and gains one, a new key is
   * appended with 1.
   */
  function Bump(tally: seq<TrendPoint>, key: string): (r: seq<TrendPoint>)
    ensures forall k :: CountOf(r, k) == CountOf(tally, k) + (if k == key then 1 else 0)
    ensures Sum(r) == Sum(tally) + 1
  {
    if |tally| == 0 then [TrendPoint(key, 1)]
    else if tally[0].date == key then [TrendPoint(key, tally[0].changes + 1)] + tally[1..]
    else [tally[0]] + Bump(tally[1..], key)
  }

  /** Bumping adds key to the dates and keeps them distinct and every count positive. */
  lemma {:induction false} BumpShape(tally: seq<TrendPoint>, key: string)
    ensures Dates(Bump(tally, key)) == Dates(tally) + {key}
    ensures DistinctDates(tally) ==> DistinctDates(Bump(tally, key))
    ensures AllPositive(tally) ==> AllPositive(Bump(tally, key))
    decreases |tally|
  {
    if |tally| == 0 {
      assert [TrendPoint(key, 1)] + [] == [TrendPoint(key, 1)];
      DatesCons(TrendPoint(key, 1), []);
    } else if tally[0].date == key {
      DatesCons(TrendPoint(key, tally[0].changes + 1), tally[1..]);
    } else {
      BumpShape(tally[1..], key);
      DatesCons(tally[0], Bump(tally[1..], key));
    }
  }

  /** The reduce over the keys, from the accumulator acc. */
  function Tally(acc: seq<TrendPoint>, keys: seq<string>): (r: seq<TrendPoint>)
    ensures forall k :: CountOf(r, k) == CountOf(acc, k) + multiset(keys)[k]
    ensures Sum(r) == Sum(acc) + |keys|
    decreases |keys|
  {
    if |keys| == 0 then acc
    else
      assert keys == [keys[0]] + keys[1..];
      Tally(Bump(acc, keys[0]), keys[1..])
  }

  /** The tally's dates are the accumulator's and the keys; they stay distinct and every count positive. */
  lemma {:induction false} TallyShape(acc: seq<TrendPoint>, keys: seq<string>)
    ensures Dates(Tally(acc, keys)) == Dates(acc) + set k | k in keys
    ensures DistinctDates(acc) ==> DistinctDates(Tally(acc, keys))
    ensures AllPositive(acc) ==> AllPositive(Tally(acc, keys))
    decreases |keys|
  {
    if |keys| > 0 {
      BumpShape(acc, keys[0]);
      TallyShape(Bump(acc, keys[0]), keys[1..]);
      assert (set k | k in keys) == {keys[0]} + set k | k in keys[1..];
    }
  }

  // ----- The sort -----

  predicate Parses(ps: seq<TrendPoint>)
  {
    forall i :: 0 <= i < |ps| ==> ParseDateKey(ps[i].date).Some?
  }

  /** `new Date(p.date).getTime()` for a date that parses. */
  function Time(p: TrendPoint): int
    requires ParseDateKey(p.date).Some?
  {
    ParseDateKey(p.date).value
  }

  /** The sort key is defined on every point. */
  ghost predicate KeyDefined(ps: seq<TrendPoint>, key: TrendPoint --> int)
  {
    forall i :: 0 <= i < |ps| ==> key.requires(ps[i])
  }

  predicate SortedBy(ps: seq<TrendPoint>, key: TrendPoint --> int)
    requires KeyDefined(ps, key)
  {
    forall i, j :: 0 <= i < j < |ps| ==> key(ps[i]) <= key(ps[j])
  }

  predicate StrictlyAscending(ps: seq<TrendPoint>)
  {
    Parses(ps) && forall i, j :: 0 <= i < j < |ps| ==> Time(ps[i]) < Time(ps[j])
  }

  /** Inserts p into a sorted list, after the points whose key is not greater. */
  function Insert(p: TrendPoint, ps: seq<TrendPoint>, key: TrendPoint --> int): (r: seq<TrendPoint>)
    requires key.requires(p) && KeyDefined(ps, key) && SortedBy(ps, key)
    ensures KeyDefined(r, key) && SortedBy(r, key)
    ensures multiset(r) == multiset(ps) + multiset{p}
    decreases |ps|, 2
  {
    if |ps| == 0 || key(p) < key(ps[0]) then
      InsertFront(p, ps, key);
      [p] + ps
    else
      SortedTail(ps, key);
      InsertBehind(p, ps, key);
      [ps[0]] + Insert(p, ps[1..], key)
  }

  /** When p's key is below the first key, p in front keeps the list sorted. */
  lemma InsertFront(p: TrendPoint, ps: seq<TrendPoint>, key: TrendPoint --> int)
    requires key.requires(p) && KeyDefined(ps, key) && SortedBy(ps, key)
    requires |ps| == 0 || key(p) < key(ps[0])
    ensures KeyDefined([p] + ps, key) && SortedBy([p] + ps, key)
  {
    BelowSorted(key(p), ps, key);
    SortedCons(p, ps, key);
  }

  /** When p goes after the head, the head followed by the rest with p inserted is a sorted permutation. */
  lemma InsertBehind(p: TrendPoint, ps: seq<TrendPoint>, key: TrendPoint --> int)
    requires key.requires(p) && KeyDefined(ps, key) && SortedBy(ps, key) && |ps| > 0
    requires KeyDefined(ps[1..], key) && SortedBy(ps[1..], key) && key(ps[0]) <= key(p)
    ensures KeyDefined([ps[0]] + Insert(p, ps[1..], key), key)
    ensures SortedBy([ps[0]] + Insert(p, ps[1..], key), key)
    ensures multiset([ps[0]] + Insert(p, ps[1..], key)) == multiset(ps) + multiset{p}
    decreases |ps|, 1
  {
    var rest := Insert(p, ps[1..], key);
    HeadBelowInsert(p, ps, key);
    SortedCons(ps[0], rest, key);
    MultisetCons(ps[0], rest);
    MultisetCons(ps[0], ps[1..]);
    assert ps == [ps[0]] + ps[1..];
  }

  /** The tail of a sorted list is sorted. */
  lemma SortedTail(ps: seq<TrendPoint>, key: TrendPoint --> int)
    requires KeyDefined(ps, key) && SortedBy(ps, key) && |ps| > 0
    ensures KeyDefined(ps[1..], key) && SortedBy(ps[1..], key)
  {
    assert forall i :: 1 <= i < |ps| ==> ps[1..][i - 1] == ps[i];
  }

  lemma MultisetCons(p: TrendPoint, ps: seq<TrendPoint>)
    ensures multiset([p] + ps) == multiset{p} + multiset(ps)
  {
  }

  /** When p goes after the head, the head is not above anything of the rest with p inserted. */
  lemma HeadBelowInsert(p: TrendPoint, ps: seq<TrendPoint>, key: TrendPoint --> int)
    requires key.requires(p) && KeyDefined(ps, key) && SortedBy(ps, key) && |ps| > 0
    requires KeyDefined(ps[1..], key) && SortedBy(ps[1..], key) && key(ps[0]) <= key(p)
    ensures NotAbove(key(ps[0]), Insert(p, ps[1..], key), key)
    decreases |ps|, 0
  {
    var rest := Insert(p, ps[1..], key);
    forall i | 0 <= i < |rest| ensures key(ps[0]) <= key(rest[i]) {
      if rest[i] != p {
        assert rest[i] in multiset(rest);
        assert rest[i] in multiset(ps[1..]);
        var j :| 0 <= j < |ps[1..]| && ps[1..][j] == rest[i];
        assert ps[j + 1] == rest[i];
      }
    }
  }

  /** No key of ps lies below k. */
  predicate NotAbove(k: int, ps: seq<TrendPoint>, key: TrendPoint --> int)
    requires KeyDefined(ps, key)
  {
    forall i :: 0 <= i < |ps| ==> k <= key(ps[i])
  }

  /** A bound not above the first key of a sorted list is not above any of its keys. */
  lemma BelowSorted(k: int, ps: seq<TrendPoint>, key: TrendPoint --> int)
    requires KeyDefined(ps, key) && SortedBy(ps, key)
    requires |ps| > 0 ==> k <= key(ps[0])
    ensures NotAbove(k, ps, key)
  {
  }

  /** A point whose key is not above any key of a sorted list may go in front of it. */
  lemma SortedCons(h: TrendPoint, rest: seq<TrendPoint>, key: TrendPoint --> int)
    requires key.requires(h) && KeyDefined(rest, key) && SortedBy(rest, key)
    requires NotAbove(key(h), rest, key)
    ensures KeyDefined([h] + rest, key) && SortedBy([h] + rest, key)
  {
    var s := [h] + rest;
    assert forall i :: 1 <= i < |s| ==> s[i] == rest[i - 1];
  }

  /** Insertion adds p's changes to the counts recorded for its date and to the total. */
  lemma {:induction false} InsertCounts(p: TrendPoint, ps: seq<TrendPoint>, key: TrendPoint --> int)
    requires key.requires(p) && KeyDefined(ps, key) && SortedBy(ps, key)
    ensures forall k :: CountOf(Insert(p, ps, key), k) == CountOf(ps, k) + (if k == p.date then p.changes else 0)
    ensures Sum(Insert(p, ps, key)) == Sum(ps) + p.changes
    decreases |ps|
  {
    if |ps| > 0 && key(p) >= key(ps[0]) {
      assert KeyDefined(ps[1..], key) && SortedBy(ps[1..], key) by {
        assert forall i :: 1 <= i < |ps| ==> ps[1..][i - 1] == ps[i];
      }
      InsertCounts(p, ps[1..], key);
      assert Insert(p, ps, key) == [ps[0]] + Insert(p, ps[1..], key);
    }
  }

  /** Insertion adds p's date to the dates, and keeps them distinct and the counts positive when p's are. */
  lemma {:induction false} InsertDates(p: TrendPoint, ps: seq<TrendPoint>, key: TrendPoint --> int)
    requires key.requires(p) && KeyDefined(ps, key) && SortedBy(ps, key)
    ensures Dates(Insert(p, ps, key)) == Dates(ps) + {p.date}
    ensures DistinctDates(ps) && p.date !in Dates(ps) ==> DistinctDates(Insert(p, ps, key))
    ensures AllPositive(ps) && p.changes >= 1 ==> AllPositive(Insert(p, ps, key))
    decreases |ps|
  {
    if |ps| == 0 || key(p) < key(ps[0]) {
      DatesCons(p, ps);
    } else {
      assert KeyDefined(ps[1..], key) && SortedBy(ps[1..], key) by {
        assert forall i :: 1 <= i < |ps| ==> ps[1..][i - 1] == ps[i];
      }
      InsertDates(p, ps[1..], key);
      DatesCons(ps[0], Insert(p, ps[1..], key));
    }
  }

  /**
   * `sort((a, b) => key(a) - key(b))` as an insertion sort: a sorted
   * permutation. Unlike `Array.prototype.sort` it is not stable (points with
   * equal keys come out in reverse order), which `Trends` cannot observe:
   * the points it sorts have distinct dates.
   */
  function SortBy(ps: seq<TrendPoint>, key: TrendPoint --> int): (r: seq<TrendPoint>)
    requires KeyDefined(ps, key)
    ensures KeyDefined(r, key) && SortedBy(r, key)
    ensures multiset(r) == multiset(ps)
  {
    if |ps| == 0 then []
    else
      assert KeyDefined(ps[1..], key) by {
        assert forall i :: 1 <= i < |ps| ==> ps[1..][i - 1] == ps[i];
      }
      assert multiset(ps) == multiset{ps[0]} + multiset(ps[1..]) by {
        assert ps == [ps[0]] + ps[1..];
      }
      Insert(ps[0], SortBy(ps[1..], key), key)
  }

  /** Sorting keeps the count recorded for every date, and the total. */
  lemma {:induction false} SortCounts(ps: seq<TrendPoint>, key: TrendPoint --> int)
    requires KeyDefined(ps, key)
    ensures forall k :: CountOf(SortBy(ps, key), k) == CountOf(ps, k)
    ensures Sum(SortBy(ps, key)) == Sum(ps)
    decreases |ps|
  {
    if |ps| > 0 {
      assert KeyDefined(ps[1..], key) by {
        assert forall i :: 1 <= i < |ps| ==> ps[1..][i - 1] == ps[i];
      }
      SortCounts(ps[1..], key);
      InsertCounts(ps[0], SortBy(ps[1..], key), key);
    }
  }

  /** Sorting keeps the set of dates, their distinctness and the positivity of the counts. */
  lemma {:induction false} SortDates(ps: seq<TrendPoint>, key: TrendPoint --> int)
    requires KeyDefined(ps, key)
    ensures Dates(SortBy(ps, key)) == Dates(ps)
    ensures DistinctDates(ps) ==> DistinctDates(SortBy(ps, key))
    ensures AllPositive(ps) ==> AllPositive(SortBy(ps, key))
    decreases |ps|
  {
    if |ps| > 0 {
      assert KeyDefined(ps[1..], key) by {
        assert forall i :: 1 <= i < |ps| ==> ps[1..][i - 1] == ps[i];
      }
      SortDates(ps[1..], key);
      InsertDates(ps[0], SortBy(ps[1..], key), key);
    }
  }

  /** What a list with p in front records: p's date, count and changes, then those of the rest. */
  lemma DatesCons(p: TrendPoint, ps: seq<TrendPoint>)
    ensures Dates([p] + ps) == {p.date} + Dates(ps)
    ensures DistinctDates([p] + ps) <==> DistinctDates(ps) && p.date !in Dates(ps)
    ensures AllPositive([p] + ps) <==> p.changes >= 1 && AllPositive(ps)
    ensures ([p] + ps)[1..] == ps
  {
    assert ([p] + ps)[1..] == ps;
    assert ([p] + ps)[0] == p;
  }

  // ----- fetchCorrections -----

  /** The trend of a list of valid corrections: tallied per date, then sorted by time. */
  function Trends(cs: seq<Correction>): (trends: seq<TrendPoint>)
    requires InFourDigitRange(cs) && AllValid(cs)
    ensures DescribesCorrections(trends, cs)
  {
    var tally := Tally([], DateKeys(cs));
    TallyDescribes(cs);
    var trends := SortBy(tally, Time);
    SortCounts(tally, Time);
    SortDates(tally, Time);
    SortedDistinctIsStrict(trends);
    trends
  }

  /** The tally, before the sort, already records every date's count once, and every date parses. */
  lemma TallyDescribes(cs: seq<Correction>)
    requires InFourDigitRange(cs) && AllValid(cs)
    ensures Parses(Tally([], DateKeys(cs)))
    ensures DistinctDates(Tally([], DateKeys(cs))) && AllPositive(Tally([], DateKeys(cs)))
    ensures forall k :: CountOf(Tally([], DateKeys(cs)), k) == Occurrences(cs, k)
    ensures Sum(Tally([], DateKeys(cs))) == |cs|
  {
    var keys := DateKeys(cs);
    KeysAreDays(cs);
    TallyShape([], keys);
    DatesParse(Tally([], keys), keys);
    forall k ensures multiset(keys)[k] == Occurrences(cs, k) {
      OccurrencesAreCounts(cs, k);
    }
  }

  /**
   * The trend for cs: one point per date some correction falls on, carrying
   * the number of corrections on that date, in strictly ascending time order.
   */
  ghost predicate DescribesCorrections(trends: seq<TrendPoint>, cs: seq<Correction>)
    requires InFourDigitRange(cs) && AllValid(cs)
  {
    && StrictlyAscending(trends)
    && AllPositive(trends)
    && (forall k :: CountOf(trends, k) == Occurrences(cs, k))
    && Sum(trends) == |cs|
  }

  /** The message shown for a failed load: the thrown error's message, or a fixed fallback when there is none. */
  function ErrorText(thrown: Thrown): (message: string)
    ensures message != ""
    ensures thrown.ErrorObject? && thrown.message != "" ==> message == thrown.message
    ensures thrown.OtherValue? || thrown.message == "" ==> message == "Failed to load corrections"
  {
    if thrown.ErrorObject? && thrown.message != "" then thrown.message else "Failed to load corrections"
  }

  /**
   * `fetchCorrections` from the outcome of the corrections request: the
   * corrections, or what the request threw. The published trend stays the
   * initial empty list unless every step succeeds.
   */
  function FetchCorrections(response: Result<seq<Correction>, Thrown>): (s: ChangeHistoryState)
    requires response.Ok? ==> InFourDigitRange(response.value)
    ensures response.Err? ==> s == ChangeHistoryState([], Some(ErrorText(response.error)))
    ensures response.Err? && response.error.ErrorObject? && response.error.message != "" ==>
              s.error == Some(response.error.message)
    ensures response.Ok? ==> (s.error.None? <==> AllValid(response.value))
    ensures response.Ok? && s.error.Some? ==> s == ChangeHistoryState([], Some("Invalid time value"))
    ensures response.Ok? && s.error.None? ==> DescribesCorrections(s.trends, response.value)
  {
    match response
    case Err(thrown) => ChangeHistoryState([], Some(ErrorText(thrown)))
    case Ok(cs) =>
      if AllValid(cs) then ChangeHistoryState(Trends(cs), None)
      else ChangeHistoryState([], Some("Invalid time value"))
  }

  // ----- Lemmas -----

  /** Every key the reduce computes parses back to the first instant of its correction's UTC day. */
  lemma KeysAreDays(cs: seq<Correction>)
    requires InFourDigitRange(cs) && AllValid(cs)
    ensures forall i :: 0 <= i < |cs| ==>
              ParseDateKey(DateKeys(cs)[i]) == Some(DayOf(cs[i].errorCorrected.value) * MsPerDay)
  {
    forall i | 0 <= i < |cs|
      ensures ParseDateKey(DateKeys(cs)[i]) == Some(DayOf(cs[i].errorCorrected.value) * MsPerDay)
    {
      IsoDateRoundTrip(cs[i].errorCorrected.value);
    }
  }

  /** The tally's count for a key is the number of corrections on that date. */
  lemma {:induction false} OccurrencesAreCounts(cs: seq<Correction>, k: string)
    requires InFourDigitRange(cs) && AllValid(cs)
    ensures multiset(DateKeys(cs))[k] == Occurrences(cs, k)
    decreases |cs|
  {
    if |cs| > 0 {
      assert InFourDigitRange(cs[1..]) && AllValid(cs[1..]) by {
        assert forall i :: 1 <= i < |cs| ==> cs[1..][i - 1] == cs[i];
      }
      OccurrencesAreCounts(cs[1..], k);
      assert DateKeys(cs) == [IsoDate(cs[0].errorCorrected.value)] + DateKeys(cs[1..]);
      assert OnDate(cs[0], k) <==> IsoDate(cs[0].errorCorrected.value) == k;
    }
  }

  /** A list whose dates are among keys that all parse parses throughout. */
  lemma DatesParse(ps: seq<TrendPoint>, keys: seq<string>)
    requires forall j :: 0 <= j < |keys| ==> ParseDateKey(keys[j]).Some?
    requires Dates(ps) <= set k | k in keys
    ensures Parses(ps)
  {
    DatesAt(ps);
    forall i | 0 <= i < |ps| ensures ParseDateKey(ps[i].date).Some? {
      assert ps[i].date in Dates(ps);
      var j :| 0 <= j < |keys| && keys[j] == ps[i].date;
    }
  }

  /** Sorted by time with distinct dates is strictly ascending, since distinct date keys parse to distinct times. */
  lemma SortedDistinctIsStrict(ps: seq<TrendPoint>)
    requires Parses(ps) && SortedBy(ps, Time) && DistinctDates(ps)
    ensures StrictlyAscending(ps)
  {
    DistinctAt(ps);
    forall i, j | 0 <= i < j < |ps| ensures Time(ps[i]) < Time(ps[j]) {
      DateKeyTimeOrder(ps[i].date, ps[j].date);
    }
  }

  /** In a strictly ascending trend, string order on the dates is time order: for four-digit years the keys sort lexicographically. */
  lemma AscendingDatesLex(ps: seq<TrendPoint>)
    requires StrictlyAscending(ps)
    ensures forall i, j :: 0 <= i < j < |ps| ==> LexLess(ps[i].date, ps[j].date)
  {
    forall i, j | 0 <= i < j < |ps| ensures LexLess(ps[i].date, ps[j].date) {
      DateKeyTimeOrder(ps[i].date, ps[j].date);
    }
  }

  /** Strict order makes the dates pairwise distinct: one point per date. */
  lemma AscendingDistinct(ps: seq<TrendPoint>)
    requires StrictlyAscending(ps)
    ensures DistinctDates(ps)
  {
    DistinctAt(ps);
  }

  /** With distinct dates, a point's changes are the count recorded for its date. */
  lemma {:induction false} CountOfEntry(ps: seq<TrendPoint>, i: int)
    requires DistinctDates(ps) && 0 <= i < |ps|
    ensures CountOf(ps, ps[i].date) == ps[i].changes
    decreases |ps|
  {
    if i == 0 {
      CountOfAbsent(ps[1..], ps[0].date);
    } else {
      CountOfEntry(ps[1..], i - 1);
      DatesAt(ps[1..]);
      assert ps[1..][i - 1] == ps[i];
    }
  }

  /** A date the list does not carry has count zero. */
  lemma {:induction false} CountOfAbsent(ps: seq<TrendPoint>, key: string)
    requires key !in Dates(ps)
    ensures CountOf(ps, key) == 0
    decreases |ps|
  {
    if |ps| > 0 {
      CountOfAbsent(ps[1..], key);
    }
  }

  /** Dates, read by index: exactly the dates of the list's entries. */
  lemma {:induction false} DatesAt(ps: seq<TrendPoint>)
    ensures Dates(ps) == set i | 0 <= i < |ps| :: ps[i].date
    decreases |ps|
  {
    if |ps| > 0 {
      DatesAt(ps[1..]);
      var tail := set i | 0 <= i < |ps| - 1 :: ps[1..][i].date;
      assert (set i | 0 <= i < |ps| :: ps[i].date) == {ps[0].date} + tail by {
        forall d | d in tail ensures d in set i | 0 <= i < |ps| :: ps[i].date {
          var i :| 0 <= i < |ps| - 1 && ps[1..][i].date == d;
          assert ps[i + 1].date == d;
        }
      }
    }
  }

  /** DistinctDates, read pairwise: no two entries share a date. */
  lemma {:induction false} DistinctAt(ps: seq<TrendPoint>)
    ensures DistinctDates(ps) <==> forall i, j :: 0 <= i < j < |ps| ==> ps[i].date != ps[j].date
    decreases |ps|
  {
    if |ps| > 0 {
      DistinctAt(ps[1..]);
      DatesAt(ps[1..]);
      assert forall i :: 1 <= i < |ps| ==> ps[1..][i - 1] == ps[i];
    }
  }

  /** AllPositive, read by index. */
  lemma {:induction false} PositiveAt(ps: seq<TrendPoint>)
    ensures AllPositive(ps) <==> forall i :: 0 <= i < |ps| ==> ps[i].changes >= 1
    decreases |ps|
  {
    if |ps| > 0 {
      PositiveAt(ps[1..]);
      assert forall i :: 1 <= i < |ps| ==> ps[1..][i - 1] == ps[i];
    }
  }

  // ----- Grouping by UTC day -----

  /** The number of corrections whose instant falls in UTC day d, counted without date keys. */
  function OnDay(cs: seq<Correction>, d: int): (n: nat)
    requires AllValid(cs)
    ensures n <= |cs|
  {
    if |cs| == 0 then 0
    else
      assert AllValid(cs[1..]) by {
        assert forall i :: 1 <= i < |cs| ==> cs[1..][i - 1] == cs[i];
      }
      (if DayOf(cs[0].errorCorrected.value) == d then 1 else 0) + OnDay(cs[1..], d)
  }

  /** A date key's count is the number of corrections in the UTC day that key names. */
  lemma {:induction false} OccurrencesByDay(cs: seq<Correction>, t: int)
    requires InFourDigitRange(cs) && AllValid(cs) && InFourDigitYears(t)
    ensures Occurrences(cs, IsoDate(t)) == OnDay(cs, DayOf(t))
    decreases |cs|
  {
    if |cs| > 0 {
      assert InFourDigitRange(cs[1..]) && AllValid(cs[1..]) by {
        assert forall i :: 1 <= i < |cs| ==> cs[1..][i - 1] == cs[i];
      }
      OccurrencesByDay(cs[1..], t);
      IsoDateSameDay(cs[0].errorCorrected.value, t);
    }
  }

  // ----- The trend is determined by its counts -----

  /** A date with a positive count is among the list's dates. */
  lemma CountOfPresent(ps: seq<TrendPoint>, key: string)
    requires CountOf(ps, key) > 0
    ensures key in Dates(ps)
  {
    if key !in Dates(ps) {
      CountOfAbsent(ps, key);
    }
  }

  /** In a strictly ascending list the first point is the earliest of all its dates. */
  lemma FirstIsEarliest(ps: seq<TrendPoint>, d: string)
    requires StrictlyAscending(ps) && d in Dates(ps)
    ensures ParseDateKey(d).Some? && Time(ps[0]) <= ParseDateKey(d).value
  {
    DatesAt(ps);
    var j :| 0 <= j < |ps| && ps[j].date == d;
    if j > 0 {
      assert Time(ps[0]) < Time(ps[j]);
    }
  }

  lemma AscendingTail(ps: seq<TrendPoint>)
    requires StrictlyAscending(ps) && |ps| > 0
    ensures StrictlyAscending(ps[1..])
  {
    assert forall i :: 1 <= i < |ps| ==> ps[1..][i - 1] == ps[i];
  }

  /**
   * Two strictly ascending lists of positive counts that record the same
   * count for every date are the same list: the trend is fixed by the counts.
   */
  lemma {:induction false} TrendUnique(a: seq<TrendPoint>, b: seq<TrendPoint>)
    requires StrictlyAscending(a) && AllPositive(a) && StrictlyAscending(b) && AllPositive(b)
    requires forall k :: CountOf(a, k) == CountOf(b, k)
    ensures a == b
    decreases |a|
  {
    assert |a| == 0 <==> |b| == 0 by {
      if |a| > 0 {
        assert CountOf(b, a[0].date) > 0;
      }
      if |b| > 0 {
        assert CountOf(a, b[0].date) > 0;
      }
    }
    if |a| > 0 {
      var d, e := a[0].date, b[0].date;
      assert CountOf(a, d) > 0 && CountOf(b, e) > 0;
      CountOfPresent(b, d);
      FirstIsEarliest(b, d);
      CountOfPresent(a, e);
      FirstIsEarliest(a, e);
      DateKeyTimeOrder(d, e);
      assert d == e;
      AscendingDistinct(a);
      AscendingDistinct(b);
      CountOfEntry(a, 0);
      CountOfEntry(b, 0);
      assert a[0] == b[0];
      AscendingTail(a);
      AscendingTail(b);
      assert forall k :: CountOf(a[1..], k) == CountOf(b[1..], k) by {
        forall k ensures CountOf(a[1..], k) == CountOf(b[1..], k) {
          assert CountOf(a, k) == CountOf(b, k);
        }
      }
      TrendUnique(a[1..], b[1..]);
      assert a == [a[0]] + a[1..] && b == [b[0]] + b[1..];
    }
  }

  /** Trends(cs) is the only list that describes cs. */
  lemma TrendsUnique(cs: seq<Correction>, t: seq<TrendPoint>)
    requires InFourDigitRange(cs) && AllValid(cs)
    requires DescribesCorrections(t, cs)
    ensures t == Trends(cs)
  {
    TrendUnique(t, Trends(cs));
  }

  // ----- Arrival order does not matter -----

  /** Whether every date is valid, and within four-digit years, does not depend on the order. */
  lemma ValidPermutation(cs1: seq<Correction>, cs2: seq<Correction>)
    requires multiset(cs1) == multiset(cs2)
    ensures AllValid(cs1) <==> AllValid(cs2)
    ensures InFourDigitRange(cs1) <==> InFourDigitRange(cs2)
  {
    forall a: seq<Correction>, b: seq<Correction> | multiset(a) == multiset(b) && AllValid(a) ensures AllValid(b) {
      forall i | 0 <= i < |b| ensures b[i].errorCorrected.Some? {
        assert b[i] in multiset(a);
      }
    }
    forall a: seq<Correction>, b: seq<Correction> | multiset(a) == multiset(b) && InFourDigitRange(a) ensures InFourDigitRange(b) {
      forall i | 0 <= i < |b| && b[i].errorCorrected.Some? ensures InFourDigitYears(b[i].errorCorrected.value) {
        assert b[i] in multiset(a);
      }
    }
  }

  /** Taking out the correction at j takes its one occurrence out of the counts. */
  lemma {:induction false} OccurrencesRemove(cs: seq<Correction>, j: int, k: string)
    requires 0 <= j < |cs|
    ensures Occurrences(cs, k) == Occurrences(cs[..j] + cs[j + 1..], k) + (if OnDate(cs[j], k) then 1 else 0)
    decreases |cs|
  {
    var rest := cs[..j] + cs[j + 1..];
    if j == 0 {
      assert rest == cs[1..];
    } else {
      OccurrencesRemove(cs[1..], j - 1, k);
      assert rest == [cs[0]] + (cs[1..][..j - 1] + cs[1..][j..]);
      assert rest[1..] == cs[1..][..j - 1] + cs[1..][j..];
    }
  }

  /** Corrections that arrive in another order are on each date equally often. */
  lemma {:induction false} OccurrencesPermutation(cs1: seq<Correction>, cs2: seq<Correction>, k: string)
    requires multiset(cs1) == multiset(cs2)
    ensures Occurrences(cs1, k) == Occurrences(cs2, k)
    decreases |cs1|
  {
    if |cs1| > 0 {
      var c := cs1[0];
      assert c in multiset(cs2);
      var j :| 0 <= j < |cs2| && cs2[j] == c;
      OccurrencesRemove(cs2, j, k);
      var rest2 := cs2[..j] + cs2[j + 1..];
      assert cs2 == cs2[..j] + [c] + cs2[j + 1..];
      assert cs1 == [c] + cs1[1..];
      assert multiset(cs1) == multiset{c} + multiset(cs1[1..]);
      assert multiset(cs2) == multiset(cs2[..j]) + multiset{c} + multiset(cs2[j + 1..]);
      assert multiset(rest2) == multiset(cs2[..j]) + multiset(cs2[j + 1..]);
      assert multiset(cs1[1..]) == multiset(cs1) - multiset{c};
      assert multiset(rest2) == multiset(cs2) - multiset{c};
      OccurrencesPermutation(cs1[1..], rest2, k);
    }
  }

  /**
   * The published outcome depends only on which corrections arrive, not on
   * the order the feed lists them in.
   */
  lemma FetchCorrectionsPermutation(cs1: seq<Correction>, cs2: seq<Correction>)
    requires InFourDigitRange(cs1) && multiset(cs1) == multiset(cs2)
    ensures InFourDigitRange(cs2)
    ensures FetchCorrections(Ok(cs1)) == FetchCorrections(Ok(cs2))
  {
    ValidPermutation(cs1, cs2);
    if AllValid(cs1) {
      var t1, t2 := Trends(cs1), Trends(cs2);
      forall k ensures CountOf(t1, k) == CountOf(t2, k) {
        OccurrencesPermutation(cs1, cs2, k);
      }
      TrendUnique(t1, t2);
    }
  }
}
