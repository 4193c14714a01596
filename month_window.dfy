/**
 * The scanner's MonthId range (`build_month_ids_from_lcu`) and its batching
 * into groups of three (`chunk_list`).
 *
 * A MonthId is a (year, month) pair; its text form "2023-Jan" and the
 * `strptime`/`strftime` round trip are not modelled.  The clock read that
 * supplies the end month when the baseline has none is the parameter `now`.
 */
module MonthWindow {
  import opened Wrappers

  type Month = m: int | 1 <= m <= 12 witness 1

  datatype MonthId = MonthId(year: int, month: Month)

  /** Months counted from year 0; `datetime` comparison of first-of-month dates agrees with it. */
  function Ordinal(m: MonthId): int {
    m.year * 12 + (m.month - 1)
  }

  /** `a < b` on the first days of the two months. */
  predicate Before(a: MonthId, b: MonthId) {
    Ordinal(a) < Ordinal(b)
  }

  lemma OrdinalInjective(a: MonthId, b: MonthId)
    requires Ordinal(a) == Ordinal(b)
    ensures a == b
  {
  }

  /** The month after `m`; December rolls over to January of the next year. */
  function NextMonth(m: MonthId): (r: MonthId)
    ensures Ordinal(r) == Ordinal(m) + 1
    ensures m.month == 12 ==> r == MonthId(m.year + 1, 1)
    ensures m.month < 12 ==> r == MonthId(m.year, m.month + 1)
  {
    if m.month == 12 then MonthId(m.year + 1, 1) else MonthId(m.year, m.month + 1)
  }

  /** The fields of the collected baseline the range depends on; an absent or empty MonthId is `None`. */
  datatype ScanBaseline = ScanBaseline(isAdmin: bool, lcuMonthId: Option<MonthId>, msrcLatestMonthId: Option<MonthId>)

  /** The two `RuntimeError`s `build_month_ids_from_lcu` raises. */
  datatype WindowError =
    | CollectedWithoutAdmin   // "Baseline collected without administrative privileges"
    | MissingLcuMonthId       // "Baseline did not provide LcuMonthId"

  /** What the loop still appends from month `cur` when `budget` more entries are allowed. */
  function Window(cur: MonthId, end: MonthId, budget: int): seq<MonthId>
    decreases if Before(end, cur) then 0 else Ordinal(end) - Ordinal(cur) + 1
  {
    if Before(end, cur) || budget <= 0 then []
    else if cur == end then [cur]
    else [cur] + Window(NextMonth(cur), end, budget - 1)
  }

  /** The smaller of `budget` and the number of months from `cur` to `end`, never negative. */
  function WindowLength(cur: MonthId, end: MonthId, budget: int): nat {
    var span := Ordinal(end) - Ordinal(cur) + 1;
    if budget <= 0 || span <= 0 then 0 else if budget < span then budget else span
  }

  /** The end of the range: the latest catalog month, else the current month. */
  function EndMonth(b: ScanBaseline, now: MonthId): MonthId {
    if b.msrcLatestMonthId.Some? then b.msrcLatestMonthId.value else now
  }

  /** The start of the range, clamped to the end when it falls after it. */
  function StartMonth(lcu: MonthId, end: MonthId): (r: MonthId)
    ensures !Before(end, r)
    ensures Before(end, lcu) <==> r != lcu
  {
    if Before(end, lcu) then end else lcu
  }

  /**
   * The value (or error) `build_month_ids_from_lcu(baseline, maxMonths)`
   * produces: an error exactly when the baseline lacks admin rights or an
   * installed month, else as many months as the budget and the span to the
   * end allow, none after the end.
   */
  function MonthIds(b: ScanBaseline, now: MonthId, maxMonths: int): (r: Result<seq<MonthId>, WindowError>)
    ensures r.Failure? <==> !b.isAdmin || b.lcuMonthId.None?
    ensures r.Success? ==>
              |r.value| == WindowLength(StartMonth(b.lcuMonthId.value, EndMonth(b, now)), EndMonth(b, now), maxMonths)
              && forall i :: 0 <= i < |r.value| ==> !Before(EndMonth(b, now), r.value[i])
  {
    if !b.isAdmin then Failure(CollectedWithoutAdmin)
    else if b.lcuMonthId.None? then Failure(MissingLcuMonthId)
    else
      var end := EndMonth(b, now);
      var start := StartMonth(b.lcuMonthId.value, end);
      WindowShape(start, end, maxMonths);
      Success(Window(start, end, maxMonths))
  }

  /** `build_month_ids_from_lcu`: the admin check, the anchor check, the clamp and the `while True` loop. */
  method BuildMonthIds(b: ScanBaseline, now: MonthId, maxMonths: int) returns (r: Result<seq<MonthId>, WindowError>)
    ensures !b.isAdmin ==> r == Failure(CollectedWithoutAdmin)
    ensures b.isAdmin && b.lcuMonthId.None? ==> r == Failure(MissingLcuMonthId)
    ensures b.isAdmin && b.lcuMonthId.Some? ==> r.Success?
    ensures r == MonthIds(b, now, maxMonths)
  {
    if !b.isAdmin {
      return Failure(CollectedWithoutAdmin);
    }
    if b.lcuMonthId.None? {
      return Failure(MissingLcuMonthId);
    }
    var end := EndMonth(b, now);
    var start := b.lcuMonthId.value;
    if Before(end, start) {
      start := end;
    }
    var monthIds: seq<MonthId> := [];
    var current := start;
    while true
      invariant monthIds + Window(current, end, maxMonths - |monthIds|) == Window(start, end, maxMonths)
      decreases if Before(end, current) then 0 else Ordinal(end) - Ordinal(current) + 1
    {
      if Before(end, current) || |monthIds| >= maxMonths {
        assert monthIds == Window(start, end, maxMonths);
        break;
      }
      ghost var before := monthIds;
      monthIds := monthIds + [current];
      if current == end {
        assert Window(current, end, maxMonths - |before|) == [current];
        assert monthIds == Window(start, end, maxMonths);
        break;
      }
      current := NextMonth(current);
    }
    assert start == StartMonth(b.lcuMonthId.value, end);
    assert monthIds == Window(start, end, maxMonths);
    r := Success(monthIds);
  }

  /**
   * The range from `cur` holds `WindowLength` consecutive months, the first
   * being `cur`, each the `NextMonth` of the one before, none after `end`.
   */
  lemma {:induction false} WindowShape(cur: MonthId, end: MonthId, budget: int)
    ensures |Window(cur, end, budget)| == WindowLength(cur, end, budget)
    ensures forall i :: 0 <= i < |Window(cur, end, budget)| ==> Ordinal(Window(cur, end, budget)[i]) == Ordinal(cur) + i
    ensures forall i :: 0 <= i < |Window(cur, end, budget)| ==> !Before(end, Window(cur, end, budget)[i])
    ensures |Window(cur, end, budget)| > 0 ==> Window(cur, end, budget)[0] == cur
    decreases if Before(end, cur) then 0 else Ordinal(end) - Ordinal(cur) + 1
  {
    if Before(end, cur) || budget <= 0 {
    } else if cur == end {
    } else {
      assert Ordinal(cur) != Ordinal(end) by {
        if Ordinal(cur) == Ordinal(end) {
          OrdinalInjective(cur, end);
        }
      }
      WindowShape(NextMonth(cur), end, budget - 1);
    }
  }

  /** Consecutive entries of the range are consecutive months, so the range strictly increases. */
  lemma WindowConsecutive(cur: MonthId, end: MonthId, budget: int)
    ensures forall i :: 0 <= i < |Window(cur, end, budget)| - 1 ==>
              Window(cur, end, budget)[i + 1] == NextMonth(Window(cur, end, budget)[i])
    ensures forall i, j :: 0 <= i < j < |Window(cur, end, budget)| ==>
              Before(Window(cur, end, budget)[i], Window(cur, end, budget)[j])
  {
    var w := Window(cur, end, budget);
    WindowShape(cur, end, budget);
    forall i | 0 <= i < |w| - 1
      ensures w[i + 1] == NextMonth(w[i])
    {
      OrdinalInjective(w[i + 1], NextMonth(w[i]));
    }
  }

  /**
   * The properties the range promises: never longer than `maxMonths`, strictly
   * increasing by one month at a time, none after the end, and starting at the
   * (clamped) start month.
   */
  lemma MonthIdsWindow(b: ScanBaseline, now: MonthId, maxMonths: int)
    requires b.isAdmin && b.lcuMonthId.Some?
    ensures var ids := MonthIds(b, now, maxMonths).value;
      && (maxMonths >= 0 ==> |ids| <= maxMonths)
      && (maxMonths <= 0 ==> ids == [])
      && (forall i :: 0 <= i < |ids| - 1 ==> ids[i + 1] == NextMonth(ids[i]))
      && (forall i, j :: 0 <= i < j < |ids| ==> Before(ids[i], ids[j]))
      && (forall i :: 0 <= i < |ids| ==> !Before(EndMonth(b, now), ids[i]))
      && (|ids| > 0 ==> ids[0] == StartMonth(b.lcuMonthId.value, EndMonth(b, now)))
      && (maxMonths > 0 ==> |ids| > 0)
  {
    var end := EndMonth(b, now);
    var start := StartMonth(b.lcuMonthId.value, end);
    WindowShape(start, end, maxMonths);
    WindowConsecutive(start, end, maxMonths);
  }

  /** A start month after the end collapses the range to the end month alone. */
  lemma ClampedStart(b: ScanBaseline, now: MonthId, maxMonths: int)
    requires b.isAdmin && b.lcuMonthId.Some? && maxMonths >= 1
    requires Before(EndMonth(b, now), b.lcuMonthId.value)
    ensures MonthIds(b, now, maxMonths) == Success([EndMonth(b, now)])
  {
    var end := EndMonth(b, now);
    WindowShape(end, end, maxMonths);
  }

  /** When the whole span fits in `maxMonths`, the range runs from the start month to the end month. */
  lemma FullSpan(b: ScanBaseline, now: MonthId, maxMonths: int)
    requires b.isAdmin && b.lcuMonthId.Some?
    requires !Before(EndMonth(b, now), b.lcuMonthId.value)
    requires Ordinal(EndMonth(b, now)) - Ordinal(b.lcuMonthId.value) + 1 <= maxMonths
    ensures var ids := MonthIds(b, now, maxMonths).value;
      && |ids| == Ordinal(EndMonth(b, now)) - Ordinal(b.lcuMonthId.value) + 1
      && ids[0] == b.lcuMonthId.value
      && ids[|ids| - 1] == EndMonth(b, now)
  {
    var end := EndMonth(b, now);
    var start := b.lcuMonthId.value;
    WindowShape(start, end, maxMonths);
    var ids := Window(start, end, maxMonths);
    OrdinalInjective(ids[|ids| - 1], end);
  }

  /**
   * `chunk_list(items, size)`: consecutive slices of `size` items, the last
   * one possibly shorter; no chunk is empty.
   */
  function Chunks<T>(items: seq<T>, size: int): (r: seq<seq<T>>)
    requires size > 0
    ensures forall k :: 0 <= k < |r| ==> 0 < |r[k]| <= size
    ensures forall k :: 0 <= k < |r| - 1 ==> |r[k]| == size
    decreases |items|
  {
    if |items| == 0 then []
    else if |items| <= size then [items]
    else [items[..size]] + Chunks(items[size..], size)
  }

  function Concat<T>(chunks: seq<seq<T>>): seq<T> {
    if chunks == [] then [] else chunks[0] + Concat(chunks[1..])
  }

  /**
   * The chunks put back together are the input; every chunk is non-empty and
   * at most `size` long, and all but the last are exactly `size` long.
   */
  lemma {:induction false} ChunksPartition<T>(items: seq<T>, size: int)
    requires size > 0
    ensures Concat(Chunks(items, size)) == items
    ensures forall k :: 0 <= k < |Chunks(items, size)| ==> 0 < |Chunks(items, size)[k]| <= size
    ensures forall k :: 0 <= k < |Chunks(items, size)| - 1 ==> |Chunks(items, size)[k]| == size
    decreases |items|
  {
    if |items| == 0 {
    } else if |items| <= size {
      assert Concat([items]) == items + Concat([]);
    } else {
      var rest := Chunks(items[size..], size);
      ChunksPartition(items[size..], size);
      assert Chunks(items, size) == [items[..size]] + rest;
      assert ([items[..size]] + rest)[1..] == rest;
      assert items[..size] + items[size..] == items;
    }
  }
}
