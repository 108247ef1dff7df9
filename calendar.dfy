/**
 * The month calendar of the dashboards: the weeks of the current month
 * flattened into one list of cells, each with its day number, whether it
 * lies outside the month and whether it is today.
 */
module Calendar {

  /** One cell of the calendar; `numero` is 0 outside the month. */
  datatype CalCell = CalCell(numero: int, vazio: bool, hoje: bool)

  /** The cell of one day number. */
  function CellOf(dia: int, today: int): CalCell {
    CalCell(dia, dia == 0, dia == today)
  }

  /** The weeks joined in order. */
  function Flatten(cal: seq<seq<int>>): seq<int> {
    if cal == [] then [] else Flatten(cal[..|cal| - 1]) + cal[|cal| - 1]
  }

  /** The cells of a list of day numbers, in order. */
  function Render(days: seq<int>, today: int): (r: seq<CalCell>)
    ensures |r| == |days|
    ensures forall k :: 0 <= k < |days| ==> r[k] == CellOf(days[k], today)
  {
    if days == [] then [] else Render(days[..|days| - 1], today) + [CellOf(days[|days| - 1], today)]
  }

  /**
   * `gerar_calendario` with the month matrix `cal` and today's day of the
   * month injected: one cell per day number, week after week.
   */
  method GerarCalendario(cal: seq<seq<int>>, today: int) returns (celulas: seq<CalCell>)
    ensures celulas == Render(Flatten(cal), today)
  {
    celulas := [];
    var i := 0;
    while i < |cal|
      invariant 0 <= i <= |cal|
      invariant celulas == Render(Flatten(cal[..i]), today)
    {
      var semana := cal[i];
      var j := 0;
      while j < |semana|
        invariant 0 <= j <= |semana|
        invariant celulas == Render(Flatten(cal[..i]) + semana[..j], today)
      {
        var dia := semana[j];
        assert (Flatten(cal[..i]) + semana[..j + 1])[..|Flatten(cal[..i]) + semana[..j]|] ==
               Flatten(cal[..i]) + semana[..j];
        celulas := celulas + [CalCell(dia, dia == 0, dia == today)];
        j := j + 1;
      }
      assert cal[..i + 1][..i] == cal[..i];
      assert semana[..j] == semana;
      i := i + 1;
    }
    assert cal[..i] == cal;
  }

  /** With today a day of the month, no cell is both outside the month and today. */
  lemma EmptyIsNeverToday(days: seq<int>, today: int, k: int)
    requires today >= 1 && 0 <= k < |days|
    ensures !(Render(days, today)[k].vazio && Render(days, today)[k].hoje)
  {
  }

  // ---------------------------------------------------------------- the month matrix

  /** The number of Monday-first weeks a month spans, starting on weekday `first` (0 is Monday) with `ndays` days. */
  function WeekCount(first: nat, ndays: nat): nat {
    (first + ndays + 6) / 7
  }

  /** The day number at position `p` of the month's weeks, 0 before the first and after the last day. */
  function DayAt(first: nat, ndays: nat, p: int): int {
    if first <= p < first + ndays then p - first + 1 else 0
  }

  /** `calendar.monthcalendar`: the weeks of a month, seven day numbers each, Monday first. */
  function MonthCalendar(first: nat, ndays: nat): seq<seq<int>> {
    Weeks(first, ndays, WeekCount(first, ndays))
  }

  function Weeks(first: nat, ndays: nat, n: nat): (r: seq<seq<int>>)
    ensures |r| == n
  {
    seq(n, w => seq(7, d => DayAt(first, ndays, 7 * w + d)))
  }

  /** The first `n` weeks, joined, are the positions `0 .. 7n` in order. */
  lemma {:induction false} FlattenWeeks(first: nat, ndays: nat, n: nat)
    ensures Flatten(Weeks(first, ndays, n)) == seq(7 * n, p => DayAt(first, ndays, p))
  {
    if n > 0 {
      var ws := Weeks(first, ndays, n);
      assert ws[..n - 1] == Weeks(first, ndays, n - 1);
      FlattenWeeks(first, ndays, n - 1);
      var lhs := Flatten(ws);
      var rhs := seq(7 * n, p => DayAt(first, ndays, p));
      assert lhs == seq(7 * (n - 1), p => DayAt(first, ndays, p)) + ws[n - 1];
      forall p | 0 <= p < 7 * n ensures lhs[p] == rhs[p] {
        if p >= 7 * (n - 1) {
          assert lhs[p] == ws[n - 1][p - 7 * (n - 1)];
        }
      }
    }
  }

  /**
   * On a real month matrix, the cell at position `k` is outside the month
   * exactly when `k` comes before the first or after the last day, and it is
   * today exactly at the position of today's date: today is marked once.
   */
  lemma TodayMarkedOnce(first: nat, ndays: nat, today: int)
    requires first < 7 && 1 <= today <= ndays
    ensures |Render(Flatten(MonthCalendar(first, ndays)), today)| == 7 * WeekCount(first, ndays)
    ensures first + ndays <= 7 * WeekCount(first, ndays)
    ensures forall k :: 0 <= k < 7 * WeekCount(first, ndays) ==>
              (Render(Flatten(MonthCalendar(first, ndays)), today)[k].vazio <==> !(first <= k < first + ndays)) &&
              (Render(Flatten(MonthCalendar(first, ndays)), today)[k].hoje <==> k == first + today - 1)
  {
    FlattenWeeks(first, ndays, WeekCount(first, ndays));
  }
}
