/**
 * `fetch_last_grkino`: pick the latest complete draw from the tables of the
 * archive page. The page arrives already parsed, as a sequence of tables,
 * each a sequence of rows (`<tr>`, header first), each a sequence of
 * stripped cell texts (`<td>`); the current UTC time is a parameter.
 */
module KinoImport {
  import opened Wrappers
  import opened Calendar
  import Timestamp
  import NumberCell

  /** The stripped texts of a row's `<td>` cells. */
  type Cells = seq<string>
  /** The rows of a `<table>`, in document order. */
  type Table = seq<Cells>

  /** A draw is complete when it has this many numbers. */
  const DrawSize := 20

  datatype Draw = Draw(id: int, drawnAt: DateTime, nums: seq<nat>)

  /** Why the function returns `None`. */
  datatype Reason =
    | NoUsableTable
    | UnparsableTimestamp
    | FutureDraw
    | IncompleteNumbers(count: nat)

  /** The `IndexError`s that escape the function. */
  datatype Fault =
    | DateCellMissing     // `cols[0]` on an empty row, raised again by the handler's message
    | NumbersCellMissing  // `cols[1]` on a one-cell row

  datatype Outcome = NoDraw(reason: Reason) | Found(draw: Draw) | Raises(fault: Fault)

  /** The index of the first table with at least two rows. */
  function FirstUsable(tables: seq<Table>): (r: Option<nat>)
    ensures r.Some? ==> r.value < |tables| && |tables[r.value]| >= 2 &&
                        forall j :: 0 <= j < r.value ==> |tables[j]| < 2
    ensures r.None? ==> forall j :: 0 <= j < |tables| ==> |tables[j]| < 2
  {
    if tables == [] then None
    else if |tables[0]| >= 2 then Some(0)
    else match FirstUsable(tables[1..])
      case None => None
      case Some(i) => Some(i + 1)
  }

  /** What the function makes of the cells of the selected row. */
  function RowOutcome(cols: Cells, now: DateTime): Outcome
  {
    if |cols| == 0 then Raises(DateCellMissing)
    else match Timestamp.Parse(cols[0])
      case None => NoDraw(UnparsableTimestamp)
      case Some(drawnAt) =>
        if Before(now, drawnAt) then NoDraw(FutureDraw)
        else if |cols| < 2 then Raises(NumbersCellMissing)
        else
          var nums := NumberCell.Numbers(cols[1]);
          if |nums| != DrawSize then NoDraw(IncompleteNumbers(|nums|))
          else Found(Draw(EpochSeconds(drawnAt), drawnAt, nums))
  }

  /** The whole decision: the second row of the first table with two rows. */
  function LastDraw(tables: seq<Table>, now: DateTime): Outcome
  {
    match FirstUsable(tables)
    case None => NoDraw(NoUsableTable)
    case Some(i) => RowOutcome(tables[i][1], now)
  }

  /** The function's own steps, in its order, with its early returns. */
  method FetchLastGrkino(tables: seq<Table>, now: DateTime) returns (result: Outcome)
    ensures result == LastDraw(tables, now)
  {
    var table: Option<Table> := None;
    var k := 0;
    while k < |tables|
      invariant 0 <= k <= |tables|
      invariant forall j :: 0 <= j < k ==> |tables[j]| < 2
      invariant table == None
    {
      if |tables[k]| >= 2 {
        table := Some(tables[k]);
        break;
      }
      k := k + 1;
    }
    if table == None {
      return NoDraw(NoUsableTable);
    }

    var rows := table.value;
    var cols := rows[1];
    if |cols| == 0 {
      return Raises(DateCellMissing);
    }
    var parsed := Timestamp.Parse(cols[0]);
    if parsed == None {
      return NoDraw(UnparsableTimestamp);
    }
    var drawnAt := parsed.value;
    if Before(now, drawnAt) {
      return NoDraw(FutureDraw);
    }
    if |cols| < 2 {
      return Raises(NumbersCellMissing);
    }
    var nums := NumberCell.Numbers(cols[1]);
    if |nums| != DrawSize {
      return NoDraw(IncompleteNumbers(|nums|));
    }
    var drawId := EpochSeconds(drawnAt);
    return Found(Draw(drawId, drawnAt, nums));
  }

  // ---------------------------------------------------------------------------
  // Table and row selection

  /** `None` for lack of a table exactly when no table has two rows. */
  lemma NoUsableTableIff(tables: seq<Table>, now: DateTime)
    ensures LastDraw(tables, now) == NoDraw(NoUsableTable) <==>
            forall j :: 0 <= j < |tables| ==> |tables[j]| < 2
  {
  }

  /** The first table with two rows decides, through its second row alone. */
  lemma FirstUsableTableDecides(tables: seq<Table>, now: DateTime, i: nat)
    requires i < |tables| && |tables[i]| >= 2
    requires forall j :: 0 <= j < i ==> |tables[j]| < 2
    ensures LastDraw(tables, now) == RowOutcome(tables[i][1], now)
  {
  }

  /**
   * The header row, the rows after the second, and every later table can be
   * replaced without changing the result.
   */
  lemma OnlySecondRowMatters(tables: seq<Table>, now: DateTime, i: nat,
                             other: Table, later: seq<Table>)
    requires i < |tables| && |tables[i]| >= 2
    requires forall j :: 0 <= j < i ==> |tables[j]| < 2
    requires |other| >= 2 && other[1] == tables[i][1]
    ensures LastDraw(tables[..i] + [other] + later, now) == LastDraw(tables, now)
  {
    var replaced := tables[..i] + [other] + later;
    assert replaced[i] == other;
    assert forall j :: 0 <= j < i ==> replaced[j] == tables[j];
    FirstUsableTableDecides(tables, now, i);
    FirstUsableTableDecides(replaced, now, i);
  }

  // ---------------------------------------------------------------------------
  // The checks on the selected row

  /** A first cell that does not parse gives `None`, and only such a cell does. */
  lemma UnparsableIff(cols: Cells, now: DateTime)
    requires |cols| >= 1
    ensures RowOutcome(cols, now) == NoDraw(UnparsableTimestamp) <==>
            Timestamp.Parse(cols[0]) == None
  {
  }

  /** The future check is strict: rejected exactly when the draw's instant is after now. */
  lemma FutureIsStrict(cols: Cells, now: DateTime)
    requires |cols| >= 1 && Timestamp.Parse(cols[0]).Some? && IsValid(now)
    ensures Timestamp.IsMinute(Timestamp.Parse(cols[0]).value)
    ensures RowOutcome(cols, now) == NoDraw(FutureDraw) <==>
            Instant(now) < Instant(Timestamp.Parse(cols[0]).value)
  {
    BeforeIsEarlier(now, Timestamp.Parse(cols[0]).value);
  }

  /** A draw stamped with the current minute exactly is not treated as future. */
  lemma DrawAtNowAccepted(now: DateTime, cell: string)
    requires Timestamp.IsMinute(now)
    ensures RowOutcome([Timestamp.Format(now), cell], now) ==
            var nums := NumberCell.Numbers(cell);
            if |nums| == DrawSize then Found(Draw(EpochSeconds(now), now, nums))
            else NoDraw(IncompleteNumbers(|nums|))
  {
    Timestamp.ParseFormat(now);
  }

  /** Past the date checks, the row is a draw exactly when it yields 20 numbers. */
  lemma TwentyNumbersIff(cols: Cells, now: DateTime)
    requires |cols| >= 2 && Timestamp.Parse(cols[0]).Some?
    requires !Before(now, Timestamp.Parse(cols[0]).value)
    ensures RowOutcome(cols, now).Found? <==> |NumberCell.Numbers(cols[1])| == DrawSize
    ensures !RowOutcome(cols, now).Found? ==>
            RowOutcome(cols, now) == NoDraw(IncompleteNumbers(|NumberCell.Numbers(cols[1])|))
  {
  }

  /** A numbers cell listing `ns` gives a draw of `ns` when there are 20 of them, `None` otherwise. */
  lemma CountBoundary(stamp: string, ns: seq<nat>, now: DateTime)
    requires Timestamp.Parse(stamp).Some? && !Before(now, Timestamp.Parse(stamp).value)
    ensures var t := Timestamp.Parse(stamp).value;
            RowOutcome([stamp, NumberCell.Join(ns)], now) ==
            if |ns| == DrawSize then Found(Draw(EpochSeconds(t), t, ns))
            else NoDraw(IncompleteNumbers(|ns|))
  {
    NumberCell.NumbersOfJoin(ns);
  }

  /** The exceptions, and the order of the checks that decides between them and `None`. */
  lemma ErrorCases(stamp: string, now: DateTime)
    ensures RowOutcome([], now) == Raises(DateCellMissing)
    ensures Timestamp.Parse(stamp) == None ==>
            RowOutcome([stamp], now) == NoDraw(UnparsableTimestamp)
    ensures Timestamp.Parse(stamp).Some? ==>
            RowOutcome([stamp], now) ==
            if Before(now, Timestamp.Parse(stamp).value) then NoDraw(FutureDraw)
            else Raises(NumbersCellMissing)
  {
  }

  // ---------------------------------------------------------------------------
  // The returned record

  /**
   * A returned draw has 20 numbers, is not after now, carries its epoch
   * seconds as id (a whole minute), and is read from the second row of the
   * first table with two rows: its timestamp is that row's first cell and
   * its numbers those of its second cell.
   */
  lemma FoundIsSound(tables: seq<Table>, now: DateTime)
    requires IsValid(now) && LastDraw(tables, now).Found?
    ensures var d := LastDraw(tables, now).draw;
            |d.nums| == DrawSize &&
            Timestamp.IsMinute(d.drawnAt) &&
            Instant(d.drawnAt) <= Instant(now) &&
            d.id == EpochSeconds(d.drawnAt) && d.id % 60 == 0 &&
            FirstUsable(tables).Some? &&
            var i := FirstUsable(tables).value;
            |tables[i][1]| >= 2 &&
            Timestamp.Format(d.drawnAt) == tables[i][1][0] &&
            d.nums == NumberCell.Numbers(tables[i][1][1])
  {
    var i := FirstUsable(tables).value;
    var d := LastDraw(tables, now).draw;
    var cols := tables[i][1];
    Timestamp.ParsedIsMinute(cols[0]);
    Timestamp.FormatParse(cols[0]);
    BeforeIsEarlier(now, d.drawnAt);
    WholeMinute(d.drawnAt);
  }

  /**
   * Ids order draws by time and identify them: across any two runs, one id is
   * below another exactly when its draw is earlier, and ids agree exactly when
   * the timestamps do.
   */
  lemma IdsIdentifyDraws(t1: seq<Table>, now1: DateTime, t2: seq<Table>, now2: DateTime)
    requires LastDraw(t1, now1).Found? && LastDraw(t2, now2).Found?
    ensures var d1, d2 := LastDraw(t1, now1).draw, LastDraw(t2, now2).draw;
            (d1.id < d2.id <==> Before(d1.drawnAt, d2.drawnAt)) &&
            (d1.id == d2.id <==> d1.drawnAt == d2.drawnAt)
  {
    var d1, d2 := LastDraw(t1, now1).draw, LastDraw(t2, now2).draw;
    Timestamp.ParsedIsMinute(t1[FirstUsable(t1).value][1][0]);
    Timestamp.ParsedIsMinute(t2[FirstUsable(t2).value][1][0]);
    if Before(d1.drawnAt, d2.drawnAt) {
      EpochSecondsIncreasing(d1.drawnAt, d2.drawnAt);
    }
    if Before(d2.drawnAt, d1.drawnAt) {
      EpochSecondsIncreasing(d2.drawnAt, d1.drawnAt);
    }
    if d1.id == d2.id {
      EpochSecondsInjective(d1.drawnAt, d2.drawnAt);
    }
  }

  // ---------------------------------------------------------------------------
  // A worked example

  /**
   * One table: a header and the row "15.05.2024 14:05" with twenty numbers.
   * An hour later it is returned with id 1715781900 (2024-05-15T14:05:00Z);
   * an hour earlier it is a future draw; with 19 or 21 numbers it is incomplete.
   */
  lemma WorkedExample(header: Cells, stamp: string, ns: seq<nat>, extra: nat)
    requires stamp == "15.05.2024 14:05"
    requires ns == [3, 7, 9, 12, 15, 18, 21, 24, 27, 30, 33, 36, 39, 42, 45, 48, 51, 54, 57, 60]
    ensures var t := DateTime(2024, 5, 15, 14, 5, 0, 0);
            var later, earlier := DateTime(2024, 5, 15, 15, 5, 0, 0), DateTime(2024, 5, 15, 13, 5, 0, 0);
            LastDraw([[header, [stamp, NumberCell.Join(ns)]]], later) == Found(Draw(1715781900, t, ns)) &&
            LastDraw([[header, [stamp, NumberCell.Join(ns)]]], earlier) == NoDraw(FutureDraw) &&
            LastDraw([[header, [stamp, NumberCell.Join(ns[..19])]]], later) == NoDraw(IncompleteNumbers(19)) &&
            LastDraw([[header, [stamp, NumberCell.Join(ns + [extra])]]], later) == NoDraw(IncompleteNumbers(21))
  {
    var t := DateTime(2024, 5, 15, 14, 5, 0, 0);
    var later, earlier := DateTime(2024, 5, 15, 15, 5, 0, 0), DateTime(2024, 5, 15, 13, 5, 0, 0);
    Timestamp.AcceptedExample();
    assert LastDraw([[header, [stamp, NumberCell.Join(ns)]]], later) == Found(Draw(1715781900, t, ns)) by {
      CountBoundary(stamp, ns, later);
    }
    assert LastDraw([[header, [stamp, NumberCell.Join(ns[..19])]]], later) == NoDraw(IncompleteNumbers(19)) by {
      CountBoundary(stamp, ns[..19], later);
    }
    assert LastDraw([[header, [stamp, NumberCell.Join(ns + [extra])]]], later) == NoDraw(IncompleteNumbers(21)) by {
      CountBoundary(stamp, ns + [extra], later);
    }
  }
}
