/**
 * The total cell over time. Each `renderCard` either writes "-" into the
 * cell at once or starts a count-up timer that writes one frame per timer
 * period. `animateTotal` keeps its interval handle in a local variable and
 * only that timer's own callback clears it. A count-up started by an earlier
 * search therefore keeps writing into the same cell after a later search has
 * rendered another record.
 *
 * Time is counted in timer periods. The first render happens at time 0, so
 * its count-up writes at times 1, 2, .... A second render happens between two
 * of those ticks, at `gap + 0.5`, so no two writes ever share a time.
 */
module TotalCell {
  import opened Wrappers
  import opened Records
  import opened ReportCard
  import opened CountUp

  /** What the cell shows after a write. */
  datatype CellText = DashText | Shown(v: real)

  /** One write into the cell, at a time measured in timer periods. */
  datatype Write = Write(time: real, text: CellText)

  /**
   * The writes of one render that starts at `start`: "-" at once when there
   * is no total, else the count-up frames, one per period after the start.
   */
  function Writes(start: real, total: Option<real>): (ws: seq<Write>)
  {
    match total
    case None => [Write(start, DashText)]
    case Some(t) =>
      seq(|Frames(t)|, i requires 0 <= i < |Frames(t)| => Write(start + (i + 1) as real, Shown(Frames(t)[i])))
  }

  /** The writes of one render come one after another, at strictly increasing times, none before the start. */
  lemma WritesIncreasing(start: real, total: Option<real>)
    ensures Writes(start, total) != []
    ensures forall i :: 0 <= i < |Writes(start, total)| ==> Writes(start, total)[i].time >= start
    ensures forall i, j :: 0 <= i < j < |Writes(start, total)| ==> Writes(start, total)[i].time < Writes(start, total)[j].time
  {
    if total.Some? {
      EndsOnTarget(total.value);
    }
  }

  /** What the cell is meant to end on after a render: "-", or the total itself. */
  function Intended(total: Option<real>): CellText
  {
    match total
    case None => DashText
    case Some(t) => Shown(t)
  }

  /** The write that happens last. */
  function Latest(ws: seq<Write>): (w: Write)
    requires ws != []
    ensures w in ws
    ensures forall i :: 0 <= i < |ws| ==> ws[i].time <= w.time
  {
    if |ws| == 1 then ws[0]
    else
      var l := Latest(ws[..|ws| - 1]);
      assert forall i :: 0 <= i < |ws| - 1 ==> ws[i] == ws[..|ws| - 1][i];
      if l.time > ws[|ws| - 1].time then l else ws[|ws| - 1]
  }

  /** A write strictly later than every other one is the latest. */
  lemma LatestIsMax(ws: seq<Write>, k: nat)
    requires k < |ws|
    requires forall i :: 0 <= i < |ws| && i != k ==> ws[i].time < ws[k].time
    ensures Latest(ws) == ws[k]
  {
    var w := Latest(ws);
    var j :| 0 <= j < |ws| && ws[j] == w;
    assert ws[k].time <= w.time;
  }

  /** The last write of a render is the one it is meant to end on. */
  lemma LastWriteIntended(start: real, total: Option<real>)
    ensures Latest(Writes(start, total)) == Writes(start, total)[|Writes(start, total)| - 1]
    ensures Latest(Writes(start, total)).text == Intended(total)
  {
    var ws := Writes(start, total);
    WritesIncreasing(start, total);
    LatestIsMax(ws, |ws| - 1);
    if total.Some? {
      EndsOnTarget(total.value);
    }
  }

  /**
   * The cell as the code leaves it: a render at time 0, then a second one
   * between ticks `gap` and `gap + 1`, with all the writes of both delivered.
   */
  function CellAsWritten(first: Option<real>, gap: nat, second: Option<real>): CellText
  {
    WritesIncreasing(0.0, first);
    Latest(Writes(0.0, first) + Writes(gap as real + 0.5, second)).text
  }

  /** The writes made before `t`: what is left of a timer cleared at `t`. */
  function Before(ws: seq<Write>, t: real): (kept: seq<Write>)
    ensures forall i :: 0 <= i < |kept| ==> kept[i].time < t
  {
    if ws == [] then []
    else (if ws[0].time < t then [ws[0]] else []) + Before(ws[1..], t)
  }

  /**
   * The cell when the second render first clears the count-up still running
   * from the first one, so only the first one's earlier writes happen.
   */
  function CellCleared(first: Option<real>, gap: nat, second: Option<real>): CellText
  {
    var start := gap as real + 0.5;
    WritesIncreasing(start, second);
    Latest(Before(Writes(0.0, first), start) + Writes(start, second)).text
  }

  /**
   * As written: when a record without a total is rendered while the
   * count-up of an earlier record with a positive total is still running
   * (less than 40 periods after it started), the cell ends on the earlier
   * total instead of "-".
   */
  lemma StaleCountUpWins(t: real, gap: nat)
    requires t > 0.0 && gap < Steps
    ensures CellAsWritten(Some(t), gap, None) == Shown(t)
    ensures CellAsWritten(Some(t), gap, None) != Intended(None)
  {
    var a := Writes(0.0, Some(t));
    var b := Writes(gap as real + 0.5, None);
    PositiveTakesFortyTicks(t);
    EndsOnTarget(t);
    WritesIncreasing(0.0, Some(t));
    var ws := a + b;
    assert |a| == Steps;
    forall i | 0 <= i < |ws| && i != Steps - 1
      ensures ws[i].time < ws[Steps - 1].time
    {
      if i >= |a| {
        assert ws[i] == b[0];
      }
    }
    LatestIsMax(ws, Steps - 1);
  }

  /** The case above in figures: a total of 90, then a record without a total half a period later. */
  lemma StaleCountUpExample()
    ensures CellAsWritten(Some(90.0), 0, None) == Shown(90.0)
  {
    StaleCountUpWins(90.0, 0);
  }

  /**
   * With the earlier timer cleared, the cell always ends on what the later
   * render means it to show, whatever the earlier one was.
   */
  lemma ClearedShowsLatestRender(first: Option<real>, gap: nat, second: Option<real>)
    ensures CellCleared(first, gap, second) == Intended(second)
  {
    var start := gap as real + 0.5;
    var xs := Before(Writes(0.0, first), start);
    var ys := Writes(start, second);
    WritesIncreasing(start, second);
    LastWriteIntended(start, second);
    var ws := xs + ys;
    var k := |ws| - 1;
    forall i | 0 <= i < |ws| && i != k ensures ws[i].time < ws[k].time {
      if i >= |xs| {
        assert ws[i] == ys[i - |xs|];
      }
    }
    LatestIsMax(ws, k);
  }

  /**
   * The partner of the total branch: a record with a whole-number total
   * renders a count-up that shows no value above that total, never goes
   * down, and stops on exactly the total.
   */
  lemma RenderedTotalCountsToRecordTotal(rec: Record, n: int)
    requires Get(rec, "total") == Some(Num(n))
    ensures RenderCard(rec).total == CountUp(n as real)
    ensures var f := Frames(n as real); f != [] && f[|f| - 1] == n as real
    ensures var f := Frames(n as real); forall i, j :: 0 <= i <= j < |f| ==> f[i] <= f[j] <= n as real
  {
    EndsOnTarget(n as real);
    var f := Frames(n as real);
    forall i, j | 0 <= i <= j < |f| ensures f[i] <= f[j] <= n as real {
      WholeTargetMonotone(n, i, j);
    }
  }
}
