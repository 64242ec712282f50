/** Asian-handicap settlement of football bets: the result of one bet
    against a line, the choice of value, line and odds for each of the four
    betting modes, and the pnl and cumulative pnl columns of a match table. */
module AsianPnL {
  import opened Common
  import opened Series

  /** One match row: full-time goals (`ghf`, `gaf`), goals at the moment
      the bet is placed (`gh`, `ga`), the handicap, the goal line, and the
      odds of the four sides. */
  datatype MatchRow = MatchRow(gh: int, ga: int, ghf: int, gaf: int,
                               handicap: real, goalline: real,
                               oddh: real, odda: real, oddo: real, oddu: real)

  /** What a bet is settled on: the value the bet backs, the line it must
      beat and the decimal odds. */
  datatype Bet = Bet(value: int, line: real, odd: real)

  /** The match table with its two added columns. */
  datatype SettledRow = SettledRow(row: MatchRow, pnl: real, cumPnl: real)

  // ---------------------------------------------------------------------
  // Single-bet settlement

  /** The pnl of a unit stake: a full win pays `odd - 1`, a half win half of
      it, a half loss loses half the stake, a loss all of it; anything
      strictly between the two quarter marks is a push. */
  function AsianResult(value: real, line: real, odd: real): real
  {
    var base := value - line;
    var win := odd - 1.0;
    if base > 0.25 then win
    else if base == 0.25 then win / 2.0
    else if base == -0.25 then -0.5
    else if base < -0.25 then -1.0
    else 0.0
  }

  /** A lost or half-lost bet, and a push, settle the same whatever the odds. */
  lemma NonWinsIgnoreOdds(value: real, line: real, odd1: real, odd2: real)
    requires value - line < 0.25
    ensures AsianResult(value, line, odd1) == AsianResult(value, line, odd2)
    ensures AsianResult(value, line, odd1) == (if value - line < -0.25 then -1.0
                                               else if value - line == -0.25 then -0.5
                                               else 0.0)
  {
  }

  /** With odds of at least 1 the result lies between losing the stake and
      the full win; money is lost exactly when the value falls a quarter or
      more short of the line, and won (at odds above 1) exactly when it
      clears the line by a quarter or more. */
  lemma ResultBounds(value: real, line: real, odd: real)
    requires odd >= 1.0
    ensures -1.0 <= AsianResult(value, line, odd) <= odd - 1.0
    ensures AsianResult(value, line, odd) < 0.0 <==> value - line <= -0.25
    ensures odd > 1.0 ==> (AsianResult(value, line, odd) > 0.0 <==> value - line >= 0.25)
  {
  }

  /** With odds of at least 1, a larger value never settles worse. */
  lemma ResultMonotone(value1: real, value2: real, line: real, odd: real)
    requires odd >= 1.0 && value1 <= value2
    ensures AsianResult(value1, line, odd) <= AsianResult(value2, line, odd)
  {
  }

  /** A quarter line settles as half the stake on each neighbouring half or
      whole line: for a goal count, a line of q / 4 with q odd splits into
      (q - 1) / 4 and (q + 1) / 4. */
  lemma {:induction false} QuarterLineSplits(value: int, q: int, odd: real)
    requires q % 2 == 1
    ensures AsianResult(value as real, q as real / 4.0, odd) ==
            (AsianResult(value as real, (q - 1) as real / 4.0, odd) +
             AsianResult(value as real, (q + 1) as real / 4.0, odd)) / 2.0
  {
    // 4 * (value - line) is an odd integer, and the neighbours' bases differ by a quarter
    var d := 4 * value - q;
    assert value as real - q as real / 4.0 == d as real / 4.0;
    assert value as real - (q - 1) as real / 4.0 == (d + 1) as real / 4.0;
    assert value as real - (q + 1) as real / 4.0 == (d - 1) as real / 4.0;
    if d >= 3 {
    } else if d == 1 {
    } else if d == -1 {
    } else {
      assert d <= -3;
    }
  }

  /** A half line (q / 4 with q = 2 mod 4) never pushes and never splits:
      a goal count either beats it or falls short of it. */
  lemma {:induction false} HalfLineSettlesFully(value: int, q: int, odd: real)
    requires q % 4 == 2
    ensures AsianResult(value as real, q as real / 4.0, odd) ==
            if 4 * value > q then odd - 1.0 else -1.0
  {
    var d := 4 * value - q;
    assert value as real - q as real / 4.0 == d as real / 4.0;
    assert d % 4 == 2;
    assert d != 1 && d != -1 && d != 0;
  }

  /** A whole line (q / 4 with q = 0 mod 4) pushes exactly when the goal
      count equals it, and otherwise settles fully. */
  lemma {:induction false} WholeLineSettlesFully(value: int, q: int, odd: real)
    requires q % 4 == 0
    ensures AsianResult(value as real, q as real / 4.0, odd) ==
            if 4 * value > q then odd - 1.0 else if 4 * value == q then 0.0 else -1.0
  {
    var d := 4 * value - q;
    assert value as real - q as real / 4.0 == d as real / 4.0;
    assert d % 4 == 0;
    assert d != 1 && d != -1;
  }

  /** Backing the opposite value against the opposite line turns a win into
      a loss of the same size class and keeps a push a push. */
  lemma OppositeSides(value: real, line: real, odd1: real, odd2: real)
    requires odd1 > 1.0 && odd2 > 1.0
    ensures AsianResult(value, line, odd1) > 0.0 <==> AsianResult(-value, -line, odd2) < 0.0
    ensures AsianResult(value, line, odd1) == 0.0 <==> AsianResult(-value, -line, odd2) == 0.0
    ensures AsianResult(value, line, odd1) == odd1 - 1.0 <==> AsianResult(-value, -line, odd2) == -1.0
  {
  }

  // ---------------------------------------------------------------------
  // Row level

  /** The four betting modes `calc_pnl` accepts. */
  predicate IsMode(signal: string)
  {
    signal in ["home", "away", "over", "under"]
  }

  /** The goals scored after the bet was placed, home minus away. */
  function HomeMargin(row: MatchRow): int
  {
    (row.ghf - row.gh) - (row.gaf - row.ga)
  }

  /** What a row's bet is settled on in a mode: total goals against the goal
      line for over and under, the margin after the bet against the
      handicap for home and away; any other mode is read as away. */
  function RowBet(row: MatchRow, signal: string): Bet
  {
    if signal == "over" then Bet(row.ghf + row.gaf, row.goalline, row.oddo)
    else if signal == "under" then Bet(-(row.ghf + row.gaf), -row.goalline, row.oddu)
    else if signal == "home" then Bet(HomeMargin(row), -row.handicap, row.oddh)
    else Bet((row.gaf - row.ga) - (row.ghf - row.gh), row.handicap, row.odda)
  }

  /** The pnl of a row's bet in a mode. */
  function RowPnl(row: MatchRow, signal: string): real
  {
    var bet := RowBet(row, signal);
    AsianResult(bet.value as real, bet.line, bet.odd)
  }

  /** The under bet backs the opposite of the over bet, and the away bet the
      opposite of the home bet, each at its own odds. */
  lemma ModesMirror(row: MatchRow)
    ensures RowBet(row, "under") == Bet(-RowBet(row, "over").value, -RowBet(row, "over").line, row.oddu)
    ensures RowBet(row, "away") == Bet(-RowBet(row, "home").value, -RowBet(row, "home").line, row.odda)
  {
  }

  /** Over and under on the same row settle in opposite directions, and so
      do home and away, whenever all four odds exceed 1. */
  lemma OppositeModesSettleOpposite(row: MatchRow)
    requires row.oddh > 1.0 && row.odda > 1.0 && row.oddo > 1.0 && row.oddu > 1.0
    ensures RowPnl(row, "over") > 0.0 <==> RowPnl(row, "under") < 0.0
    ensures RowPnl(row, "over") == 0.0 <==> RowPnl(row, "under") == 0.0
    ensures RowPnl(row, "home") > 0.0 <==> RowPnl(row, "away") < 0.0
    ensures RowPnl(row, "home") == 0.0 <==> RowPnl(row, "away") == 0.0
  {
    ModesMirror(row);
    var over, home := RowBet(row, "over"), RowBet(row, "home");
    OppositeSides(over.value as real, over.line, row.oddo, row.oddu);
    OppositeSides(home.value as real, home.line, row.oddh, row.odda);
    assert (-over.value) as real == -(over.value as real);
    assert (-home.value) as real == -(home.value as real);
  }

  /** A mode that is none of the named ones settles as away. */
  lemma OtherModesAreAway(row: MatchRow, signal: string)
    requires signal != "home" && signal != "over" && signal != "under"
    ensures RowPnl(row, signal) == RowPnl(row, "away")
  {
  }

  // ---------------------------------------------------------------------
  // Table level

  /** The pnl column: every row settled in the mode. */
  function RowPnls(rows: seq<MatchRow>, signal: string): (pnls: seq<real>)
    ensures |pnls| == |rows|
  {
    seq(|rows|, i requires 0 <= i < |rows| => RowPnl(rows[i], signal))
  }

  /** The table `calc_pnl` returns for a valid mode: every row kept with its
      pnl and the cumulative sum of the pnl column. */
  function Settled(rows: seq<MatchRow>, signal: string): (out: seq<SettledRow>)
    ensures |out| == |rows|
  {
    var pnls := RowPnls(rows, signal);
    var cum := CumSum(pnls);
    seq(|rows|, i requires 0 <= i < |rows| => SettledRow(rows[i], pnls[i], cum[i]))
  }

  /** Each settled row keeps its match, carries the settlement of its bet,
      and its running total is the sum of the settlements up to and
      including it; the last running total is the table's whole pnl. */
  lemma SettledColumns(rows: seq<MatchRow>, signal: string)
    ensures var out := Settled(rows, signal);
            forall i :: 0 <= i < |out| ==>
              out[i].row == rows[i] && out[i].pnl == RowPnl(rows[i], signal) &&
              out[i].cumPnl == Sum(RowPnls(rows[..i + 1], signal))
    ensures rows != [] ==> Settled(rows, signal)[|rows| - 1].cumPnl == Sum(RowPnls(rows, signal))
  {
    var pnls, out := RowPnls(rows, signal), Settled(rows, signal);
    forall i | 0 <= i < |out|
      ensures out[i].cumPnl == Sum(RowPnls(rows[..i + 1], signal))
    {
      assert RowPnls(rows[..i + 1], signal) == pnls[..i + 1];
    }
    if rows != [] {
      assert pnls[..|rows|] == pnls;
    }
  }

  /** A home side giving 0.75 that wins the rest of the match by one goal
      is a half win, half of `odd - 1`; three goals beat a 2.5 goal line, so
      over wins in full and under loses the stake. */
  lemma QuarterHandicapExample()
    ensures RowPnl(MatchRow(0, 0, 2, 1, -0.75, 2.5, 1.9, 2.0, 1.8, 2.1), "home") == 0.45
    ensures RowPnl(MatchRow(0, 0, 2, 1, -0.75, 2.5, 1.9, 2.0, 1.8, 2.1), "over") == 0.8
    ensures RowPnl(MatchRow(0, 0, 2, 1, -0.75, 2.5, 1.9, 2.0, 1.8, 2.1), "under") == -1.0
  {
  }

  /** `calc_pnl`: rejects a mode outside the four, then settles the rows one
      by one, carrying the running total. */
  method CalcPnl(rows: seq<MatchRow>, signal: string) returns (r: Result<seq<SettledRow>>)
    ensures !IsMode(signal) ==> r == Failure(InvalidMode(signal))
    ensures IsMode(signal) ==> r == Success(Settled(rows, signal))
  {
    if !IsMode(signal) {
      return Failure(InvalidMode(signal));
    }
    var pnls := RowPnls(rows, signal);
    var out: seq<SettledRow> := [];
    var total := 0.0;
    for i := 0 to |rows|
      invariant |out| == i
      invariant forall k :: 0 <= k < i ==> out[k] == SettledRow(rows[k], pnls[k], Sum(pnls[..k + 1]))
      invariant total == Sum(pnls[..i])
    {
      var pnl := RowPnl(rows[i], signal);
      assert pnls[..i + 1] == pnls[..i] + [pnl];
      SumSnoc(pnls[..i], pnl);
      total := total + pnl;
      out := out + [SettledRow(rows[i], pnl, total)];
    }
    var settled := Settled(rows, signal);
    assert forall k :: 0 <= k < |rows| ==> settled[k] == out[k];
    assert settled == out;
    return Success(out);
  }
}
