/** Resampling a candle table to a coarser timeframe: the rows are cut into
    fixed-width time buckets, every column of a bucket is reduced by the
    candle rule, and buckets that reduce to a missing value are dropped. */
module Tools {
  import opened Common
  import opened Series

  /** One row of a candle table; times are integers in a fixed unit. */
  datatype Candle = Candle(time: int, open: real, high: real, low: real, close: real, volume: real)

  /** A column of the table other than `time`, as the candle rule tells
      them apart by name. */
  datatype Column = Open | High | Low | Close | Volume | Other(name: string)

  /** The column a name denotes. */
  function ColumnNamed(name: string): Column
  {
    if name == "open" then Open
    else if name == "high" then High
    else if name == "low" then Low
    else if name == "close" then Close
    else if name == "volume" then Volume
    else Other(name)
  }

  /** A column of a list of rows, in row order. */
  function ColumnOf(rows: seq<Candle>, column: Column): (values: seq<real>)
    requires !column.Other?
    ensures |values| == |rows|
  {
    seq(|rows|, i requires 0 <= i < |rows| =>
          match column
          case Open => rows[i].open
          case High => rows[i].high
          case Low => rows[i].low
          case Close => rows[i].close
          case Volume => rows[i].volume)
  }

  // ---------------------------------------------------------------------
  // The candle rule

  /** `timeframe_resampler_candle`: the reduction of one column of one
      bucket.  An empty bucket gives a missing value, and so does a column
      the rule does not name. */
  function ReduceColumn(column: Column, values: seq<real>): (r: Option<real>)
    ensures r.Some? <==> values != [] && !column.Other?
  {
    if values == [] then None
    else
      match column
      case Open => Some(values[0])
      case High => Some(Max(values))
      case Low => Some(Min(values))
      case Close => Some(values[|values| - 1])
      case Volume => Some(Sum(values))
      case Other(_) => None
  }

  /** The candle rule: a non-empty column reduces to its first value for
      open, its largest for high, its smallest for low, its last for close
      and its total for volume. */
  lemma CandleRule(column: Column, values: seq<real>)
    requires values != [] && !column.Other?
    ensures var r := ReduceColumn(column, values).value;
            (column == Open ==> r == values[0]) &&
            (column == Close ==> r == values[|values| - 1]) &&
            (column == High ==> r in values && forall i :: 0 <= i < |values| ==> values[i] <= r) &&
            (column == Low ==> r in values && forall i :: 0 <= i < |values| ==> r <= values[i]) &&
            (column == Volume ==> r == Sum(values))
  {
  }

  /** Every column besides `time` is one the rule reduces; any other column
      turns every bucket into a row with a missing value. */
  predicate Reducible(columns: seq<string>)
  {
    forall c :: c in columns ==> c == "time" || !ColumnNamed(c).Other?
  }

  /** The bucket a time falls into: the buckets are the intervals
      [k * width, (k + 1) * width). */
  function BucketOf(time: int, width: int): int
    requires width > 0
  {
    time / width
  }

  /** A time lies in the bucket it falls into. */
  lemma BucketBounds(time: int, width: int)
    requires width > 0
    ensures BucketOf(time, width) * width <= time < (BucketOf(time, width) + 1) * width
  {
    var k := BucketOf(time, width);
    assert time == k * width + time % width;
    assert (k + 1) * width == k * width + width;
  }

  /** The rows of bucket k, in their order in the table. */
  function Bucket(bars: seq<Candle>, width: int, k: int): (rows: seq<Candle>)
    requires width > 0
    ensures |rows| <= |bars|
  {
    if bars == [] then []
    else (if BucketOf(bars[0].time, width) == k then [bars[0]] else []) + Bucket(bars[1..], width, k)
  }

  /** Bucket k holds exactly the rows whose time falls into it. */
  lemma {:induction false} BucketMembers(bars: seq<Candle>, width: int, k: int, x: Candle)
    requires width > 0
    ensures x in Bucket(bars, width, k) <==> x in bars && BucketOf(x.time, width) == k
  {
    if bars != [] {
      BucketMembers(bars[1..], width, k, x);
      assert x in bars <==> x == bars[0] || x in bars[1..];
    }
  }

  /** The columns of a candle, in the order the candle lists them. */
  const CANDLE_COLUMNS: seq<Column> := [Open, High, Low, Close, Volume]

  /** `apply`: the candle rule on each of the given columns of a bucket. */
  function ApplyRule(rows: seq<Candle>, columns: seq<Column>): (values: seq<Option<real>>)
    requires forall c :: c in columns ==> !c.Other?
    ensures |values| == |columns|
    ensures forall i :: 0 <= i < |values| ==> (values[i].Some? <==> rows != [])
  {
    if columns == [] then []
    else [ReduceColumn(columns[0], ColumnOf(rows, columns[0]))] + ApplyRule(rows, columns[1..])
  }

  /** Entry i of the applied rule is the rule on column i. */
  lemma {:induction false} ApplyRuleAt(rows: seq<Candle>, columns: seq<Column>, i: nat)
    requires forall c :: c in columns ==> !c.Other?
    requires i < |columns|
    ensures ApplyRule(rows, columns)[i] == ReduceColumn(columns[i], ColumnOf(rows, columns[i]))
  {
    if i > 0 {
      ApplyRuleAt(rows, columns[1..], i - 1);
    }
  }

  /** The candle of one bucket starting at `start`, or none when the bucket
      is empty or a column cannot be reduced. */
  function ReduceBucket(rows: seq<Candle>, columns: seq<string>, start: int): (r: Option<Candle>)
    ensures r.Some? <==> rows != [] && Reducible(columns)
    ensures r.Some? ==> r.value.time == start
  {
    if rows == [] || !Reducible(columns) then None
    else
      var v := ApplyRule(rows, CANDLE_COLUMNS);
      Some(Candle(start, v[0].value, v[1].value, v[2].value, v[3].value, v[4].value))
  }

  /** A bucket's candle holds the candle rule applied to each of its columns. */
  lemma BucketFields(rows: seq<Candle>, columns: seq<string>, start: int)
    requires rows != [] && Reducible(columns)
    ensures ReduceBucket(rows, columns, start).value ==
            Candle(start, ReduceColumn(Open, ColumnOf(rows, Open)).value,
                   ReduceColumn(High, ColumnOf(rows, High)).value,
                   ReduceColumn(Low, ColumnOf(rows, Low)).value,
                   ReduceColumn(Close, ColumnOf(rows, Close)).value,
                   ReduceColumn(Volume, ColumnOf(rows, Volume)).value)
  {
    ApplyRuleAt(rows, CANDLE_COLUMNS, 0);
    ApplyRuleAt(rows, CANDLE_COLUMNS, 1);
    ApplyRuleAt(rows, CANDLE_COLUMNS, 2);
    ApplyRuleAt(rows, CANDLE_COLUMNS, 3);
    ApplyRuleAt(rows, CANDLE_COLUMNS, 4);
  }

  /** A bucket's candle opens at its first open, closes at its last close,
      holds its extreme high and low, and its total volume. */
  lemma BucketCandle(rows: seq<Candle>, columns: seq<string>, start: int)
    requires rows != [] && Reducible(columns)
    ensures var c := ReduceBucket(rows, columns, start).value;
            c.open == rows[0].open && c.close == rows[|rows| - 1].close &&
            (exists i :: 0 <= i < |rows| && rows[i].high == c.high) &&
            (forall i :: 0 <= i < |rows| ==> rows[i].high <= c.high) &&
            (exists i :: 0 <= i < |rows| && rows[i].low == c.low) &&
            (forall i :: 0 <= i < |rows| ==> c.low <= rows[i].low) &&
            c.volume == Sum(ColumnOf(rows, Volume))
  {
    BucketFields(rows, columns, start);
    var highs, lows := ColumnOf(rows, High), ColumnOf(rows, Low);
    CandleRule(High, highs);
    CandleRule(Low, lows);
    CandleRule(Open, ColumnOf(rows, Open));
    CandleRule(Close, ColumnOf(rows, Close));
    CandleRule(Volume, ColumnOf(rows, Volume));
    assert forall i :: 0 <= i < |rows| ==> highs[i] == rows[i].high && lows[i] == rows[i].low;
  }

  // ---------------------------------------------------------------------
  // Resampling

  /** The lowest bucket any row falls into. */
  function FirstBucket(bars: seq<Candle>, width: int): (k: int)
    requires width > 0 && bars != []
    ensures forall x :: x in bars ==> k <= BucketOf(x.time, width)
  {
    if |bars| == 1 then BucketOf(bars[0].time, width)
    else
      var rest := FirstBucket(bars[1..], width);
      assert forall x :: x in bars ==> x == bars[0] || x in bars[1..];
      if BucketOf(bars[0].time, width) <= rest then BucketOf(bars[0].time, width) else rest
  }

  /** The highest bucket any row falls into. */
  function LastBucket(bars: seq<Candle>, width: int): (k: int)
    requires width > 0 && bars != []
    ensures forall x :: x in bars ==> BucketOf(x.time, width) <= k
  {
    if |bars| == 1 then BucketOf(bars[0].time, width)
    else
      var rest := LastBucket(bars[1..], width);
      assert forall x :: x in bars ==> x == bars[0] || x in bars[1..];
      if BucketOf(bars[0].time, width) >= rest then BucketOf(bars[0].time, width) else rest
  }

  /** Rows in strictly ascending time. */
  predicate StrictlyAscending(cs: seq<Candle>)
  {
    forall i, j :: 0 <= i < j < |cs| ==> cs[i].time < cs[j].time
  }

  /** `dropna`: the present values, in order. */
  function Dropna(opts: seq<Option<Candle>>): (cs: seq<Candle>)
    ensures |cs| <= |opts|
  {
    if opts == [] then []
    else (if opts[0].Some? then [opts[0].value] else []) + Dropna(opts[1..])
  }

  /** `dropna` keeps exactly the present values. */
  lemma {:induction false} DropnaMembers(opts: seq<Option<Candle>>, c: Candle)
    ensures c in Dropna(opts) <==> Some(c) in opts
  {
    if opts != [] {
      DropnaMembers(opts[1..], c);
      assert Some(c) in opts <==> opts[0] == Some(c) || Some(c) in opts[1..];
    }
  }

  /** Present values whose times ascend with their position stay in
      strictly ascending time once the missing ones are dropped. */
  lemma {:induction false} DropnaAscending(opts: seq<Option<Candle>>)
    requires forall i, j :: 0 <= i < j < |opts| && opts[i].Some? && opts[j].Some? ==>
               opts[i].value.time < opts[j].value.time
    ensures StrictlyAscending(Dropna(opts))
  {
    if opts != [] {
      var rest := Dropna(opts[1..]);
      DropnaAscending(opts[1..]);
      if opts[0].Some? {
        forall c | c in rest
          ensures opts[0].value.time < c.time
        {
          DropnaMembers(opts[1..], c);
          var j :| 0 <= j < |opts[1..]| && opts[1..][j] == Some(c);
          assert opts[j + 1] == Some(c);
        }
        var out := Dropna(opts);
        assert out == [opts[0].value] + rest;
        assert forall i :: 0 < i < |out| ==> out[i] == rest[i - 1] && rest[i - 1] in rest;
      }
    }
  }

  /** One value per bucket k, k + 1, ..., k + n - 1: its candle, or a
      missing value. */
  function Bins(bars: seq<Candle>, columns: seq<string>, width: int, k: int, n: nat): (opts: seq<Option<Candle>>)
    requires width > 0
    ensures |opts| == n
  {
    seq(n, i requires 0 <= i < n => ReduceBucket(Bucket(bars, width, k + i), columns, (k + i) * width))
  }

  /** Bin i holds the candle of bucket k + i. */
  lemma BinAt(bars: seq<Candle>, columns: seq<string>, width: int, k: int, n: nat, i: nat)
    requires width > 0 && i < n
    ensures Bins(bars, columns, width, k, n)[i] ==
            ReduceBucket(Bucket(bars, width, k + i), columns, (k + i) * width)
  {
  }

  /** The resampled rows: one value per bucket from the first row's bucket
      to the last row's, with the missing ones dropped. */
  function Resample(bars: seq<Candle>, columns: seq<string>, width: int): seq<Candle>
    requires width > 0
  {
    if bars == [] then []
    else
      var lo := FirstBucket(bars, width);
      Dropna(Bins(bars, columns, width, lo, LastBucket(bars, width) - lo + 1))
  }

  /** Every bucket starts on a multiple of the width. */
  lemma StartOnBoundary(k: int, width: int)
    requires width > 0
    ensures (k * width) % width == 0
  {
    var a := k * width;
    var q := a / width;
    assert a == width * q + a % width;
    assert (k - q) * width == a % width;
    MulBounds(k - q, width);
  }

  /** A non-zero multiple of a positive number is at least that number in size. */
  lemma MulBounds(d: int, w: int)
    requires w > 0
    ensures d >= 1 ==> d * w >= w
    ensures d <= -1 ==> d * w <= -w
  {
  }

  /** A time on a bucket boundary is the start of its bucket. */
  lemma BoundaryStartsBucket(time: int, width: int)
    requires width > 0 && time % width == 0
    ensures time == BucketOf(time, width) * width
  {
    assert time == (time / width) * width + time % width;
  }

  /** Later buckets start later. */
  lemma BucketStartsAscend(k1: int, k2: int, width: int)
    requires width > 0 && k1 < k2
    ensures k1 * width < k2 * width
  {
    assert k2 * width - k1 * width == (k2 - k1) * width;
  }

  /** Every value present among the bins is the candle of a non-empty bucket. */
  lemma BinsSound(bars: seq<Candle>, columns: seq<string>, width: int, lo: int, n: nat, c: Candle)
    requires width > 0 && Some(c) in Bins(bars, columns, width, lo, n)
    ensures exists k :: Bucket(bars, width, k) != [] &&
                        ReduceBucket(Bucket(bars, width, k), columns, k * width) == Some(c)
  {
    var bins := Bins(bars, columns, width, lo, n);
    var i :| 0 <= i < |bins| && bins[i] == Some(c);
    BinAt(bars, columns, width, lo, n, i);
  }

  /** Every resampled candle is the candle of a non-empty bucket. */
  lemma ResampleSound(bars: seq<Candle>, columns: seq<string>, width: int, c: Candle)
    requires width > 0 && c in Resample(bars, columns, width)
    ensures exists k :: Bucket(bars, width, k) != [] &&
                        ReduceBucket(Bucket(bars, width, k), columns, k * width) == Some(c)
  {
    var lo := FirstBucket(bars, width);
    var n := LastBucket(bars, width) - lo + 1;
    DropnaMembers(Bins(bars, columns, width, lo, n), c);
    BinsSound(bars, columns, width, lo, n, c);
  }

  /** The candle of bucket k is among the bins from lo on, when k is. */
  lemma BucketBin(bars: seq<Candle>, columns: seq<string>, width: int, lo: int, n: nat, k: int)
    requires width > 0 && lo <= k < lo + n
    ensures ReduceBucket(Bucket(bars, width, k), columns, k * width) in Bins(bars, columns, width, lo, n)
  {
    var i := k - lo;
    assert lo + i == k;
    BinAt(bars, columns, width, lo, n, i);
  }

  /** The candle of a bucket between the first and the last row's is kept. */
  lemma BinInResample(bars: seq<Candle>, columns: seq<string>, width: int, k: int)
    requires width > 0 && bars != []
    requires FirstBucket(bars, width) <= k <= LastBucket(bars, width)
    requires ReduceBucket(Bucket(bars, width, k), columns, k * width).Some?
    ensures ReduceBucket(Bucket(bars, width, k), columns, k * width).value in Resample(bars, columns, width)
  {
    var lo := FirstBucket(bars, width);
    var n := LastBucket(bars, width) - lo + 1;
    BucketBin(bars, columns, width, lo, n, k);
    DropnaMembers(Bins(bars, columns, width, lo, n), ReduceBucket(Bucket(bars, width, k), columns, k * width).value);
  }

  /** Every row's bucket gives a candle in the result, unless a column
      cannot be reduced. */
  lemma ResampleComplete(bars: seq<Candle>, columns: seq<string>, width: int, x: Candle)
    requires width > 0 && x in bars
    ensures var k := BucketOf(x.time, width);
            Reducible(columns) <==> ReduceBucket(Bucket(bars, width, k), columns, k * width).Some?
    ensures var k := BucketOf(x.time, width);
            Reducible(columns) ==> ReduceBucket(Bucket(bars, width, k), columns, k * width).value in Resample(bars, columns, width)
  {
    var k := BucketOf(x.time, width);
    BucketMembers(bars, width, k, x);
    if Reducible(columns) {
      BinInResample(bars, columns, width, k);
    }
  }

  /** A table with a column the rule does not reduce resamples to no rows. */
  lemma IrreducibleColumnEmptiesResult(bars: seq<Candle>, columns: seq<string>, width: int)
    requires width > 0 && !Reducible(columns)
    ensures Resample(bars, columns, width) == []
  {
    if Resample(bars, columns, width) != [] {
      ResampleSound(bars, columns, width, Resample(bars, columns, width)[0]);
    }
  }

  /** A present bin holds a candle stamped with the start of its bucket. */
  lemma BinTime(bars: seq<Candle>, columns: seq<string>, width: int, lo: int, n: nat, i: nat)
    requires width > 0 && i < n
    ensures Bins(bars, columns, width, lo, n)[i].Some? ==>
              Bins(bars, columns, width, lo, n)[i].value.time == (lo + i) * width
  {
    BinAt(bars, columns, width, lo, n, i);
  }

  /** Present bins are in strictly ascending time. */
  lemma BinsAscending(bars: seq<Candle>, columns: seq<string>, width: int, lo: int, n: nat)
    requires width > 0
    ensures var bins := Bins(bars, columns, width, lo, n);
            forall i, j :: 0 <= i < j < |bins| && bins[i].Some? && bins[j].Some? ==>
              bins[i].value.time < bins[j].value.time
  {
    var bins := Bins(bars, columns, width, lo, n);
    forall i, j | 0 <= i < j < |bins| && bins[i].Some? && bins[j].Some?
      ensures bins[i].value.time < bins[j].value.time
    {
      BinTime(bars, columns, width, lo, n, i);
      BinTime(bars, columns, width, lo, n, j);
      BucketStartsAscend(lo + i, lo + j, width);
    }
  }

  /** The resampled rows are in strictly ascending time. */
  lemma ResampleAscending(bars: seq<Candle>, columns: seq<string>, width: int)
    requires width > 0
    ensures StrictlyAscending(Resample(bars, columns, width))
  {
    if bars != [] {
      var lo := FirstBucket(bars, width);
      var n := LastBucket(bars, width) - lo + 1;
      BinsAscending(bars, columns, width, lo, n);
      DropnaAscending(Bins(bars, columns, width, lo, n));
    }
  }

  /** A present bin starts on a bucket boundary. */
  lemma BinOnBoundary(bars: seq<Candle>, columns: seq<string>, width: int, lo: int, n: nat, c: Candle)
    requires width > 0 && Some(c) in Bins(bars, columns, width, lo, n)
    ensures c.time % width == 0
  {
    var bins := Bins(bars, columns, width, lo, n);
    var i :| 0 <= i < |bins| && bins[i] == Some(c);
    BinTime(bars, columns, width, lo, n, i);
    StartOnBoundary(lo + i, width);
  }

  /** Every resampled row starts on a bucket boundary. */
  lemma ResampleOnBoundaries(bars: seq<Candle>, columns: seq<string>, width: int)
    requires width > 0
    ensures forall c :: c in Resample(bars, columns, width) ==> c.time % width == 0
  {
    if bars != [] {
      var lo := FirstBucket(bars, width);
      var n := LastBucket(bars, width) - lo + 1;
      var bins := Bins(bars, columns, width, lo, n);
      forall c | c in Resample(bars, columns, width)
        ensures c.time % width == 0
      {
        DropnaMembers(bins, c);
        BinOnBoundary(bars, columns, width, lo, n, c);
      }
    }
  }

  /** A candle whose open and close lie between its low and its high. */
  predicate WellFormed(c: Candle)
  {
    c.low <= c.open <= c.high && c.low <= c.close <= c.high
  }

  /** The candle of a bucket of well-formed rows is well formed. */
  lemma BucketWellFormed(rows: seq<Candle>, columns: seq<string>, start: int)
    requires rows != [] && Reducible(columns)
    requires forall i :: 0 <= i < |rows| ==> WellFormed(rows[i])
    ensures WellFormed(ReduceBucket(rows, columns, start).value)
  {
    BucketCandle(rows, columns, start);
    assert WellFormed(rows[0]) && WellFormed(rows[|rows| - 1]);
  }

  /** Resampling well-formed candles gives well-formed candles. */
  lemma ResamplePreservesWellFormed(bars: seq<Candle>, columns: seq<string>, width: int)
    requires width > 0
    requires forall x :: x in bars ==> WellFormed(x)
    ensures forall c :: c in Resample(bars, columns, width) ==> WellFormed(c)
  {
    forall c | c in Resample(bars, columns, width)
      ensures WellFormed(c)
    {
      ResampleSound(bars, columns, width, c);
      var k :| Bucket(bars, width, k) != [] &&
               ReduceBucket(Bucket(bars, width, k), columns, k * width) == Some(c);
      var rows := Bucket(bars, width, k);
      forall i | 0 <= i < |rows|
        ensures WellFormed(rows[i])
      {
        assert rows[i] in rows;
        BucketMembers(bars, width, k, rows[i]);
      }
      BucketWellFormed(rows, columns, k * width);
    }
  }

  // ---------------------------------------------------------------------
  // Resampling a table already at the target timeframe

  /** A bucket of strictly ascending rows is itself strictly ascending. */
  lemma {:induction false} BucketAscending(bars: seq<Candle>, width: int, k: int)
    requires width > 0 && StrictlyAscending(bars)
    ensures StrictlyAscending(Bucket(bars, width, k))
  {
    if bars != [] {
      assert StrictlyAscending(bars[1..]);
      BucketAscending(bars[1..], width, k);
      var rest := Bucket(bars[1..], width, k);
      forall i | 0 <= i < |rest|
        ensures bars[0].time < rest[i].time
      {
        assert rest[i] in rest;
        BucketMembers(bars[1..], width, k, rest[i]);
        var j :| 0 <= j < |bars[1..]| && bars[1..][j] == rest[i];
        assert bars[j + 1] == rest[i];
      }
      var rows := Bucket(bars, width, k);
      if BucketOf(bars[0].time, width) == k {
        assert rows == [bars[0]] + rest;
        assert forall i :: 0 < i < |rows| ==> rows[i] == rest[i - 1];
      }
    }
  }

  /** The candle of a bucket with one row is that row, moved to the
      bucket's start. */
  lemma SingleRowCandle(rows: seq<Candle>, columns: seq<string>, start: int)
    requires |rows| == 1 && Reducible(columns)
    ensures ReduceBucket(rows, columns, start) == Some(rows[0].(time := start))
  {
    var x := rows[0];
    BucketFields(rows, columns, start);
    assert ColumnOf(rows, Open) == [x.open];
    assert ColumnOf(rows, High) == [x.high];
    assert ColumnOf(rows, Low) == [x.low];
    assert ColumnOf(rows, Close) == [x.close];
    assert ColumnOf(rows, Volume) == [x.volume];
    assert Sum([x.volume]) == x.volume;
  }

  /** Strictly ascending rows that all share one time are a single row. */
  lemma SameTimeSingleton(rows: seq<Candle>, t: int)
    requires StrictlyAscending(rows) && rows != []
    requires forall i :: 0 <= i < |rows| ==> rows[i].time == t
    ensures |rows| == 1
  {
    assert rows[0].time == rows[|rows| - 1].time;
  }

  /** When every row starts a bucket and times strictly ascend, each
      non-empty bucket holds exactly one row, and its candle is that row. */
  lemma AlignedBucketIsRow(bars: seq<Candle>, columns: seq<string>, width: int, k: int)
    requires width > 0 && StrictlyAscending(bars) && Reducible(columns)
    requires forall x :: x in bars ==> x.time % width == 0
    requires Bucket(bars, width, k) != []
    ensures |Bucket(bars, width, k)| == 1
    ensures ReduceBucket(Bucket(bars, width, k), columns, k * width) == Some(Bucket(bars, width, k)[0])
  {
    var rows := Bucket(bars, width, k);
    BucketAscending(bars, width, k);
    forall i | 0 <= i < |rows|
      ensures rows[i].time == k * width
    {
      var x := rows[i];
      assert x in rows;
      BucketMembers(bars, width, k, x);
      BoundaryStartsBucket(x.time, width);
    }
    SameTimeSingleton(rows, k * width);
    SingleRowCandle(rows, columns, k * width);
  }

  /** Sequences with the same elements are empty together. */
  lemma SameElementsBothEmpty(xs: seq<Candle>, ys: seq<Candle>)
    requires forall c :: c in xs <==> c in ys
    ensures xs == [] <==> ys == []
  {
    if xs != [] {
      assert xs[0] in xs;
    }
    if ys != [] {
      assert ys[0] in ys;
    }
  }

  /** In strictly ascending rows the first row is the earliest, and the only
      one at its time. */
  lemma HeadIsEarliest(xs: seq<Candle>, c: Candle)
    requires StrictlyAscending(xs) && c in xs
    ensures xs[0].time <= c.time
    ensures c.time == xs[0].time ==> c == xs[0]
  {
  }

  /** The rest of strictly ascending rows is every row but the first. */
  lemma TailMembers(xs: seq<Candle>, c: Candle)
    requires StrictlyAscending(xs) && xs != []
    ensures c in xs[1..] <==> c in xs && c != xs[0]
  {
    if c in xs[1..] {
      var p :| 0 <= p < |xs[1..]| && xs[1..][p] == c;
      assert xs[p + 1] == c;
    }
    if c in xs && c != xs[0] {
      var q :| 0 <= q < |xs| && xs[q] == c;
      assert xs[1..][q - 1] == c;
    }
  }

  /** Two strictly ascending sequences of rows with the same elements are equal. */
  lemma {:induction false} AscendingSameElements(xs: seq<Candle>, ys: seq<Candle>)
    requires StrictlyAscending(xs) && StrictlyAscending(ys)
    requires forall c :: c in xs <==> c in ys
    ensures xs == ys
    decreases |xs|
  {
    SameElementsBothEmpty(xs, ys);
    if xs != [] && ys != [] {
      assert xs[0] in ys && ys[0] in xs;
      HeadIsEarliest(xs, ys[0]);
      HeadIsEarliest(ys, xs[0]);
      forall c
        ensures c in xs[1..] <==> c in ys[1..]
      {
        TailMembers(xs, c);
        TailMembers(ys, c);
      }
      assert StrictlyAscending(xs[1..]) && StrictlyAscending(ys[1..]);
      AscendingSameElements(xs[1..], ys[1..]);
      assert xs == [xs[0]] + xs[1..] && ys == [ys[0]] + ys[1..];
    }
  }

  /** A row resampled from rows that start their own buckets is one of them. */
  lemma AlignedSound(bars: seq<Candle>, columns: seq<string>, width: int, c: Candle)
    requires width > 0 && StrictlyAscending(bars) && Reducible(columns)
    requires forall x :: x in bars ==> x.time % width == 0
    requires c in Resample(bars, columns, width)
    ensures c in bars
  {
    ResampleSound(bars, columns, width, c);
    var k :| Bucket(bars, width, k) != [] &&
             ReduceBucket(Bucket(bars, width, k), columns, k * width) == Some(c);
    AlignedBucketIsRow(bars, columns, width, k);
    var rows := Bucket(bars, width, k);
    assert rows[0] in rows;
    BucketMembers(bars, width, k, rows[0]);
  }

  /** Each row that starts its own bucket survives resampling unchanged. */
  lemma AlignedComplete(bars: seq<Candle>, columns: seq<string>, width: int, c: Candle)
    requires width > 0 && StrictlyAscending(bars) && Reducible(columns)
    requires forall x :: x in bars ==> x.time % width == 0
    requires c in bars
    ensures c in Resample(bars, columns, width)
  {
    var k := BucketOf(c.time, width);
    ResampleComplete(bars, columns, width, c);
    BucketMembers(bars, width, k, c);
    AlignedBucketIsRow(bars, columns, width, k);
    var rows := Bucket(bars, width, k);
    assert rows == [rows[0]];
  }

  /** Resampling a table whose rows already start their own buckets, in
      strictly ascending time, gives the table back. */
  lemma ResampleIdentity(bars: seq<Candle>, columns: seq<string>, width: int)
    requires width > 0 && StrictlyAscending(bars) && Reducible(columns)
    requires forall x :: x in bars ==> x.time % width == 0
    ensures Resample(bars, columns, width) == bars
  {
    var out := Resample(bars, columns, width);
    forall c
      ensures c in out <==> c in bars
    {
      if c in out {
        AlignedSound(bars, columns, width, c);
      }
      if c in bars {
        AlignedComplete(bars, columns, width, c);
      }
    }
    ResampleAscending(bars, columns, width);
    AscendingSameElements(out, bars);
  }

  // ---------------------------------------------------------------------
  // The table operation

  /** The columns `timeframe_resampler` asserts, in order. */
  const RESAMPLE_COLUMNS: seq<string> := ["time", "open", "high", "low", "close"]

  /** The columns the resampler asserts each have a candle rule, or are the time. */
  lemma ResampleColumnsReducible()
    ensures Reducible(RESAMPLE_COLUMNS)
    ensures FirstMissing(RESAMPLE_COLUMNS, RESAMPLE_COLUMNS).None?
  {
    assert ColumnNamed("open") == Open && ColumnNamed("high") == High;
    assert ColumnNamed("low") == Low && ColumnNamed("close") == Close;
  }

  /** `timeframe_resampler` as its authors meant it: the schema check, then
      the rows resampled to buckets of `width`, keeping the table's columns. */
  function ResampleTable(table: Table<Candle>, width: int): (r: Result<Table<Candle>>)
    requires width > 0
    ensures FirstMissing(table.columns, RESAMPLE_COLUMNS).Some? ==>
              r == Failure(MissingColumn(FirstMissing(table.columns, RESAMPLE_COLUMNS).value))
    ensures FirstMissing(table.columns, RESAMPLE_COLUMNS).None? ==>
              r.Success? && r.value.columns == table.columns &&
              r.value.rows == Resample(table.rows, table.columns, width) &&
              StrictlyAscending(r.value.rows)
  {
    var missing := FirstMissing(table.columns, RESAMPLE_COLUMNS);
    if missing.Some? then Failure(MissingColumn(missing.value))
    else
      ResampleAscending(table.rows, table.columns, width);
      Success(Table(table.columns, Resample(table.rows, table.columns, width)))
  }

  /** `timeframe_resampler` as written: the schema check passes, then the
      resampling line names `self`, which a static method does not have. */
  function ResampleAsWritten(table: Table<Candle>, width: int): (r: Result<Table<Candle>>)
    requires width > 0
    ensures FirstMissing(table.columns, RESAMPLE_COLUMNS).Some? ==>
              r == Failure(MissingColumn(FirstMissing(table.columns, RESAMPLE_COLUMNS).value))
    ensures FirstMissing(table.columns, RESAMPLE_COLUMNS).None? ==> r == Failure(UndefinedName("self"))
  {
    var missing := FirstMissing(table.columns, RESAMPLE_COLUMNS);
    if missing.Some? then Failure(MissingColumn(missing.value))
    else Failure(UndefinedName("self"))
  }

  /** A table that already has the target timeframe, with only the candle
      columns and the time, comes back unchanged. */
  lemma TableIdentity(table: Table<Candle>, width: int)
    requires width > 0 && FirstMissing(table.columns, RESAMPLE_COLUMNS).None?
    requires Reducible(table.columns) && StrictlyAscending(table.rows)
    requires forall x :: x in table.rows ==> x.time % width == 0
    ensures ResampleTable(table, width) == Success(table)
  {
    ResampleIdentity(table.rows, table.columns, width);
  }

  /** A table with exactly the asserted columns, already at the target
      timeframe, comes back unchanged. */
  lemma CandleTableIdentity(rows: seq<Candle>, width: int)
    requires width > 0 && StrictlyAscending(rows)
    requires forall x :: x in rows ==> x.time % width == 0
    ensures ResampleTable(Table(RESAMPLE_COLUMNS, rows), width) == Success(Table(RESAMPLE_COLUMNS, rows))
  {
    ResampleColumnsReducible();
    TableIdentity(Table(RESAMPLE_COLUMNS, rows), width);
  }

  /** The code as written never resamples: a one-row daily table that the
      intended operation returns unchanged raises instead. */
  lemma AsWrittenNeverResamples()
    ensures var table := Table(RESAMPLE_COLUMNS, [Candle(86400, 1.0, 2.0, 0.5, 1.5, 0.0)]);
            ResampleAsWritten(table, 86400) == Failure(UndefinedName("self")) &&
            ResampleTable(table, 86400) == Success(table)
  {
    var table := Table(RESAMPLE_COLUMNS, [Candle(86400, 1.0, 2.0, 0.5, 1.5, 0.0)]);
    CandleTableIdentity(table.rows, 86400);
  }
}
