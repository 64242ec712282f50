/** The column reductions the table code relies on: `sum`, `cumsum`,
    `max` and `min` of a numeric column, over exact reals. */
module Series {

  /** Sum of a column; the empty column sums to zero. */
  function Sum(xs: seq<real>): real
  {
    if xs == [] then 0.0 else xs[0] + Sum(xs[1..])
  }

  /** Appending a value adds it to the sum. */
  lemma {:induction false} SumSnoc(xs: seq<real>, x: real)
    ensures Sum(xs + [x]) == Sum(xs) + x
  {
    if xs != [] {
      assert (xs + [x])[1..] == xs[1..] + [x];
      SumSnoc(xs[1..], x);
    }
  }

  /** Running totals of `xs`, carried on from `acc`. */
  function RunningSums(acc: real, xs: seq<real>): (ys: seq<real>)
    ensures |ys| == |xs|
    ensures forall i :: 0 <= i < |xs| ==> ys[i] == acc + Sum(xs[..i + 1])
    decreases xs
  {
    if xs == [] then []
    else
      assert forall i :: 0 < i < |xs| ==> xs[..i + 1][1..] == xs[1..][..i];
      [acc + xs[0]] + RunningSums(acc + xs[0], xs[1..])
  }

  /** `cumsum`: entry i is the sum of entries 0..i. */
  function CumSum(xs: seq<real>): (ys: seq<real>)
    ensures |ys| == |xs|
    ensures forall i :: 0 <= i < |xs| ==> ys[i] == Sum(xs[..i + 1])
  {
    RunningSums(0.0, xs)
  }

  /** Appending a value appends its running total to the cumulative sums. */
  lemma CumSumSnoc(xs: seq<real>, x: real)
    ensures CumSum(xs + [x]) == CumSum(xs) + [Sum(xs) + x]
  {
    var l, r := CumSum(xs + [x]), CumSum(xs) + [Sum(xs) + x];
    forall i | 0 <= i < |xs| + 1
      ensures l[i] == r[i]
    {
      if i < |xs| {
        assert (xs + [x])[..i + 1] == xs[..i + 1];
      } else {
        assert (xs + [x])[..i + 1] == xs + [x];
        SumSnoc(xs, x);
      }
    }
  }

  /** `max` of a non-empty column: one of its entries, and no entry exceeds it. */
  function Max(xs: seq<real>): (m: real)
    requires xs != []
    ensures m in xs
    ensures forall i :: 0 <= i < |xs| ==> xs[i] <= m
  {
    if |xs| == 1 then xs[0]
    else
      var rest := Max(xs[1..]);
      if xs[0] >= rest then xs[0] else rest
  }

  /** `min` of a non-empty column: one of its entries, and no entry is below it. */
  function Min(xs: seq<real>): (m: real)
    requires xs != []
    ensures m in xs
    ensures forall i :: 0 <= i < |xs| ==> m <= xs[i]
  {
    if |xs| == 1 then xs[0]
    else
      var rest := Min(xs[1..]);
      if xs[0] <= rest then xs[0] else rest
  }
}
