/**
 * Views derived from the rows loaded for a post: the label histogram behind the
 * sentiment bar chart and the "potentially toxic" sub-table (strongly negative and
 * not net-upvoted).
 */
module Report {
  import opened Sentiment
  import opened Timestamps
  import opened Store

  /** The toxicity mask `(sentiment < -0.5) & (score < 1)`. */
  predicate IsToxic(r: Row)
  {
    r.sentiment < -0.5 && r.score < 1
  }

  /** The rows the mask selects, in their original order. */
  function Toxic(df: seq<Row>): (toxic: seq<Row>)
    ensures |toxic| <= |df|
    ensures forall r :: r in toxic <==> r in df && IsToxic(r)
    ensures forall r :: multiset(toxic)[r] == if IsToxic(r) then multiset(df)[r] else 0
    decreases |df|
  {
    if df == [] then []
    else
      assert df == [df[0]] + df[1..];
      (if IsToxic(df[0]) then [df[0]] else []) + Toxic(df[1..])
  }

  /** In a newest-first sequence the head is at least as new as every later row. */
  lemma HeadIsNewest(df: seq<Row>)
    requires df != [] && NewestFirst(df)
    ensures forall r :: r in df[1..] ==> TextLe(r.createdUtc, df[0].createdUtc)
  {
    forall r | r in df[1..]
      ensures TextLe(r.createdUtc, df[0].createdUtc)
    {
      var k :| 0 <= k < |df[1..]| && df[1..][k] == r;
      assert df[k + 1] == r;
    }
  }

  /** Putting a row at least as new as all of a newest-first sequence in front keeps it newest first. */
  lemma ConsNewestFirst(x: Row, rest: seq<Row>)
    requires NewestFirst(rest)
    requires forall r :: r in rest ==> TextLe(r.createdUtc, x.createdUtc)
    ensures NewestFirst([x] + rest)
  {
    var df := [x] + rest;
    forall i, j | 0 <= i < j < |df|
      ensures TextLe(df[j].createdUtc, df[i].createdUtc)
    {
      assert df[j] == rest[j - 1];
      if i > 0 {
        assert df[i] == rest[i - 1];
      }
    }
  }

  /** Filtering keeps the newest-first order of the loaded rows. */
  lemma {:induction false} ToxicNewestFirst(df: seq<Row>)
    requires NewestFirst(df)
    ensures NewestFirst(Toxic(df))
    decreases |df|
  {
    if df != [] {
      assert NewestFirst(df[1..]);
      ToxicNewestFirst(df[1..]);
      if IsToxic(df[0]) {
        HeadIsNewest(df);
        ConsNewestFirst(df[0], Toxic(df[1..]));
      }
    }
  }

  /**
   * The toxic rows are a subsequence of the loaded rows: `positions` picks them out
   * of `df` in increasing order, so their relative order is the loaded order.
   */
  lemma {:induction false} ToxicIsSubsequence(df: seq<Row>) returns (positions: seq<nat>)
    ensures |positions| == |Toxic(df)|
    ensures forall i :: 0 <= i < |positions| ==> positions[i] < |df| && Toxic(df)[i] == df[positions[i]]
    ensures forall i, j :: 0 <= i < j < |positions| ==> positions[i] < positions[j]
    decreases |df|
  {
    if df == [] {
      positions := [];
    } else {
      var tail := df[1..];
      var rest := ToxicIsSubsequence(tail);
      var shifted := Shift(rest);
      ShiftedPositions(df, Toxic(tail), rest);
      if IsToxic(df[0]) {
        positions := [0] + shifted;
        ConsPositions(df, Toxic(tail), shifted);
        assert Toxic(df) == [df[0]] + Toxic(tail);
      } else {
        positions := shifted;
        assert Toxic(df) == Toxic(tail);
      }
    }
  }

  /** Every position moved one place on. */
  function Shift(positions: seq<nat>): (shifted: seq<nat>)
    ensures |shifted| == |positions|
    ensures forall i :: 0 <= i < |positions| ==> shifted[i] == positions[i] + 1
  {
    seq(|positions|, i requires 0 <= i < |positions| => positions[i] + 1)
  }

  /** Positions of `sub` in `df[1..]`, moved one place on, are its positions in `df`. */
  lemma ShiftedPositions(df: seq<Row>, sub: seq<Row>, positions: seq<nat>)
    requires df != [] && |positions| == |sub|
    requires forall i :: 0 <= i < |positions| ==> positions[i] < |df[1..]| && sub[i] == df[1..][positions[i]]
    requires forall i, j :: 0 <= i < j < |positions| ==> positions[i] < positions[j]
    ensures forall i :: 0 <= i < |positions| ==> 0 < Shift(positions)[i] < |df| && sub[i] == df[Shift(positions)[i]]
    ensures forall i, j :: 0 <= i < j < |positions| ==> Shift(positions)[i] < Shift(positions)[j]
  {
  }

  /** Position 0 in front of positions of `sub` in `df` gives the positions of `[df[0]] + sub`. */
  lemma ConsPositions(df: seq<Row>, sub: seq<Row>, positions: seq<nat>)
    requires df != [] && |positions| == |sub|
    requires forall i :: 0 <= i < |positions| ==> 0 < positions[i] < |df| && sub[i] == df[positions[i]]
    requires forall i, j :: 0 <= i < j < |positions| ==> positions[i] < positions[j]
    ensures forall i :: 0 <= i < |positions| + 1 ==> ([0] + positions)[i] < |df| && ([df[0]] + sub)[i] == df[([0] + positions)[i]]
    ensures forall i, j :: 0 <= i < j < |positions| + 1 ==> ([0] + positions)[i] < ([0] + positions)[j]
  {
  }

  /** The bar height for one label: how many rows carry it. */
  function LabelCount(df: seq<Row>, l: Label): (n: nat)
    ensures n <= |df|
    ensures n == 0 <==> forall r :: r in df ==> r.sentimentLabel != l
    decreases |df|
  {
    if df == [] then 0
    else (if df[0].sentimentLabel == l then 1 else 0) + LabelCount(df[1..], l)
  }

  /** The `sentiment_label` column of the loaded rows. */
  function Labels(df: seq<Row>): (column: seq<Label>)
    ensures |column| == |df|
  {
    seq(|df|, i requires 0 <= i < |df| => df[i].sentimentLabel)
  }

  /** A label's count is its multiplicity in the label column, which is what `value_counts` reports. */
  lemma {:induction false} LabelCountIsMultiplicity(df: seq<Row>, l: Label)
    ensures LabelCount(df, l) == multiset(Labels(df))[l]
    decreases |df|
  {
    if df != [] {
      LabelCountIsMultiplicity(df[1..], l);
      assert Labels(df) == [df[0].sentimentLabel] + Labels(df[1..]);
    }
  }

  /** The histogram covers every row exactly once. */
  lemma {:induction false} HistogramTotal(df: seq<Row>)
    ensures LabelCount(df, Positive) + LabelCount(df, Negative) + LabelCount(df, Neutral) == |df|
    decreases |df|
  {
    if df != [] {
      HistogramTotal(df[1..]);
    }
  }

  /**
   * Every toxic row is labelled Negative (its polarity is below -0.5), so the toxic
   * table never lists more rows than the Negative bar counts.
   */
  lemma {:induction false} ToxicWithinNegative(df: seq<Row>)
    requires forall i :: 0 <= i < |df| ==> df[i].sentimentLabel == LabelOf(df[i].sentiment)
    ensures forall r :: r in Toxic(df) ==> r.sentimentLabel == Negative
    ensures |Toxic(df)| <= LabelCount(df, Negative)
    decreases |df|
  {
    if df != [] {
      ToxicWithinNegative(df[1..]);
    }
  }
}
