/**
 * Roulette-wheel selection of the colony solver: candidate weights are
 * normalised into probabilities, their running (cumulative) sums are formed
 * as `itertools.accumulate` does, and one uniform draw picks the first
 * candidate whose cumulative probability reaches the draw.
 */
module Roulette {
  import opened Wrappers

  /** Sum folded from the left, so that `Sum(s[..j+1]) == Sum(s[..j]) + s[j]`. */
  function Sum(s: seq<real>): real
  {
    if |s| == 0 then 0.0 else Sum(s[..|s| - 1]) + s[|s| - 1]
  }

  /** The j-th value yielded by `accumulate(P)`: the sum of the first j+1 entries. */
  function Cumulative(P: seq<real>, j: nat): real
    requires j < |P|
  {
    Sum(P[..j + 1])
  }

  predicate AllPositive(s: seq<real>)
  {
    forall i :: 0 <= i < |s| ==> s[i] > 0.0
  }

  lemma {:induction false} SumPositive(s: seq<real>)
    requires |s| > 0 && AllPositive(s)
    ensures Sum(s) > 0.0
  {
    var prefix := s[..|s| - 1];
    if |prefix| > 0 {
      assert AllPositive(prefix) by {
        forall i | 0 <= i < |prefix| ensures prefix[i] > 0.0 {
          assert prefix[i] == s[i];
        }
      }
      SumPositive(prefix);
    }
  }

  /** Every entry divided by `d`. */
  function Scale(s: seq<real>, d: real): (r: seq<real>)
    requires d != 0.0
    ensures |r| == |s|
    ensures forall i :: 0 <= i < |s| ==> r[i] == s[i] / d
  {
    seq(|s|, i requires 0 <= i < |s| => s[i] / d)
  }

  lemma {:induction false} SumScale(s: seq<real>, d: real)
    requires d != 0.0
    ensures Sum(Scale(s, d)) == Sum(s) / d
  {
    if |s| > 0 {
      var prefix := s[..|s| - 1];
      assert Scale(s, d)[..|s| - 1] == Scale(prefix, d);
      SumScale(prefix, d);
      assert Sum(Scale(s, d)) == Sum(prefix) / d + s[|s| - 1] / d;
    }
  }

  /**
   * The selection probabilities of the candidates: each weight divided by
   * the sum of all weights.
   */
  function Normalise(ws: seq<real>): (P: seq<real>)
    requires |ws| > 0 && AllPositive(ws)
    ensures |P| == |ws|
    ensures AllPositive(P)
    ensures Sum(P) == 1.0
    ensures forall i :: 0 <= i < |ws| ==> P[i] * Sum(ws) == ws[i]
  {
    SumPositive(ws);
    var total := Sum(ws);
    SumScale(ws, total);
    assert total / total == 1.0;
    Scale(ws, total)
  }

  /**
   * The scan over `accumulate(P)` from position j on, where `acc` is the
   * cumulative sum of the entries before j: the first position whose
   * cumulative sum is at least the draw, or None if the scan runs out.
   */
  function SelectFrom(P: seq<real>, draw: real, j: nat, acc: real): (r: Option<nat>)
    requires j <= |P| && acc == Sum(P[..j])
    ensures r.Some? ==> j <= r.value < |P| && Cumulative(P, r.value) >= draw
    ensures r.Some? ==> forall i :: j <= i < r.value ==> Cumulative(P, i) < draw
    ensures r.None? ==> forall i :: j <= i < |P| ==> Cumulative(P, i) < draw
    decreases |P| - j
  {
    if j == |P| then None
    else
      assert P[..j + 1][..j] == P[..j];
      if acc + P[j] >= draw then Some(j)
      else SelectFrom(P, draw, j + 1, acc + P[j])
  }

  /** Roulette-wheel choice: the first candidate whose cumulative probability reaches the draw. */
  function Select(P: seq<real>, draw: real): (r: Option<nat>)
    ensures r.Some? ==> r.value < |P| && Cumulative(P, r.value) >= draw
    ensures r.Some? ==> forall i :: 0 <= i < r.value ==> Cumulative(P, i) < draw
    ensures r.None? <==> forall i :: 0 <= i < |P| ==> Cumulative(P, i) < draw
  {
    SelectFrom(P, draw, 0, 0.0)
  }

  /**
   * Position i is the first whose running sum of weights reaches the draw's
   * share of the total weight: the roulette choice stated on the raw
   * weights, without normalising them first.
   */
  predicate FirstReaching(ws: seq<real>, draw: real, i: nat)
    requires i < |ws|
  {
    Cumulative(ws, i) >= draw * Sum(ws)
    && forall i' :: 0 <= i' < i ==> Cumulative(ws, i') < draw * Sum(ws)
  }

  /** The wheel over candidates with weights ws lands on candidate j for this draw. */
  predicate Chooses(cands: seq<nat>, ws: seq<real>, draw: real, j: nat)
  {
    exists i :: 0 <= i < |cands| && i < |ws| && cands[i] == j && FirstReaching(ws, draw, i)
  }

  /** Scaling every entry by t scales every prefix sum by t. */
  lemma {:induction false} SumShare(ws: seq<real>, P: seq<real>, t: real, n: nat)
    requires |P| == |ws| && n <= |ws|
    requires forall j :: 0 <= j < |ws| ==> P[j] * t == ws[j]
    ensures Sum(P[..n]) * t == Sum(ws[..n])
  {
    if n > 0 {
      assert P[..n][..n - 1] == P[..n - 1];
      assert ws[..n][..n - 1] == ws[..n - 1];
      SumShare(ws, P, t, n - 1);
      assert (Sum(P[..n - 1]) + P[n - 1]) * t == Sum(P[..n - 1]) * t + P[n - 1] * t;
    }
  }

  /** Multiplying both sides by a positive t keeps a comparison. */
  lemma Compare(x: real, y: real, t: real)
    requires t > 0.0
    ensures x >= y <==> x * t >= y * t
  {
  }

  /** A cumulative probability reaches the draw exactly when the running sum of weights reaches the draw's share of the total t. */
  lemma CumulativeReaches(ws: seq<real>, P: seq<real>, t: real, draw: real, i: nat)
    requires |P| == |ws| && i < |ws| && t > 0.0
    requires forall j :: 0 <= j < |ws| ==> P[j] * t == ws[j]
    ensures Cumulative(P, i) >= draw <==> Cumulative(ws, i) >= draw * t
  {
    SumShare(ws, P, t, i + 1);
    Compare(Cumulative(P, i), draw, t);
  }

  /**
   * Selecting on probabilities P, each weight's share of the total t, is
   * selecting on the raw weights: the chosen position is the first whose
   * running sum of weights reaches the draw's share of the total.
   */
  lemma SelectWeights(ws: seq<real>, P: seq<real>, draw: real)
    requires |P| == |ws| && Sum(ws) > 0.0
    requires forall i :: 0 <= i < |ws| ==> P[i] * Sum(ws) == ws[i]
    ensures Select(P, draw).Some? ==> FirstReaching(ws, draw, Select(P, draw).value)
  {
    var t := Sum(ws);
    var k := Select(P, draw);
    if k.Some? {
      CumulativeReaches(ws, P, t, draw, k.value);
      forall i' | 0 <= i' < k.value ensures Cumulative(ws, i') < draw * t {
        CumulativeReaches(ws, P, t, draw, i');
      }
    }
  }

  /**
   * One spin of the wheel over positive weights: normalise them, then take
   * the first position whose cumulative probability reaches the draw. For a
   * draw below 1 a position is always found, and it is the first whose
   * running sum of weights reaches the draw's share of the total.
   */
  function Spin(ws: seq<real>, draw: real): (k: nat)
    requires |ws| > 0 && AllPositive(ws) && draw < 1.0
    ensures k < |ws| && FirstReaching(ws, draw, k)
  {
    SelectTotal(Normalise(ws), draw);
    NormaliseSelects(ws, draw);
    Select(Normalise(ws), draw).value
  }

  /** The wheel on the normalised weights lands where the running sums of the raw weights first reach the draw. */
  lemma NormaliseSelects(ws: seq<real>, draw: real)
    requires |ws| > 0 && AllPositive(ws)
    ensures Select(Normalise(ws), draw).Some? ==> FirstReaching(ws, draw, Select(Normalise(ws), draw).value)
  {
    SumPositive(ws);
    SelectWeights(ws, Normalise(ws), draw);
  }

  /**
   * With exact arithmetic the last cumulative sum of a probability vector is
   * 1, so a draw below 1 always selects some candidate: the fall-through of
   * the scan never happens.
   */
  lemma SelectTotal(P: seq<real>, draw: real)
    requires |P| > 0 && Sum(P) == 1.0 && draw < 1.0
    ensures Select(P, draw).Some?
  {
    assert P[..|P|] == P;
    assert Cumulative(P, |P| - 1) == 1.0;
  }
}
