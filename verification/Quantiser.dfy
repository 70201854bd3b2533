/**
 The quantiser of federated model updates (ai/federated.py), in exact arithmetic.

 A list of numbers is sent as its minimum, a step and the number of steps to each value.
 */
module Quantiser {
  datatype Quantised = Quantised(codes: seq<int>, min: real, scale: real)

  function Pow2(n: nat): (p: nat)
    ensures p >= 1
  {
    if n == 0 then 1 else 2 * Pow2(n - 1)
  }

  function Levels(bits: nat): nat {
    Pow2(bits) - 1
  }

  function Min(values: seq<real>): (m: real)
    requires values != []
    ensures m in values && forall v <- values :: m <= v
  {
    var last := values[|values| - 1];
    if |values| == 1 then last
    else
      var m := Min(values[..|values| - 1]);
      assert forall v <- values :: v == last || v in values[..|values| - 1];
      if m <= last then m else last
  }

  function Max(values: seq<real>): (m: real)
    requires values != []
    ensures m in values && forall v <- values :: v <= m
  {
    var last := values[|values| - 1];
    if |values| == 1 then last
    else
      var m := Max(values[..|values| - 1]);
      assert forall v <- values :: v == last || v in values[..|values| - 1];
      if last <= m then m else last
  }

  /** To the nearest integer, halves to the even one. */
  function Round(x: real): int {
    var floor := x.Floor;
    var rest := x - floor as real;
    if rest < 0.5 || (rest == 0.5 && floor % 2 == 0) then floor else floor + 1
  }

  /** No integer is nearer, and of two as near it is the even one. */
  lemma {:induction false} RoundIsNearest(x: real, n: int)
    ensures var near := Round(x) as real;
      x - 0.5 <= near <= x + 0.5 && (x - near == 0.5 || near - x == 0.5 ==> Round(x) % 2 == 0)
    ensures x - 0.5 < n as real < x + 0.5 ==> Round(x) == n
  {
  }

  function Scale(values: seq<real>, bits: nat): real
    requires values != [] && bits > 0
  {
    var spread := Max(values) - Min(values);
    (if spread == 0.0 then 1.0 else spread) / Levels(bits) as real
  }

  function Code(v: real, min: real, scale: real): int
    requires scale != 0.0
  {
    Round((v - min) / scale)
  }

  lemma {:induction false} ScaleIsPositive(values: seq<real>, bits: nat)
    requires values != [] && bits > 0
    ensures Scale(values, bits) > 0.0
  {
  }

  function Quantise(values: seq<real>, bits: nat): Quantised
    requires bits > 0
  {
    if values == [] then Quantised([], 0.0, 1.0)
    else
      ScaleIsPositive(values, bits);
      var min, scale := Min(values), Scale(values, bits);
      Quantised(seq(|values|, i requires 0 <= i < |values| => Code(values[i], min, scale)), min, scale)
  }

  function Restored(code: int, min: real, scale: real): real {
    code as real * scale + min
  }

  function Dequantise(q: Quantised): seq<real> {
    seq(|q.codes|, i requires 0 <= i < |q.codes| => Restored(q.codes[i], q.min, q.scale))
  }

  /* ---------- a single value ---------- */

  lemma {:induction false} Nearly(x: real, y: real, factor: real, product: real)
    requires factor > 0.0 && x - 0.5 <= y <= x + 0.5 && x * factor == product
    ensures product - factor / 2.0 <= y * factor <= product + factor / 2.0
  {
    TimesIsMonotone(x - 0.5, y, factor);
    TimesIsMonotone(y, x + 0.5, factor);
  }

  lemma {:induction false} TimesIsMonotone(a: real, b: real, factor: real)
    requires factor > 0.0 && a <= b
    ensures a * factor <= b * factor
  {
  }

  /** A value comes back within half a step. */
  lemma {:induction false} CodeIsClose(v: real, min: real, scale: real)
    requires scale > 0.0
    ensures v - scale / 2.0 <= Restored(Code(v, min, scale), min, scale) <= v + scale / 2.0
  {
    var x := (v - min) / scale;
    Nearly(x, Round(x) as real, scale, v - min);
  }

  lemma {:induction false} CodeOfRestored(n: int, min: real, scale: real)
    requires scale > 0.0
    ensures Code(Restored(n, min, scale), min, scale) == n
  {
    assert (n as real * scale + min - min) / scale == n as real;
  }

  lemma {:induction false} CodeIsMonotone(v: real, w: real, min: real, scale: real)
    requires scale > 0.0 && v <= w
    ensures Code(v, min, scale) <= Code(w, min, scale)
  {
    assert (v - min) / scale <= (w - min) / scale;
  }

  lemma {:induction false} LevelsSpan(values: seq<real>, bits: nat)
    requires values != [] && bits > 0
    ensures Restored(0, Min(values), Scale(values, bits)) == Min(values)
    ensures Max(values) == Min(values) || Restored(Levels(bits), Min(values), Scale(values, bits)) == Max(values)
  {
  }

  /** The codes of values between the first and the last level are between theirs. */
  lemma {:induction false} CodeIsInRange(v: real, min: real, scale: real, levels: nat)
    requires scale > 0.0 && Restored(0, min, scale) <= v <= Restored(levels, min, scale)
    ensures 0 <= Code(v, min, scale) <= levels
  {
    CodeOfRestored(0, min, scale);
    CodeOfRestored(levels, min, scale);
    CodeIsMonotone(Restored(0, min, scale), v, min, scale);
    CodeIsMonotone(v, Restored(levels, min, scale), min, scale);
  }

  lemma {:induction false} RestoredIsInRange(code: int, min: real, scale: real, levels: nat)
    requires scale > 0.0 && 0 <= code <= levels
    ensures Restored(0, min, scale) <= Restored(code, min, scale) <= Restored(levels, min, scale)
  {
  }

  /* ---------- a list of values ---------- */

  lemma {:induction false} ValueInRange(values: seq<real>, bits: nat, v: real)
    requires v in values && bits > 0 && Scale(values, bits) > 0.0
    ensures var min, max, scale := Min(values), Max(values), Scale(values, bits);
      && 0 <= Code(v, min, scale) <= Levels(bits) && min <= Restored(Code(v, min, scale), min, scale) <= max
      && (v == min || v == max ==> Restored(Code(v, min, scale), min, scale) == v)
  {
    var min, max, scale := Min(values), Max(values), Scale(values, bits);
    LevelsSpan(values, bits);
    CodeOfRestored(0, min, scale);
    if max != min {
      CodeOfRestored(Levels(bits), min, scale);
      CodeIsInRange(v, min, scale, Levels(bits));
      RestoredIsInRange(Code(v, min, scale), min, scale, Levels(bits));
    }
  }

  /** Codes are in range and stand for the values within half a step; the extremes are exact. */
  lemma {:induction false} QuantisedIsClose(values: seq<real>, bits: nat, i: nat)
    requires bits > 0 && i < |values|
    ensures var q, back := Quantise(values, bits), Dequantise(Quantise(values, bits));
      && |q.codes| == |back| == |values|
      && 0 <= q.codes[i] <= Levels(bits) && (bits == 8 ==> Levels(bits) == 255)
      && values[i] - q.scale / 2.0 <= back[i] <= values[i] + q.scale / 2.0
      && Min(values) <= back[i] <= Max(values)
      && (values[i] in {Min(values), Max(values)} ==> back[i] == values[i])
  {
    assert Pow2(4) == 16;
    ScaleIsPositive(values, bits);
    ValueInRange(values, bits, values[i]);
    CodeIsClose(values[i], Min(values), Scale(values, bits));
  }

  /** The codes keep the order of the values. */
  lemma {:induction false} CodesKeepOrder(values: seq<real>, bits: nat, i: nat, j: nat)
    requires bits > 0 && i < |values| && j < |values| && values[i] <= values[j]
    ensures Quantise(values, bits).codes[i] <= Quantise(values, bits).codes[j]
  {
    ScaleIsPositive(values, bits);
    CodeIsMonotone(values[i], values[j], Min(values), Scale(values, bits));
  }

  lemma {:induction false} SameExtremes(values: seq<real>, back: seq<real>)
    requires values != [] && |back| == |values|
    requires forall i | 0 <= i < |values| :: Min(values) <= back[i] <= Max(values)
    requires forall i | 0 <= i < |values| && values[i] in {Min(values), Max(values)} :: back[i] == values[i]
    ensures Min(back) == Min(values) && Max(back) == Max(values)
  {
    var low :| 0 <= low < |values| && values[low] == Min(values);
    var high :| 0 <= high < |values| && values[high] == Max(values);
    assert back[low] in back && back[high] in back;
  }

  lemma {:induction false} RestoredExtremes(values: seq<real>, bits: nat)
    requires bits > 0 && values != []
    ensures var back := Dequantise(Quantise(values, bits));
      |back| == |values| && Min(back) == Min(values) && Max(back) == Max(values)
  {
    var back := Dequantise(Quantise(values, bits));
    forall i | 0 <= i < |values|
      ensures |back| == |values| && Min(values) <= back[i] <= Max(values)
      ensures values[i] in {Min(values), Max(values)} ==> back[i] == values[i]
    {
      QuantisedIsClose(values, bits, i);
    }
    SameExtremes(values, back);
  }

  /** Quantising once loses all there is to lose: what was restored quantises to the very same. */
  lemma {:induction false} QuantisingAgainIsSame(values: seq<real>, bits: nat)
    requires bits > 0
    ensures Quantise(Dequantise(Quantise(values, bits)), bits) == Quantise(values, bits)
  {
    if values != [] {
      var q := Quantise(values, bits);
      var back := Dequantise(q);
      RestoredExtremes(values, bits);
      ScaleIsPositive(values, bits);
      SameScale(values, back, bits);
      forall i | 0 <= i < |values|
        ensures Code(back[i], q.min, q.scale) == q.codes[i]
      {
        CodeOfRestored(q.codes[i], q.min, q.scale);
      }
    }
  }

  lemma {:induction false} SameScale(values: seq<real>, back: seq<real>, bits: nat)
    requires values != [] && back != [] && bits > 0 && Min(back) == Min(values) && Max(back) == Max(values)
    ensures Scale(back, bits) == Scale(values, bits)
  {
  }

  /* ---------- model deltas ---------- */

  const BITS := 8

  type Params = map<string, seq<real>>

  /** Parameters without values are dropped. */
  function Compressed(params: Params): map<string, Quantised> {
    map key | key in params && params[key] != [] :: Quantise(params[key], BITS)
  }

  function Recovered(quantised: map<string, Quantised>): Params {
    map key | key in quantised :: Dequantise(quantised[key])
  }

  /** Passing a delta on once more, without noise, changes nothing in it. */
  lemma {:induction false} RelayedDeltaIsSame(params: Params)
    ensures Compressed(Recovered(Compressed(params))) == Compressed(params)
  {
    var c := Compressed(params);
    forall key | key in c
      ensures Dequantise(c[key]) != [] && Quantise(Dequantise(c[key]), BITS) == c[key]
    {
      QuantisedIsClose(params[key], BITS, 0);
      QuantisingAgainIsSame(params[key], BITS);
    }
  }

  class ModelDelta {
    var quantised: map<string, Quantised>

    constructor (params: Params)
      ensures quantised == Compressed(params)
    {
      quantised := map[];
      new;
      var todo := params.Keys;
      while todo != {}
        invariant todo <= params.Keys
        invariant quantised ==
          map key | key in params && key !in todo && params[key] != [] :: Quantise(params[key], BITS)
      {
        var key :| key in todo;
        if params[key] != [] {
          quantised := quantised[key := Quantise(params[key], BITS)];
        }
        todo := todo - {key};
      }
    }

    /** The parameters as recovered without noise. */
    method GetParams() returns (result: Params)
      ensures result == Recovered(quantised)
    {
      result := map[];
      var todo := quantised.Keys;
      while todo != {}
        invariant todo <= quantised.Keys
        invariant result == map key | key in quantised && key !in todo :: Dequantise(quantised[key])
      {
        var key :| key in todo;
        result := result[key := Dequantise(quantised[key])];
        todo := todo - {key};
      }
    }
  }
}
