/** Shedding: the smallest coefficients of a frame are dropped, a few more in
    each pass, until what is left meets the frame's budget. */
module FrameBudget {
  function NonZeroes(cs: seq<int>): nat {
    if cs == [] then 0 else NonZeroes(cs[..|cs| - 1]) + (if cs[|cs| - 1] != 0 then 1 else 0)
  }

  lemma {:induction false} NonZeroesConcat(a: seq<int>, b: seq<int>)
    ensures NonZeroes(a + b) == NonZeroes(a) + NonZeroes(b)
    decreases |b|
  {
    if b == [] {
      assert a + b == a;
    } else {
      assert (a + b)[..|a + b| - 1] == a + b[..|b| - 1];
      NonZeroesConcat(a, b[..|b| - 1]);
    }
  }

  function Abs(x: int): nat {
    if x < 0 then -x else x
  }

  // ----- one pass

  /** The coefficients after a pass, how many may still be shed, and how many
      are not zero. */
  datatype Pass = Pass(cs: seq<int>, shed: nat, kept: nat)

  /** While there are values to shed, those below `minVal` go. */
  function Reduce(cs: seq<int>, minVal: int, shed: nat): (p: Pass)
    ensures |p.cs| == |cs| && p.shed <= shed
  {
    if cs == [] then Pass([], shed, 0)
    else
      var p := Reduce(cs[..|cs| - 1], minVal, shed);
      var c := cs[|cs| - 1];
      if c == 0 then Pass(p.cs + [0], p.shed, p.kept)
      else if p.shed > 0 && Abs(c) < minVal then Pass(p.cs + [0], p.shed - 1, p.kept)
      else Pass(p.cs + [c], p.shed, p.kept + 1)
  }

  lemma {:induction false} ReduceConcat(a: seq<int>, b: seq<int>, minVal: int, shed: nat)
    ensures var p := Reduce(a, minVal, shed);
      var q := Reduce(b, minVal, p.shed);
      Reduce(a + b, minVal, shed) == Pass(p.cs + q.cs, q.shed, p.kept + q.kept)
    decreases |b|
  {
    var p := Reduce(a, minVal, shed);
    if b == [] {
      assert a + b == a && p.cs + [] == p.cs;
    } else {
      var init := b[..|b| - 1];
      assert (a + b)[..|a + b| - 1] == a + init;
      ReduceConcat(a, init, minVal, shed);
      var q := Reduce(init, minVal, p.shed);
      assert forall c :: p.cs + q.cs + [c] == p.cs + (q.cs + [c]);
    }
  }

  /** A coefficient stays, or it was small and is gone. */
  predicate DroppedBelow(before: seq<int>, after: seq<int>, minVal: int) {
    && |before| == |after|
    && forall i :: 0 <= i < |after| ==> after[i] == before[i] || (after[i] == 0 && Abs(before[i]) < minVal)
  }

  predicate NoneBelow(cs: seq<int>, minVal: int) {
    forall i :: 0 <= i < |cs| ==> cs[i] == 0 || Abs(cs[i]) >= minVal
  }

  /** A pass drops only small values, as many as it says, and stops dropping
      only when there is nothing left to shed. */
  lemma {:induction false} ReduceMeans(cs: seq<int>, minVal: int, shed: nat)
    ensures var p := Reduce(cs, minVal, shed);
      && p.kept == NonZeroes(p.cs)
      && NonZeroes(cs) == p.kept + (shed - p.shed)
      && DroppedBelow(cs, p.cs, minVal)
      && (p.shed > 0 ==> NoneBelow(p.cs, minVal))
    decreases |cs|
  {
    if cs != [] {
      var n := |cs| - 1;
      ReduceMeans(cs[..n], minVal, shed);
      var p, q := Reduce(cs[..n], minVal, shed), Reduce(cs, minVal, shed);
      assert cs == cs[..n] + [cs[n]];
      assert q.cs == p.cs + [q.cs[n]];
      OneMore(cs[..n], p.cs, cs[n], q.cs[n], minVal);
      hide DroppedBelow, NoneBelow, NonZeroes;
    }
  }

  lemma OneMore(a: seq<int>, b: seq<int>, x: int, y: int, minVal: int)
    requires DroppedBelow(a, b, minVal)
    ensures y == x || (y == 0 && Abs(x) < minVal) ==> DroppedBelow(a + [x], b + [y], minVal)
    ensures NoneBelow(b, minVal) && (y == 0 || Abs(y) >= minVal) ==> NoneBelow(b + [y], minVal)
    ensures NonZeroes(a + [x]) == NonZeroes(a) + (if x != 0 then 1 else 0)
    ensures NonZeroes(b + [y]) == NonZeroes(b) + (if y != 0 then 1 else 0)
  {
    assert (a + [x])[..|a|] == a && (b + [y])[..|b|] == b;
  }

  /** The small values that go are the first ones: up to a cut all of them go,
      behind it none, and there is such a rest only when no more are to be
      shed. */
  lemma {:induction false} CutOff(cs: seq<int>, minVal: int, shed: nat) returns (cut: nat)
    ensures var p := Reduce(cs, minVal, shed);
      && cut <= |cs| && (cut < |cs| ==> p.shed == 0)
      && (forall i :: 0 <= i < cut ==> p.cs[i] == if Abs(cs[i]) < minVal then 0 else cs[i])
      && (forall i :: cut <= i < |cs| ==> p.cs[i] == cs[i])
  {
    if cs == [] {
      cut := 0;
    } else {
      var n := |cs| - 1;
      var p, q := Reduce(cs[..n], minVal, shed), Reduce(cs, minVal, shed);
      cut := CutOff(cs[..n], minVal, shed);
      assert q.cs == p.cs + [q.cs[n]];
      if p.shed > 0 { cut := n + 1; }
    }
  }

  // ----- pass after pass

  /** The coefficients after a pass and the count the loop compares. */
  datatype Round = Round(cs: seq<int>, accum: nat)

  function ToShed(accum: nat, threshold: int): nat {
    if accum > threshold then accum - threshold else 0
  }

  /** After pass number `m`; `overhead` is what the blocks themselves take. */
  function RoundAt(cs: seq<int>, overhead: nat, threshold: int, m: nat): (r: Round)
    requires threshold >= 0
    ensures |r.cs| == |cs|
  {
    if m == 0 then
      var p := Reduce(cs, 1, 0);
      Round(p.cs, p.kept + overhead)
    else
      var r := RoundAt(cs, overhead, threshold, m - 1);
      var p := Reduce(r.cs, 8 * m + 1, ToShed(r.accum, threshold));
      Round(p.cs, p.kept + overhead)
  }

  /** What holds after pass `m` if the one before did not meet the budget. */
  ghost predicate Shed(cs: seq<int>, overhead: nat, threshold: int, m: nat, r: Round) {
    && r.accum == NonZeroes(r.cs) + overhead
    && r.accum <= NonZeroes(cs) + overhead
    && (r.accum < threshold ==> r.accum == NonZeroes(cs) + overhead)
    && DroppedBelow(cs, r.cs, 8 * m + 1)
    && NoneBelow(r.cs, 8 * m - 7)
    && (r.accum > threshold ==> NoneBelow(r.cs, 8 * m + 1))
  }

  lemma DroppedTwice(a: seq<int>, b: seq<int>, c: seq<int>, m: int, n: int)
    requires DroppedBelow(a, b, m) && DroppedBelow(b, c, n) && m <= n
    ensures DroppedBelow(a, c, n)
  {}

  lemma DroppedKeeps(b: seq<int>, c: seq<int>, n: int, m: int)
    requires DroppedBelow(b, c, n) && NoneBelow(b, m)
    ensures NoneBelow(c, m)
  {}

  lemma NothingShed(cs: seq<int>, overhead: nat, threshold: int)
    requires threshold >= 0
    ensures var r := RoundAt(cs, overhead, threshold, 0);
      r.cs == cs && Shed(cs, overhead, threshold, 0, r)
  {
    ReduceMeans(cs, 1, 0);
  }

  lemma ShedStep(cs: seq<int>, overhead: nat, threshold: int, m: nat)
    requires threshold >= 0
    requires var r := RoundAt(cs, overhead, threshold, m);
      Shed(cs, overhead, threshold, m, r) && r.accum > threshold
    ensures Shed(cs, overhead, threshold, m + 1, RoundAt(cs, overhead, threshold, m + 1))
  {
    var r, s := RoundAt(cs, overhead, threshold, m), RoundAt(cs, overhead, threshold, m + 1);
    var minVal := 8 * (m + 1) + 1;
    ReduceMeans(r.cs, minVal, ToShed(r.accum, threshold));
    hide RoundAt, Reduce, NonZeroes, DroppedBelow, NoneBelow;
    DroppedTwice(cs, r.cs, s.cs, 8 * m + 1, minVal);
    DroppedKeeps(r.cs, s.cs, minVal, 8 * m + 1);
  }

  /** No pass before `m` met the budget. */
  ghost predicate StillOver(cs: seq<int>, overhead: nat, threshold: int, m: nat)
    requires threshold >= 0
  {
    forall k :: 0 <= k < m ==> RoundAt(cs, overhead, threshold, k).accum > threshold
  }

  lemma {:induction false} ShedHolds(cs: seq<int>, overhead: nat, threshold: int, m: nat)
    requires threshold >= 0 && StillOver(cs, overhead, threshold, m)
    ensures Shed(cs, overhead, threshold, m, RoundAt(cs, overhead, threshold, m))
    decreases m
  {
    hide RoundAt, Shed;
    if m == 0 {
      NothingShed(cs, overhead, threshold);
    } else {
      ShedHolds(cs, overhead, threshold, m - 1);
      ShedStep(cs, overhead, threshold, m - 1);
    }
  }

  // ----- when it ends, and how

  function Peak(cs: seq<int>): nat {
    if cs == [] then 0
    else
      var p := Peak(cs[..|cs| - 1]);
      if Abs(cs[|cs| - 1]) > p then Abs(cs[|cs| - 1]) else p
  }

  lemma {:induction false} PeakBounds(cs: seq<int>, i: nat)
    requires i < |cs|
    ensures Abs(cs[i]) <= Peak(cs)
  {
    if i < |cs| - 1 { PeakBounds(cs[..|cs| - 1], i); }
  }

  lemma {:induction false} SomeNonZero(cs: seq<int>) returns (i: nat)
    requires NonZeroes(cs) > 0
    ensures i < |cs| && cs[i] != 0
  {
    if cs[|cs| - 1] != 0 { i := |cs| - 1; } else { i := SomeNonZero(cs[..|cs| - 1]); }
  }

  /** A pass that leaves too much leaves a value above its limit. */
  lemma PassesBounded(cs: seq<int>, overhead: nat, threshold: int, m: nat)
    requires overhead <= threshold && StillOver(cs, overhead, threshold, m)
    requires RoundAt(cs, overhead, threshold, m).accum > threshold
    ensures 8 * m < Peak(cs)
  {
    ShedHolds(cs, overhead, threshold, m);
    hide RoundAt, NonZeroes, Peak;
    var r := RoundAt(cs, overhead, threshold, m);
    var i := SomeNonZero(r.cs);
    PeakBounds(cs, i);
  }

  /** Some pass meets the threshold. */
  ghost predicate EndsWithin(cs: seq<int>, overhead: nat, threshold: int)
    requires threshold >= 0
  {
    exists m: nat :: RoundAt(cs, overhead, threshold, m).accum <= threshold
  }

  /** The loop ends just when the blocks' own share fits the threshold. */
  lemma EndsExactlyWhen(cs: seq<int>, overhead: nat, threshold: int)
    requires threshold >= 0
    ensures EndsWithin(cs, overhead, threshold) <==> overhead <= threshold
  {
    if overhead <= threshold {
      var m := FirstEnd(cs, overhead, threshold, 0);
    }
    forall m: nat
      ensures RoundAt(cs, overhead, threshold, m).accum >= overhead
    {}
  }

  lemma {:induction false} FirstEnd(cs: seq<int>, overhead: nat, threshold: int, from: nat) returns (m: nat)
    requires overhead <= threshold && StillOver(cs, overhead, threshold, from)
    ensures StillOver(cs, overhead, threshold, m) && RoundAt(cs, overhead, threshold, m).accum <= threshold
    decreases Peak(cs) - from
  {
    hide RoundAt, Peak;
    if RoundAt(cs, overhead, threshold, from).accum <= threshold {
      m := from;
    } else {
      PassesBounded(cs, overhead, threshold, from);
      m := FirstEnd(cs, overhead, threshold, from + 1);
    }
  }

  /** At the pass that ends it, the count is the threshold, or what it was to
      begin with if that was less; what was dropped is no larger than 8 m and
      what survives larger than 8 (m - 1). */
  lemma EndsOnBudget(cs: seq<int>, overhead: nat, threshold: int, m: nat)
    requires threshold >= 0 && StillOver(cs, overhead, threshold, m)
    requires RoundAt(cs, overhead, threshold, m).accum <= threshold
    ensures var r := RoundAt(cs, overhead, threshold, m);
      var initial := NonZeroes(cs) + overhead;
      && r.accum == NonZeroes(r.cs) + overhead == (if initial < threshold then initial else threshold)
      && |r.cs| == |cs|
      && forall i :: 0 <= i < |cs| ==>
           && (r.cs[i] == cs[i] || (r.cs[i] == 0 && Abs(cs[i]) <= 8 * m))
           && (r.cs[i] != 0 ==> Abs(r.cs[i]) > 8 * (m - 1))
  {
    ShedHolds(cs, overhead, threshold, m);
    hide RoundAt, NonZeroes;
  }
}
