/**
 Scaling a token estimate to an exact total: every category gets its share rounded down, and
 what is left goes to the largest remainders, earlier categories first.
 */
module Anchor {
  import opened Words
  import opened Wrappers

  function Sum(s: seq<int>): int {
    if s == [] then 0 else Sum(s[..|s| - 1]) + s[|s| - 1]
  }

  /** Negative estimates count as zero. */
  function Clamped(s: seq<int>): (r: seq<nat>)
    ensures |r| == |s| && forall i :: 0 <= i < |s| ==> r[i] == if s[i] < 0 then 0 else s[i]
  {
    seq(|s|, i requires 0 <= i < |s| => if s[i] < 0 then 0 else s[i])
  }

  function Share(v: nat, total: nat, divisor: nat): nat
    requires divisor > 0
  {
    v * total / divisor
  }

  function Rest(v: nat, total: nat, divisor: nat): nat
    requires divisor > 0
  {
    v * total % divisor
  }

  /** The high half of the 128-bit product. */
  function High(v: nat, total: nat): nat {
    v * total / TWO_64
  }

  /** Shares rounded down, over a given divisor. */
  ghost function Floors(values: seq<nat>, total: nat, divisor: nat): (r: seq<nat>)
    requires divisor > 0
    ensures |r| == |values| && forall i :: 0 <= i < |values| ==> r[i] == Share(values[i], total, divisor)
  {
    seq(|values|, i requires 0 <= i < |values| => Share(values[i], total, divisor))
  }

  ghost function Remainders(values: seq<nat>, total: nat, divisor: nat): (r: seq<nat>)
    requires divisor > 0
    ensures |r| == |values| && forall i :: 0 <= i < |values| ==> r[i] == Rest(values[i], total, divisor)
  {
    seq(|values|, i requires 0 <= i < |values| => Rest(values[i], total, divisor))
  }

  // ----- Arithmetic -----

  lemma {:induction false} SumAtLeast(s: seq<int>, i: nat)
    requires i < |s| && forall k :: 0 <= k < |s| ==> s[k] >= 0
    ensures Sum(s) >= s[i]
  {
    var n := |s| - 1;
    if i < n {
      SumAtLeast(s[..n], i);
    } else {
      SumNonNegative(s[..n]);
    }
  }

  lemma {:induction false} SumNonNegative(s: seq<int>)
    requires forall k :: 0 <= k < |s| ==> s[k] >= 0
    ensures Sum(s) >= 0
  {
    if s != [] {
      SumNonNegative(s[..|s| - 1]);
    }
  }

  /** Floors and remainders account for everything. */
  lemma {:induction false} SumOfShares(values: seq<nat>, total: nat, divisor: nat)
    requires divisor > 0
    ensures Sum(values) * total ==
      Sum(Floors(values, total, divisor)) * divisor + Sum(Remainders(values, total, divisor))
    decreases |values|
  {
    if values != [] {
      var n := |values| - 1;
      SumOfShares(values[..n], total, divisor);
      assert Floors(values, total, divisor)[..n] == Floors(values[..n], total, divisor);
      assert Remainders(values, total, divisor)[..n] == Remainders(values[..n], total, divisor);
      ShareOf(values[n], total, divisor, Sum(values[..n]), Sum(Floors(values[..n], total, divisor)),
              Sum(Remainders(values[..n], total, divisor)));
    }
  }

  lemma ShareOf(v: nat, total: nat, divisor: nat, sum: int, floors: int, rest: int)
    requires divisor > 0 && sum * total == floors * divisor + rest
    ensures (sum + v) * total == (floors + v * total / divisor) * divisor + (rest + v * total % divisor)
  {
    var product := v * total;
    assert product == (product / divisor) * divisor + product % divisor;
    calc {
      (sum + v) * total;
      sum * total + product;
      floors * divisor + rest + (product / divisor) * divisor + product % divisor;
      (floors + product / divisor) * divisor + (rest + product % divisor);
    }
  }

  lemma PositiveFactor(a: int, d: nat)
    requires d > 0 && a * d > 0
    ensures a > 0
  {
    assert a <= 0 ==> a * d <= 0;
  }

  lemma QuotientMonotone(x: nat, y: nat, divisor: nat)
    requires divisor > 0 && y <= x
    ensures y / divisor <= x / divisor
  {
    var p, q := x / divisor, y / divisor;
    assert x == p * divisor + x % divisor;
    assert y == q * divisor + y % divisor;
    assert (p + 1 - q) * divisor == (p * divisor + divisor) - q * divisor;
    PositiveFactor(p + 1 - q, divisor);
  }

  /** A larger estimate has a larger floor, or the same floor and a larger remainder. */
  lemma ShareMonotone(v: nat, w: nat, total: nat, divisor: nat)
    requires divisor > 0 && total > 0 && v > w
    ensures v * total / divisor > w * total / divisor ||
            (v * total / divisor == w * total / divisor && v * total % divisor > w * total % divisor)
  {
    var x, y := v * total, w * total;
    assert (v - w) * total > 0;
    assert x == y + (v - w) * total;
    QuotientMonotone(x, y, divisor);
    assert x == (x / divisor) * divisor + x % divisor;
    assert y == (y / divisor) * divisor + y % divisor;
  }

  // ----- Handing out what is left -----

  ghost function Count(picked: seq<bool>): nat {
    if picked == [] then 0 else Count(picked[..|picked| - 1]) + (if picked[|picked| - 1] then 1 else 0)
  }

  /** Largest remainders first, the earlier one first among equals, and never a zero one. */
  ghost predicate Fair(remainders: seq<int>, picked: seq<bool>) {
    && |picked| == |remainders|
    && (forall j :: 0 <= j < |picked| && picked[j] ==> remainders[j] > 0)
    && (forall i, j :: 0 <= i < |picked| && 0 <= j < |picked| && picked[j] && !picked[i] ==>
          remainders[i] < remainders[j] || (remainders[i] == remainders[j] && j < i))
  }

  /** One more where picked. */
  ghost predicate Topped(floors: seq<int>, picked: seq<bool>, result: seq<int>) {
    && |picked| == |floors| && |result| == |floors|
    && forall i :: 0 <= i < |floors| ==> result[i] == floors[i] + (if picked[i] then 1 else 0)
  }

  lemma {:induction false} CountUpdate(picked: seq<bool>, i: nat)
    requires i < |picked| && !picked[i]
    ensures Count(picked[i := true]) == Count(picked) + 1
  {
    var n := |picked| - 1;
    if i == n {
      assert picked[i := true][..n] == picked[..n];
    } else {
      assert picked[i := true][..n] == picked[..n][i := true];
      CountUpdate(picked[..n], i);
    }
  }

  /** Picking only among some leaves at most as many, and as many only if all of them. */
  lemma {:induction false} CountWithin(a: seq<bool>, b: seq<bool>)
    requires |a| == |b| && forall i :: 0 <= i < |a| && a[i] ==> b[i]
    ensures Count(a) <= Count(b) && (Count(a) == Count(b) ==> a == b)
  {
    if a != [] {
      var n := |a| - 1;
      CountWithin(a[..n], b[..n]);
      assert a == a[..n] + [a[n]] && b == b[..n] + [b[n]];
    }
  }

  /** Where a remainder is left. */
  ghost function Positive(remainders: seq<int>): (r: seq<bool>)
    ensures |r| == |remainders| && forall i :: 0 <= i < |r| ==> (r[i] <==> remainders[i] > 0)
  {
    seq(|remainders|, i requires 0 <= i < |remainders| => remainders[i] > 0)
  }

  method Best(values: seq<nat>, remainders: seq<int>) returns (best: nat)
    requires |remainders| == |values| && exists i :: 0 <= i < |values| && values[i] > 0
    ensures best < |values| && values[best] > 0
    ensures forall i :: 0 <= i < |values| && values[i] > 0 ==>
              remainders[i] < remainders[best] || (remainders[i] == remainders[best] && best <= i)
  {
    var found := -1;
    for index := 0 to |values|
      invariant -1 <= found < index
      invariant found < 0 ==> forall i :: 0 <= i < index ==> values[i] == 0
      invariant found >= 0 ==> values[found] > 0
      invariant found >= 0 ==> forall i :: 0 <= i < index && values[i] > 0 ==>
                  remainders[i] < remainders[found] || (remainders[i] == remainders[found] && found <= i)
    {
      if values[index] > 0 && (found < 0 || remainders[index] > remainders[found]) {
        found := index;
      }
    }
    return found;
  }

  /** The first category with an estimate. */
  ghost predicate IsFirst(values: seq<nat>, i: int) {
    0 <= i < |values| && values[i] > 0 && forall k :: 0 <= k < i ==> values[k] == 0
  }

  /** So many tokens handed out: one to each of the fairly picked, and what exceeds the positive
      remainders to the first category with an estimate. */
  ghost predicate Handed(values: seq<nat>, remainders: seq<int>, left: nat, picked: seq<bool>, extra: seq<int>) {
    && Fair(remainders, picked) && |extra| == |remainders| == |values|
    && Count(picked) == (if left < Count(Positive(remainders)) then left else Count(Positive(remainders)))
    && forall i :: 0 <= i < |extra| ==>
         extra[i] == (if picked[i] then 1 else 0) + (if IsFirst(values, i) then left - Count(picked) else 0)
  }

  /** The remainders a pick leaves. */
  ghost predicate OpenAfter(remainders: seq<int>, picked: seq<bool>, open: seq<int>) {
    && |open| == |remainders| == |picked|
    && forall i :: 0 <= i < |open| ==> open[i] == if picked[i] then 0 else remainders[i]
  }

  ghost predicate BestAmong(values: seq<nat>, remainders: seq<int>, best: nat)
    requires |remainders| == |values|
  {
    && best < |values| && values[best] > 0
    && forall i :: 0 <= i < |values| && values[i] > 0 ==>
         remainders[i] < remainders[best] || (remainders[i] == remainders[best] && best <= i)
  }

  lemma NothingHanded(values: seq<nat>, remainders: seq<int>, picked: seq<bool>, extra: seq<int>)
    requires |values| == |remainders| == |picked| == |extra|
    requires forall i :: 0 <= i < |values| ==> !picked[i] && extra[i] == 0
    ensures Handed(values, remainders, 0, picked, extra) && OpenAfter(remainders, picked, remainders)
  {
    NothingPicked(picked);
  }

  /** There is one way to hand out so many tokens. */
  lemma HandedUnique(values: seq<nat>, remainders: seq<int>, left: nat, p: seq<bool>, x: seq<int>, p': seq<bool>,
                     x': seq<int>)
    requires Handed(values, remainders, left, p, x) && Handed(values, remainders, left, p', x')
    ensures p == p' && x == x'
  {
    if i :| 0 <= i < |p| && p[i] && !p'[i] {
      forall j | 0 <= j < |p| && p'[j] ensures p[j] {
        assert p[i] && !p'[i];
      }
      CountWithin(p', p);
    } else {
      CountWithin(p, p');
    }
  }

  /** The largest open remainder may be picked next. */
  lemma FairNext(values: seq<nat>, remainders: seq<int>, picked: seq<bool>, open: seq<int>, best: nat)
    requires |values| == |remainders| && Fair(remainders, picked) && OpenAfter(remainders, picked, open)
    requires BestAmong(values, open, best)
    requires forall i :: 0 <= i < |values| ==> remainders[i] >= 0 && (values[i] == 0 ==> remainders[i] == 0)
    requires open[best] > 0
    ensures !picked[best] && Fair(remainders, picked[best := true])
    ensures OpenAfter(remainders, picked[best := true], open[best := 0])
  {
  }

  /** With no remainder open, all are picked and the first category is next. */
  lemma NoneOpen(values: seq<nat>, remainders: seq<int>, picked: seq<bool>, open: seq<int>, best: nat)
    requires |values| == |remainders| && Fair(remainders, picked) && OpenAfter(remainders, picked, open)
    requires BestAmong(values, open, best)
    requires forall i :: 0 <= i < |values| ==> remainders[i] >= 0 && (values[i] == 0 ==> remainders[i] == 0)
    requires open[best] <= 0
    ensures picked == Positive(remainders) && IsFirst(values, best) && open[best := 0] == open
  {
    forall i | 0 <= i < |values| ensures picked[i] <==> remainders[i] > 0 {
      assert remainders[i] > 0 ==> values[i] > 0;
    }
    assert open[best] == 0;
    forall i | 0 <= i < best ensures values[i] == 0 {
      assert open[i] >= open[best];
    }
  }

  lemma OneFirst(values: seq<nat>, i: int, j: int)
    requires IsFirst(values, i) && IsFirst(values, j)
    ensures i == j
  {
  }

  /** The next token goes where the rule says, whether or not a remainder is left. */
  lemma HandNext(values: seq<nat>, remainders: seq<int>, left: nat, picked: seq<bool>, extra: seq<int>, open: seq<int>,
                 best: nat)
    returns (next: seq<bool>)
    requires Handed(values, remainders, left, picked, extra) && OpenAfter(remainders, picked, open)
    requires BestAmong(values, open, best)
    requires forall i :: 0 <= i < |values| ==> remainders[i] >= 0 && (values[i] == 0 ==> remainders[i] == 0)
    ensures Handed(values, remainders, left + 1, next, extra[best := extra[best] + 1])
    ensures OpenAfter(remainders, next, open[best := 0])
  {
    hide Fair;
    hide IsFirst;
    hide OpenAfter;
    FairSizes(values, remainders, picked, open);
    CountWithin(picked, Positive(remainders));
    if open[best] > 0 {
      next := picked[best := true];
      FairNext(values, remainders, picked, open, best);
      CountUpdate(picked, best);
      FairSizes(values, remainders, next, open[best := 0]);
      CountWithin(next, Positive(remainders));
    } else {
      next := picked;
      NoneOpen(values, remainders, picked, open, best);
      forall i | IsFirst(values, i) ensures i == best {
        OneFirst(values, i, best);
      }
    }
  }

  lemma FairSizes(values: seq<nat>, remainders: seq<int>, picked: seq<bool>, open: seq<int>)
    requires Fair(remainders, picked) && OpenAfter(remainders, picked, open)
    ensures |picked| == |remainders| == |open| && forall i :: 0 <= i < |picked| && picked[i] ==> remainders[i] > 0
  {
  }

  /** Every increment wraps at 64 bits. */
  ghost predicate ToppedUp(quotients: seq<int>, extra: seq<int>, result: seq<int>) {
    |result| == |quotients| == |extra| && forall i :: 0 <= i < |result| ==> result[i] == Wrap(quotients[i] + extra[i])
  }

  method Distribute(values: seq<nat>, quotients: seq<int>, remainders: seq<int>, left: int)
    returns (result: seq<int>, ghost picked: seq<bool>, ghost extra: seq<int>)
    requires |quotients| == |values| && |remainders| == |values| && exists i :: 0 <= i < |values| && values[i] > 0
    requires forall i :: 0 <= i < |values| ==> IsInt64(quotients[i])
    requires forall i :: 0 <= i < |values| ==> remainders[i] >= 0 && (values[i] == 0 ==> remainders[i] == 0)
    ensures Handed(values, remainders, if left > 0 then left else 0, picked, extra)
    ensures ToppedUp(quotients, extra, result)
  {
    hide Handed;
    hide OpenAfter;
    hide Wrap;
    result := quotients;
    var open, rest := remainders, left;
    picked, extra := seq(|values|, _ => false), seq(|values|, _ => 0);
    NothingHanded(values, remainders, picked, extra);
    forall i | 0 <= i < |values| ensures Wrap(quotients[i] + 0) == quotients[i] {
      WrapSmall(quotients[i]);
    }
    while rest > 0
      invariant |open| == |values| && |extra| == |values| && rest <= left && (rest < left ==> rest >= 0)
      invariant Handed(values, remainders, left - rest, picked, extra) && OpenAfter(remainders, picked, open)
      invariant ToppedUp(quotients, extra, result)
      decreases rest
    {
      var best := Best(values, open);
      picked := HandNext(values, remainders, left - rest, picked, extra, open, best);
      WrapAgain(quotients[best] + extra[best], 1);
      result := result[best := Wrap(result[best] + 1)];
      extra, open := extra[best := extra[best] + 1], open[best := 0];
      rest := rest - 1;
    }
  }

  lemma {:induction false} NothingPicked(picked: seq<bool>)
    requires forall i :: 0 <= i < |picked| ==> !picked[i]
    ensures Count(picked) == 0
  {
    if picked != [] {
      NothingPicked(picked[..|picked| - 1]);
    }
  }

  // ----- Anchoring -----

  /** Every category has its exact share rounded down or up, by largest remainder. */
  ghost predicate Apportioned(values: seq<nat>, total: nat, sum: nat, result: seq<int>)
    requires sum > 0
  {
    exists picked :: Fair(Remainders(values, total, sum), picked) && Topped(Floors(values, total, sum), picked, result)
  }

  /** The divisor the code uses: the clamped estimates, added in 64 bits. */
  ghost function Divisor(estimate: seq<int>): nat {
    SumNonNegative(Clamped(estimate));
    Sum(Clamped(estimate)) % TWO_64
  }

  /** Every 128-bit product has a quotient that fits in 64 bits. */
  ghost predicate QuotientsFit(values: seq<nat>, total: nat, divisor: nat) {
    forall i :: 0 <= i < |values| ==> High(values[i], total) < divisor
  }

  /** The quotients, their bits read as signed integers. */
  ghost function Quotients(values: seq<nat>, total: nat, divisor: nat): (r: seq<int>)
    requires divisor > 0
    ensures |r| == |values| && forall i :: 0 <= i < |r| ==> r[i] == Wrap(Floors(values, total, divisor)[i])
  {
    seq(|values|, i requires 0 <= i < |values| => Wrap(Floors(values, total, divisor)[i]))
  }

  /** What the code takes to be left over once the quotients are given out. */
  ghost function Left(values: seq<nat>, total: nat, divisor: nat): int
    requires divisor > 0
  {
    Wrap(total - Sum(Quotients(values, total, divisor)))
  }

  ghost function AtLeastZero(n: int): nat {
    if n > 0 then n else 0
  }

  /** What anchoring computes, whatever wraps: the quotients, and what is left handed out. */
  ghost predicate Anchored(values: seq<nat>, total: nat, divisor: nat, result: seq<int>)
    requires divisor > 0
  {
    exists picked, extra ::
      && Handed(values, Remainders(values, total, divisor), AtLeastZero(Left(values, total, divisor)), picked, extra)
      && ToppedUp(Quotients(values, total, divisor), extra, result)
  }

  /** Anchor an estimate to a total; None stands for a quotient that does not fit in 64 bits.
      The categories add up to the total, as 64-bit numbers, exactly when what is left is not
      negative. When the estimates add up within 64 bits the total is kept as it stands, and
      apportioned fairly. */
  method AnchorValues(estimate: seq<int>, total: int) returns (r: Option<seq<int>>)
    requires forall i :: 0 <= i < |estimate| ==> estimate[i] <= MAX_INT64
    requires total <= MAX_INT64
    ensures total <= 0 || Divisor(estimate) == 0 ==> r == Some(seq(|estimate|, _ => 0))
    ensures total > 0 && Divisor(estimate) > 0 ==>
      var values, divisor := Clamped(estimate), Divisor(estimate);
      && (r.Some? <==> QuotientsFit(values, total, divisor))
      && (r.Some? ==> Anchored(values, total, divisor, r.value))
      && (r.Some? ==> (Wrap(Sum(r.value)) == total <==> Left(values, total, divisor) >= 0))
    ensures total > 0 && 0 < Sum(Clamped(estimate)) < TWO_64 ==>
              r.Some? && Sum(r.value) == total && Apportioned(Clamped(estimate), total, Sum(Clamped(estimate)), r.value)
  {
    hide Floors;
    hide Remainders;
    hide Quotients;
    hide Sum;
    hide Wrap;
    hide Handed;
    hide QuotientsFit;
    hide Apportioned;
    var values := Clamped(estimate);
    var sum := AddUp(values);
    SumNonNegative(values);
    if sum == 0 || total <= 0 {
      return Some(seq(|estimate|, _ => 0));
    }
    if Sum(values) < TWO_64 {
      SmallSumFits(values, total);
    }
    var shares := Divide(values, total, sum);
    if shares == None {
      return None;
    }
    var (quotients, remainders, given) := shares.value;
    WrapMinus(total, Sum(quotients));
    PositiveSum(values);
    ZeroRemainders(values, total, sum);
    var result;
    ghost var picked, extra;
    result, picked, extra := Distribute(values, quotients, remainders, Wrap(total - given));
    assert Handed(values, Remainders(values, total, sum), AtLeastZero(Left(values, total, sum)), picked, extra);
    AnchoredTotal(values, total, sum, result);
    if Sum(values) < TWO_64 {
      SmallSumAnchored(values, total, result);
    }
    return Some(result);
  }

  lemma ZeroRemainders(values: seq<nat>, total: nat, sum: nat)
    requires sum > 0
    ensures forall i :: 0 <= i < |values| && values[i] == 0 ==> Remainders(values, total, sum)[i] == 0
  {
  }

  method AddUp(values: seq<nat>) returns (sum: nat)
    ensures sum == Sum(values) % TWO_64
  {
    sum := 0;
    for index := 0 to |values|
      invariant sum == Sum(values[..index]) % TWO_64
    {
      assert values[..index + 1][..index] == values[..index];
      sum := (sum + values[index]) % TWO_64;
    }
    assert values[..|values|] == values;
  }

  /** All shares: signed quotients, remainders, and the 64-bit sum of the quotients. */
  method Divide(values: seq<nat>, total: nat, sum: nat) returns (r: Option<(seq<int>, seq<int>, int)>)
    requires sum > 0
    ensures r.Some? <==> QuotientsFit(values, total, sum)
    ensures r.Some? ==> r.value.0 == Quotients(values, total, sum) && r.value.1 == Remainders(values, total, sum)
    ensures r.Some? ==> r.value.2 == Wrap(Sum(r.value.0)) && forall i :: 0 <= i < |values| ==> IsInt64(r.value.0[i])
  {
    hide Wrap;
    hide Floors;
    hide Remainders;
    hide Quotients;
    hide Share;
    hide Rest;
    hide High;
    hide Sum;
    var quotients: seq<int>, remainders: seq<int>, given := [], [], 0;
    NothingDivided();
    for index := 0 to |values|
      invariant quotients == Quotients(values, total, sum)[..index]
      invariant remainders == Remainders(values, total, sum)[..index]
      invariant given == Wrap(Sum(quotients)) && forall i :: 0 <= i < index ==> IsInt64(quotients[i])
      invariant QuotientsFit(values[..index], total, sum)
    {
      if High(values[index], total) >= sum {
        return None;
      }
      var quotient := Wrap(Share(values[index], total, sum));
      WrapSmall(Share(values[index], total, sum));
      DivideNext(values, total, sum, index, quotients, given);
      quotients, remainders := quotients + [quotient], remainders + [Rest(values[index], total, sum)];
      given := Wrap(given + quotient);
    }
    return Some((quotients, remainders, given));
  }

  lemma NothingDivided()
    ensures Wrap(Sum([])) == 0
  {
  }

  /** One more share. */
  lemma DivideNext(values: seq<nat>, total: nat, sum: nat, index: nat, quotients: seq<int>, given: int)
    requires sum > 0 && index < |values| && given == Wrap(Sum(quotients))
    ensures var quotient := Wrap(Share(values[index], total, sum));
      && Quotients(values, total, sum)[..index + 1] == Quotients(values, total, sum)[..index] + [quotient]
      && Remainders(values, total, sum)[..index + 1] ==
        Remainders(values, total, sum)[..index] + [Rest(values[index], total, sum)]
      && Wrap(given + quotient) == Wrap(Sum(quotients + [quotient]))
  {
    hide Wrap;
    hide Share;
    hide Rest;
    var quotient := Wrap(Share(values[index], total, sum));
    WrapAgain(Sum(quotients), quotient);
    assert (quotients + [quotient])[..|quotients|] == quotients;
  }

  lemma {:induction false} PositiveSum(values: seq<nat>)
    requires Sum(values) > 0
    ensures exists i :: 0 <= i < |values| && values[i] > 0
  {
    var n := |values| - 1;
    if values[n] == 0 {
      PositiveSum(values[..n]);
      var i :| 0 <= i < n && values[..n][i] > 0;
      assert values[i] > 0;
    }
  }

  lemma FloorsFit(values: seq<nat>, total: nat)
    requires Sum(values) > 0
    ensures Sum(Floors(values, total, Sum(values))) <= total
  {
    var sum := Sum(values);
    SumOfShares(values, total, sum);
    SumNonNegative(Remainders(values, total, sum));
    NotAbove(total, Sum(Floors(values, total, sum)), sum, Sum(Remainders(values, total, sum)));
  }

  lemma NotAbove(total: nat, floors: int, sum: nat, rest: int)
    requires sum > 0 && rest >= 0 && sum * total == floors * sum + rest
    ensures floors <= total
  {
    assert (total + 1 - floors) * sum == sum * total + sum - floors * sum;
    PositiveFactor(total + 1 - floors, sum);
  }

  // ----- When the total is kept -----

  /** Categories that an increment pushed over the top. */
  ghost function Overflows(quotients: seq<int>, extra: seq<int>): nat
    requires |extra| == |quotients|
  {
    if quotients == [] then 0
    else
      var n := |quotients| - 1;
      Overflows(quotients[..n], extra[..n]) + (if quotients[n] + extra[n] > MAX_INT64 then 1 else 0)
  }

  lemma {:induction false} ToppedSum(quotients: seq<int>, extra: seq<int>, result: seq<int>)
    requires ToppedUp(quotients, extra, result)
    requires forall i :: 0 <= i < |extra| ==> 0 <= extra[i] <= MAX_INT64 && IsInt64(quotients[i])
    ensures Sum(result) == Sum(quotients) + Sum(extra) - TWO_64 * Overflows(quotients, extra)
  {
    hide Wrap;
    if result != [] {
      var n := |result| - 1;
      WrapOnce(quotients[n] + extra[n]);
      ToppedSum(quotients[..n], extra[..n], result[..n]);
      assert result[n] == Wrap(quotients[n] + extra[n]);
    }
  }

  lemma {:induction false} SumPicked(values: seq<nat>, picked: seq<bool>, extra: seq<int>, more: int)
    requires |picked| == |extra| == |values|
    requires forall i :: 0 <= i < |extra| ==>
      extra[i] == (if picked[i] then 1 else 0) + (if IsFirst(values, i) then more else 0)
    ensures Sum(extra) == Count(picked) + (if exists i :: IsFirst(values, i) then more else 0)
  {
    if values != [] {
      var n := |values| - 1;
      forall i ensures IsFirst(values, i) <==> IsFirst(values[..n], i) || (i == n && IsFirst(values, n)) {
        FirstInPrefix(values, n, i);
      }
      SumPicked(values[..n], picked[..n], extra[..n], more);
      if IsFirst(values, n) {
        assert forall i :: !IsFirst(values[..n], i);
      }
    }
  }

  lemma FirstInPrefix(values: seq<nat>, n: nat, i: int)
    requires n < |values|
    ensures i < n ==> (IsFirst(values, i) <==> IsFirst(values[..n], i))
  {
  }

  lemma {:induction false} FirstExists(values: seq<nat>)
    requires exists i :: 0 <= i < |values| && values[i] > 0
    ensures exists i :: IsFirst(values, i)
  {
    var n := |values| - 1;
    if exists i :: 0 <= i < n && values[i] > 0 {
      var i :| 0 <= i < n && values[i] > 0;
      assert values[..n][i] > 0;
      FirstExists(values[..n]);
      var f :| IsFirst(values[..n], f);
      assert IsFirst(values, f);
    } else {
      assert IsFirst(values, n);
    }
  }

  /** What is handed out is what was left, no more and no less. */
  lemma HandedSum(values: seq<nat>, remainders: seq<int>, left: nat, picked: seq<bool>, extra: seq<int>)
    requires Handed(values, remainders, left, picked, extra) && exists i :: 0 <= i < |values| && values[i] > 0
    ensures Sum(extra) == left && forall i :: 0 <= i < |extra| ==> 0 <= extra[i] <= left
  {
    SumPicked(values, picked, extra, left - Count(picked));
    FirstExists(values);
    forall i | 0 <= i < |extra| && picked[i] ensures Count(picked) > 0 {
      CountPositive(picked, i);
    }
  }

  lemma {:induction false} CountPositive(picked: seq<bool>, i: nat)
    requires i < |picked| && picked[i]
    ensures Count(picked) > 0
  {
    if i < |picked| - 1 {
      CountPositive(picked[..|picked| - 1], i);
    }
  }

  /** The sum of what anchoring gives, exactly, for every input. */
  lemma AnchoredSum(values: seq<nat>, total: nat, divisor: nat, result: seq<int>)
    returns (picked: seq<bool>, extra: seq<int>)
    requires divisor > 0 && Anchored(values, total, divisor, result) && exists i :: 0 <= i < |values| && values[i] > 0
    ensures Handed(values, Remainders(values, total, divisor), AtLeastZero(Left(values, total, divisor)), picked, extra)
    ensures ToppedUp(Quotients(values, total, divisor), extra, result)
    ensures var quotients := Quotients(values, total, divisor);
            && |extra| == |quotients|
            && Sum(result) ==
               Sum(quotients) + AtLeastZero(Left(values, total, divisor)) - TWO_64 * Overflows(quotients, extra)
  {
    hide Wrap;
    hide Handed;
    hide Quotients;
    picked, extra :|
      && Handed(values, Remainders(values, total, divisor), AtLeastZero(Left(values, total, divisor)), picked, extra)
      && ToppedUp(Quotients(values, total, divisor), extra, result);
    HandedSum(values, Remainders(values, total, divisor), AtLeastZero(Left(values, total, divisor)), picked, extra);
    WrapSmall(total - Sum(Quotients(values, total, divisor)));
    forall i | 0 <= i < |values| ensures IsInt64(Quotients(values, total, divisor)[i]) {
      WrapSmall(Floors(values, total, divisor)[i]);
    }
    ToppedSum(Quotients(values, total, divisor), extra, result);
  }

  /** As 64-bit numbers the categories add up to the total exactly when what is left is not
      negative; as integers, exactly when the overflows make up for the rest. As long as no
      category can be pushed over the top, that is when the quotients stay within reach of the
      total from below. */
  lemma AnchoredTotal(values: seq<nat>, total: nat, divisor: nat, result: seq<int>)
    requires divisor > 0 && total <= MAX_INT64 && Anchored(values, total, divisor, result)
    requires exists i :: 0 <= i < |values| && values[i] > 0
    ensures Wrap(Sum(result)) == total <==> Left(values, total, divisor) >= 0
    ensures var quotients, left := Quotients(values, total, divisor), AtLeastZero(Left(values, total, divisor));
            && (exists picked, extra ::
                  && Handed(values, Remainders(values, total, divisor), left, picked, extra)
                  && (Sum(result) == total <==> Sum(quotients) + left == total + TWO_64 * Overflows(quotients, extra)))
            && ((forall i :: 0 <= i < |quotients| ==> quotients[i] + left <= MAX_INT64) ==>
                  (Sum(result) == total <==> 0 <= total - Sum(quotients) <= MAX_INT64))
  {
    hide Handed;
    hide Quotients;
    var picked, extra := AnchoredSum(values, total, divisor, result);
    var quotients, left := Quotients(values, total, divisor), Left(values, total, divisor);
    var q, w := Sum(quotients), Overflows(quotients, extra);
    WrapTotal(total, q, left, w);
    HandedSum(values, Remainders(values, total, divisor), AtLeastZero(left), picked, extra);
    if forall i :: 0 <= i < |quotients| ==> quotients[i] + AtLeastZero(left) <= MAX_INT64 {
      NoOverflow(quotients, extra);
    }
  }

  lemma WrapTotal(total: nat, q: int, left: int, w: nat)
    requires total <= MAX_INT64 && left == Wrap(total - q)
    ensures Wrap(q + AtLeastZero(left) - TWO_64 * w) == total <==> left >= 0
    ensures q + AtLeastZero(left) == total <==> 0 <= total - q <= MAX_INT64
  {
    WrapMultiple(q + AtLeastZero(left), w);
    if left >= 0 {
      WrapAgain(total - q, q);
      WrapSmall(total);
      assert left + q == q + left;
    } else {
      WrapSmall(total - q);
      WrapMinus(total, q);
    }
  }

  lemma WrapMultiple(n: int, w: nat)
    ensures Wrap(n - TWO_64 * w) == Wrap(n)
  {
    var x := n + MAX_INT64 + 1;
    var q := x / TWO_64;
    assert x - TWO_64 * w == (q - w) * TWO_64 + x % TWO_64;
  }

  lemma {:induction false} NoOverflow(quotients: seq<int>, extra: seq<int>)
    requires |extra| == |quotients| && forall i :: 0 <= i < |quotients| ==> quotients[i] + extra[i] <= MAX_INT64
    ensures Overflows(quotients, extra) == 0
  {
    if quotients != [] {
      var n := |quotients| - 1;
      NoOverflow(quotients[..n], extra[..n]);
    }
  }

  // ----- Estimates that add up within 64 bits -----

  lemma {:induction false} FloorAtMost(s: seq<nat>, i: nat)
    requires i < |s|
    ensures s[i] <= Sum(s)
  {
    SumAtLeast(s, i);
  }

  lemma SmallSumFits(values: seq<nat>, total: nat)
    requires 0 < Sum(values) < TWO_64 && total <= MAX_INT64
    ensures QuotientsFit(values, total, Sum(values))
    ensures Quotients(values, total, Sum(values)) == Floors(values, total, Sum(values))
    ensures Left(values, total, Sum(values)) == total - Sum(Floors(values, total, Sum(values))) >= 0
  {
    hide Wrap;
    var sum := Sum(values);
    var floors := Floors(values, total, sum);
    FloorsFit(values, total);
    SumNonNegative(floors);
    forall i | 0 <= i < |values|
      ensures values[i] * total / TWO_64 < sum && Quotients(values, total, sum)[i] == floors[i]
    {
      FloorAtMost(floors, i);
      QuotientSmall(values[i] * total, sum);
      WrapSmall(floors[i]);
    }
    WrapSmall(total - Sum(floors));
  }

  /** A quotient below 2^64 means the high half was below the divisor. */
  lemma QuotientSmall(product: nat, sum: nat)
    requires sum > 0 && product / sum < TWO_64
    ensures product / TWO_64 < sum
  {
    var q := product / sum;
    assert product == q * sum + product % sum;
    assert (q + 1) * sum == q * sum + sum;
    ProductBound(q + 1, sum);
  }

  lemma ProductBound(q: nat, sum: nat)
    requires q <= TWO_64
    ensures q * sum <= TWO_64 * sum
  {
    assert (TWO_64 - q) * sum >= 0;
  }

  lemma {:induction false} SumBelow(remainders: seq<int>, divisor: int)
    requires forall k :: 0 <= k < |remainders| ==> 0 <= remainders[k] < divisor
    ensures Sum(remainders) <= Count(Positive(remainders)) * (divisor - 1)
  {
    if remainders != [] {
      var n := |remainders| - 1;
      SumBelow(remainders[..n], divisor);
      assert Positive(remainders)[..n] == Positive(remainders[..n]);
      var c := Count(Positive(remainders[..n]));
      assert (c + 1) * (divisor - 1) == c * (divisor - 1) + (divisor - 1);
    }
  }

  /** There are at least as many positive remainders as tokens left. */
  lemma EnoughRemainders(values: seq<nat>, total: nat)
    requires Sum(values) > 0
    ensures total - Sum(Floors(values, total, Sum(values))) <= Count(Positive(Remainders(values, total, Sum(values))))
  {
    var sum := Sum(values);
    var left, count := total - Sum(Floors(values, total, sum)), Count(Positive(Remainders(values, total, sum)));
    SumOfShares(values, total, sum);
    SumBelow(Remainders(values, total, sum), sum);
    AtMost(left, count, sum, Sum(Remainders(values, total, sum)), total, Sum(Floors(values, total, sum)));
  }

  lemma AtMost(left: int, count: nat, sum: nat, rest: int, total: nat, floors: int)
    requires sum > 0 && sum * total == floors * sum + rest && left == total - floors && rest <= count * (sum - 1)
    ensures left <= count
  {
    assert left * sum == rest by {
      assert (total - floors) * sum == sum * total - floors * sum;
    }
    assert count * (sum - 1) == count * sum - count;
    assert (count + 1 - left) * sum == count * sum + sum - left * sum;
    PositiveFactor(count + 1 - left, sum);
  }

  lemma SmallSumAnchored(values: seq<nat>, total: nat, result: seq<int>)
    requires 0 < Sum(values) < TWO_64 && total <= MAX_INT64 && Anchored(values, total, Sum(values), result)
    ensures Sum(result) == total && Apportioned(values, total, Sum(values), result)
  {
    hide Wrap;
    hide Quotients;
    hide Handed;
    hide Floors;
    hide Remainders;
    var sum := Sum(values);
    PositiveSum(values);
    SmallSumFits(values, total);
    EnoughRemainders(values, total);
    var picked, extra := AnchoredSum(values, total, sum, result);
    var floors, remainders, left := Floors(values, total, sum), Remainders(values, total, sum),
      AtLeastZero(Left(values, total, sum));
    HandedSum(values, remainders, left, picked, extra);
    AllPicked(values, remainders, left, picked, extra);
    SmallTopped(floors, extra, picked, result, left);
  }

  /** With enough remainders, every token handed out is a picked one. */
  lemma AllPicked(values: seq<nat>, remainders: seq<int>, left: nat, picked: seq<bool>, extra: seq<int>)
    requires Handed(values, remainders, left, picked, extra) && left <= Count(Positive(remainders))
    ensures Fair(remainders, picked) && |extra| == |picked|
    ensures forall i :: 0 <= i < |extra| ==> extra[i] == if picked[i] then 1 else 0
  {
  }

  lemma SmallTopped(floors: seq<nat>, extra: seq<int>, picked: seq<bool>, result: seq<int>, left: nat)
    requires ToppedUp(floors, extra, result) && |picked| == |extra| && Sum(floors) + left <= MAX_INT64
    requires forall i :: 0 <= i < |extra| ==> extra[i] == (if picked[i] then 1 else 0) && 0 <= extra[i] <= left
    ensures Topped(floors, picked, result) && Overflows(floors, extra) == 0
  {
    hide Wrap;
    forall i | 0 <= i < |floors| ensures result[i] == floors[i] + extra[i] <= MAX_INT64 {
      FloorAtMost(floors, i);
      WrapSmall(floors[i] + extra[i]);
    }
    NoOverflow(floors, extra);
  }

  // ----- What a fair apportionment gives -----

  lemma RoundedUp(product: nat, sum: nat)
    requires sum > 0
    ensures product / sum * sum <= product && (product % sum > 0 ==> (product / sum + 1) * sum < product + sum)
  {
    var q := product / sum;
    assert product == q * sum + product % sum;
    assert (q + 1) * sum == q * sum + sum;
  }

  /** The exact share, rounded down or up; nothing for nothing; more for more. */
  lemma ApportionedShares(values: seq<nat>, total: nat, sum: nat, result: seq<int>, i: nat, j: nat)
    requires sum > 0 && total > 0 && Apportioned(values, total, sum, result) && i < |values| && j < |values|
    ensures |result| == |values|
    ensures result[i] == values[i] * total / sum || result[i] == values[i] * total / sum + 1
    ensures result[i] * sum < values[i] * total + sum
    ensures values[i] == 0 ==> result[i] == 0
    ensures values[i] > values[j] ==> result[i] >= result[j]
    ensures values[i] == values[j] && i < j ==> result[i] >= result[j]
  {
    var picked :| Fair(Remainders(values, total, sum), picked) && Topped(Floors(values, total, sum), picked, result);
    RoundedUp(values[i] * total, sum);
    assert Remainders(values, total, sum)[i] == values[i] * total % sum;
    if values[i] > values[j] {
      ShareMonotone(values[i], values[j], total, sum);
    }
  }

  /** Without the 64-bit bound the promise fails: three of the largest estimates, anchored to
      one hundred tokens, get a hundred each. */
  lemma WrappedSumBreaksTotal()
    ensures var estimate := [MAX_INT64, MAX_INT64, MAX_INT64, 0, 0, 0, 0, 0];
            && Divisor(estimate) > 0 && QuotientsFit(Clamped(estimate), 100, Divisor(estimate))
            && Sum(Quotients(Clamped(estimate), 100, Divisor(estimate))) == 300
            && Left(Clamped(estimate), 100, Divisor(estimate)) == -200
  {
    var estimate := [MAX_INT64, MAX_INT64, MAX_INT64, 0, 0, 0, 0, 0];
    var values := Clamped(estimate);
    assert values == estimate;
    SumOfEight(estimate);
    assert Divisor(estimate) == 3 * MAX_INT64 - TWO_64;
    SumOfEight(Quotients(values, 100, Divisor(estimate)));
  }

  /** Floors that do not fit may still keep the total: read as signed numbers they can cancel. */
  lemma CancellingQuotientsKeepTotal()
    ensures var estimate := [MAX_INT64, MAX_INT64, 3, 0, 0, 0, 0, 0];
            && Divisor(estimate) == 1 && QuotientsFit(Clamped(estimate), 2, 1)
            && Quotients(Clamped(estimate), 2, 1) == [-2, -2, 6, 0, 0, 0, 0, 0]
            && Left(Clamped(estimate), 2, 1) == 0
  {
    var estimate := [MAX_INT64, MAX_INT64, 3, 0, 0, 0, 0, 0];
    assert Clamped(estimate) == estimate;
    SumOfEight(estimate);
    SumOfEight(Quotients(Clamped(estimate), 2, 1));
  }

  const OVERFLOWING: seq<int> := [6148914691236517205, MAX_INT64, MAX_INT64, MAX_INT64, 3074457345618258608, 0, 0, 0]

  /** And what is left may be small and still push a category over the top: here two of three
      tokens are left, and the first of them turns the largest share into the smallest. */
  lemma IncrementCanOverflow(result: seq<int>)
    requires Anchored(Clamped(OVERFLOWING), 3, 2, result)
    ensures Divisor(OVERFLOWING) == 2 && QuotientsFit(Clamped(OVERFLOWING), 3, 2)
    ensures Left(Clamped(OVERFLOWING), 3, 2) == 3 - Sum(Quotients(Clamped(OVERFLOWING), 3, 2)) == 2
    ensures |result| == 8 && result[0] == -MAX_INT64 - 1 && Sum(result) != 3
  {
    hide Handed;
    hide Quotients;
    hide Remainders;
    hide Floors;
    hide Wrap;
    hide Sum;
    hide Overflows;
    hide Divisor;
    hide QuotientsFit;
    var values := Clamped(OVERFLOWING);
    OverflowingQuotients();
    OverflowingFits();
    var quotients, remainders := Quotients(values, 3, 2), Remainders(values, 3, 2);
    var picked, extra := AnchoredSum(values, 3, 2, result);
    WrapSmall(3 - Sum(quotients));
    FirstGetsOne(values, remainders, picked, extra);
    WrapOnce(quotients[0] + extra[0]);
    OverflowCounts(quotients, extra, 0);
  }

  lemma OverflowingFits()
    ensures QuotientsFit(Clamped(OVERFLOWING), 3, 2)
  {
    assert Clamped(OVERFLOWING) == OVERFLOWING;
  }

  lemma OverflowingQuotients()
    ensures Clamped(OVERFLOWING) == OVERFLOWING && Divisor(OVERFLOWING) == 2
    ensures var quotients := Quotients(Clamped(OVERFLOWING), 3, 2); quotients[0] == MAX_INT64 && Sum(quotients) == 1
    ensures Remainders(Clamped(OVERFLOWING), 3, 2) == [1, 1, 1, 1, 0, 0, 0, 0]
  {
    assert Clamped(OVERFLOWING) == OVERFLOWING;
    SumOfEight(OVERFLOWING);
    SumOfEight(Quotients(Clamped(OVERFLOWING), 3, 2));
  }

  lemma {:induction false} OverflowCounts(quotients: seq<int>, extra: seq<int>, i: nat)
    requires |extra| == |quotients| && i < |quotients| && quotients[i] + extra[i] > MAX_INT64
    ensures Overflows(quotients, extra) > 0
  {
    var n := |quotients| - 1;
    if i < n {
      OverflowCounts(quotients[..n], extra[..n], i);
    }
  }

  lemma FirstGetsOne(values: seq<nat>, remainders: seq<int>, picked: seq<bool>, extra: seq<int>)
    requires Handed(values, remainders, 2, picked, extra) && |values| > 4 && values[0] > 0
    requires forall i :: 0 <= i < |remainders| ==> remainders[i] == if i < 4 then 1 else 0
    ensures extra[0] == 1
  {
    CountsTwo(Positive(remainders));
    assert Count(picked) == 2;
    var j := SomePicked(picked);
    assert picked[0];
  }

  lemma {:induction false} SomePicked(picked: seq<bool>) returns (j: nat)
    requires Count(picked) > 0
    ensures j < |picked| && picked[j]
  {
    var n := |picked| - 1;
    if picked[n] {
      j := n;
    } else {
      j := SomePicked(picked[..n]);
    }
  }

  lemma {:induction false} CountsTwo(picked: seq<bool>)
    requires |picked| >= 2 && picked[0] && picked[1]
    ensures Count(picked) >= 2
  {
    var n := |picked| - 1;
    if n > 1 {
      CountsTwo(picked[..n]);
    } else {
      assert picked[..1][..0] == [];
      assert Count(picked[..1]) == 1;
    }
  }

  lemma SumOfEight(s: seq<int>)
    requires |s| == 8
    ensures Sum(s) == s[0] + s[1] + s[2] + s[3] + s[4] + s[5] + s[6] + s[7]
  {
    SumOfFour(s[..4]);
    assert s[..7][..6] == s[..6] && s[..6][..5] == s[..5] && s[..5][..4] == s[..4];
    assert Sum(s) == Sum(s[..7]) + s[7];
    assert Sum(s[..7]) == Sum(s[..6]) + s[6];
    assert Sum(s[..6]) == Sum(s[..5]) + s[5];
    assert Sum(s[..5]) == Sum(s[..4]) + s[4];
  }

  lemma SumOfFour(s: seq<int>)
    requires |s| == 4
    ensures Sum(s) == s[0] + s[1] + s[2] + s[3]
  {
    assert s[..3][..2] == s[..2] && s[..2][..1] == s[..1];
    assert Sum(s) == Sum(s[..3]) + s[3];
    assert Sum(s[..3]) == Sum(s[..2]) + s[2];
    assert Sum(s[..2]) == Sum(s[..1]) + s[1];
    assert Sum(s[..1]) == s[0];
  }
}
