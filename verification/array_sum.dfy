/**
 * `arraySum` of shared/utils.ts: a sum that counts `null`/`undefined`
 * entries as 0, written with `reduce` and no seed.
 */
module ArraySum {
  import opened Common

  /** `x ?? 0`. */
  function OrZero(x: Option<int>): int {
    x.GetOr(0)
  }

  /** Reference definition: the sum of the entries, absent ones counted as 0. */
  function Total(arr: seq<Option<int>>): int {
    if |arr| == 0 then 0 else Total(arr[..|arr| - 1]) + OrZero(arr[|arr| - 1])
  }

  /** The accumulation `reduce` performs after its first element, left to right. */
  function Fold(acc: Option<int>, rest: seq<Option<int>>): Option<int>
    decreases |rest|
  {
    if |rest| == 0 then acc
    else Fold(Some(OrZero(acc) + OrZero(rest[0])), rest[1..])
  }

  /**
   * `arr.reduce((a, b) => (a ?? 0) + (b ?? 0))`: the first element is the
   * seed, so a one-element array comes back unchanged, null included; an
   * empty array throws.
   */
  function Reduce(arr: seq<Option<int>>): (r: Result<Option<int>>)
    ensures r.Err? <==> |arr| == 0
    ensures |arr| == 1 ==> r == Ok(arr[0])
  {
    if |arr| == 0 then Err(EmptyReduce) else Ok(Fold(arr[0], arr[1..]))
  }

  /** `arraySum(arr)`: the reduction, then `?? 0`. */
  function Sum(arr: seq<Option<int>>): (r: Result<int>)
    ensures |arr| == 0 ==> r == Err(EmptyReduce)
    ensures |arr| > 0 ==> r == Ok(Total(arr))
  {
    match Reduce(arr)
    case Err(e) => Err(e)
    case Ok(v) =>
      FoldIsTotal(arr[0], arr[1..]);
      assert [arr[0]] + arr[1..] == arr;
      Ok(OrZero(v))
  }

  /** Folding from a seed adds the seed (as a number) to the total of the rest. */
  lemma {:induction false} FoldIsTotal(acc: Option<int>, rest: seq<Option<int>>)
    ensures OrZero(Fold(acc, rest)) == OrZero(acc) + Total(rest)
    ensures |rest| > 0 ==> Fold(acc, rest).Some?
    ensures OrZero(acc) + Total(rest) == Total([acc] + rest)
    decreases |rest|
  {
    if |rest| == 0 {
      assert [acc] + rest == [acc];
      assert Total([acc]) == Total([]) + OrZero(acc);
    } else {
      var acc' := Some(OrZero(acc) + OrZero(rest[0]));
      FoldIsTotal(acc', rest[1..]);
      TotalCons(rest);
      TotalCons([acc] + rest);
      assert ([acc] + rest)[1..] == rest;
    }
  }

  /** The total splits off the first entry as well as the last. */
  lemma {:induction false} TotalCons(arr: seq<Option<int>>)
    requires |arr| > 0
    ensures Total(arr) == OrZero(arr[0]) + Total(arr[1..])
    decreases |arr|
  {
    if |arr| > 1 {
      var init := arr[..|arr| - 1];
      TotalCons(init);
      assert init[1..] == arr[1..][..|arr[1..]| - 1];
    } else {
      assert arr[1..] == [];
      assert arr[..0] == [];
    }
  }

  /** `arraySum([x]) == x ?? 0`. */
  lemma SingletonSum(x: Option<int>)
    ensures Sum([x]) == Ok(OrZero(x))
  {
    assert [x][..0] == [];
  }

  /** An array of nulls sums to 0. */
  lemma {:induction false} AllNullSum(arr: seq<Option<int>>)
    requires |arr| > 0
    requires forall i :: 0 <= i < |arr| ==> arr[i] == None
    ensures Sum(arr) == Ok(0)
  {
    AllNullTotal(arr);
  }

  lemma {:induction false} AllNullTotal(arr: seq<Option<int>>)
    requires forall i :: 0 <= i < |arr| ==> arr[i] == None
    ensures Total(arr) == 0
    decreases |arr|
  {
    if |arr| > 0 {
      AllNullTotal(arr[..|arr| - 1]);
    }
  }
}
