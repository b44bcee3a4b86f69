/**
 * The random choices the server makes through lodash (`shuffle`,
 * `sampleSize`), as explicit key streams. A key stream is consumed one key
 * per drawn element: the next element is the one at `key % |remaining|`
 * among those not drawn yet, as in a Fisher-Yates shuffle. Every
 * permutation and every sample is reachable by some stream, so a property
 * proved for all streams holds for every outcome of the random draw.
 */
module Random {
  import opened Common

  function Head(keys: seq<nat>): nat {
    if |keys| == 0 then 0 else keys[0]
  }

  function Tail(keys: seq<nat>): seq<nat> {
    if |keys| == 0 then [] else keys[1..]
  }

  /** `s` without its element at `i`. */
  function Without(s: seq<nat>, i: nat): (r: seq<nat>)
    requires i < |s|
    ensures |r| == |s| - 1
    ensures forall x :: x in s <==> x == s[i] || x in r
    ensures Distinct(s) ==> Distinct(r) && s[i] !in r
  {
    assert s == s[..i] + [s[i]] + s[i+1..];
    var r := s[..i] + s[i+1..];
    assert forall k :: 0 <= k < |r| ==> r[k] == if k < i then s[k] else s[k + 1];
    r
  }

  /** Draws every element of `rest` in the order the keys select. */
  function Scramble(rest: seq<nat>, keys: seq<nat>): (r: seq<nat>)
    ensures |r| == |rest|
    ensures forall x :: x in r <==> x in rest
    ensures Distinct(rest) ==> Distinct(r)
    decreases |rest|
  {
    if |rest| == 0 then []
    else
      var i := Head(keys) % |rest|;
      [rest[i]] + Scramble(Without(rest, i), Tail(keys))
  }

  /** The indices 0 .. n-1 in order. */
  function Range(n: nat): (r: seq<nat>)
    ensures |r| == n
    ensures forall i :: 0 <= i < n ==> r[i] == i
    ensures forall x :: x in r ==> x < n
    ensures Distinct(r)
  {
    seq(n, i => i)
  }

  /** `p` lists each index below `n` exactly once. */
  predicate IsPermutation(p: seq<nat>, n: nat) {
    && |p| == n
    && Distinct(p)
    && (forall i :: 0 <= i < n ==> p[i] < n)
    && (forall v :: 0 <= v < n ==> v in p)
  }

  /** The order in which a shuffle of `n` elements lists them. */
  function Permutation(n: nat, keys: seq<nat>): (p: seq<nat>)
    ensures IsPermutation(p, n)
  {
    var p := Scramble(Range(n), keys);
    assert forall v :: 0 <= v < n ==> v in Range(n) by {
      forall v | 0 <= v < n ensures v in Range(n) {
        assert Range(n)[v] == v;
      }
    }
    assert forall i :: 0 <= i < n ==> p[i] < n by {
      forall i | 0 <= i < n ensures p[i] < n {
        assert p[i] in p;
      }
    }
    p
  }

  /** The elements of `s` at the given indices. */
  function Pick<T>(s: seq<T>, idx: seq<nat>): (r: seq<T>)
    requires forall i :: 0 <= i < |idx| ==> idx[i] < |s|
    ensures |r| == |idx|
    ensures forall i :: 0 <= i < |idx| ==> r[i] == s[idx[i]]
  {
    seq(|idx|, i requires 0 <= i < |idx| => s[idx[i]])
  }

  lemma PickCovers<T>(s: seq<T>, p: seq<nat>, r: seq<T>)
    requires IsPermutation(p, |s|)
    requires |r| == |p| && forall i :: 0 <= i < |p| ==> r[i] == s[p[i]]
    ensures forall j :: 0 <= j < |s| ==> s[j] in r
  {
    forall j | 0 <= j < |s| ensures s[j] in r {
      assert j in p;
      var i :| 0 <= i < |p| && p[i] == j;
      assert r[i] == s[j];
    }
  }

  /** The positions listed in `idx`. */
  function Positions(idx: seq<nat>): set<nat> {
    set i | 0 <= i < |idx| :: idx[i]
  }

  /** The elements of `s` at the positions in `at`, in their order in `s`. */
  function Keep<T>(s: seq<T>, at: set<nat>): seq<T>
    decreases |s|
  {
    if |s| == 0 then []
    else Keep(s[..|s| - 1], at) + (if |s| - 1 in at then [s[|s| - 1]] else [])
  }

  /** Only the positions below `|s|` matter to `Keep`. */
  lemma {:induction false} KeepBelow<T>(s: seq<T>, a: set<nat>, b: set<nat>)
    requires forall i :: 0 <= i < |s| ==> (i in a <==> i in b)
    ensures Keep(s, a) == Keep(s, b)
    decreases |s|
  {
    if |s| > 0 {
      KeepBelow(s[..|s| - 1], a, b);
    }
  }

  /** Keeping one position fewer removes exactly that element. */
  lemma {:induction false} KeepRemove<T>(s: seq<T>, at: set<nat>, j: nat)
    requires j in at && j < |s|
    ensures multiset(Keep(s, at)) == multiset(Keep(s, at - {j})) + multiset{s[j]}
    decreases |s|
  {
    var n := |s| - 1;
    var init := s[..n];
    var last: seq<T> := if n in at then [s[n]] else [];
    assert Keep(s, at) == Keep(init, at) + last;
    if j == n {
      assert Keep(s, at - {j}) == Keep(init, at - {j});
      KeepBelow(init, at, at - {j});
    } else {
      assert Keep(s, at - {j}) == Keep(init, at - {j}) + last;
      assert init[j] == s[j];
      KeepRemove(init, at, j);
    }
  }

  /** Kept elements come from `s`, each at most as often as in `s`. */
  lemma {:induction false} KeepSub<T>(s: seq<T>, at: set<nat>)
    ensures multiset(Keep(s, at)) <= multiset(s)
    decreases |s|
  {
    if |s| > 0 {
      var n := |s| - 1;
      KeepSub(s[..n], at);
      assert s == s[..n] + [s[n]];
    }
  }

  /** Keeping every position keeps the whole sequence. */
  lemma {:induction false} KeepAll<T>(s: seq<T>, at: set<nat>)
    requires forall i :: 0 <= i < |s| ==> i in at
    ensures Keep(s, at) == s
    decreases |s|
  {
    if |s| > 0 {
      var n := |s| - 1;
      KeepAll(s[..n], at);
      assert s == s[..n] + [s[n]];
    }
  }

  /** Picking distinct positions takes the elements at those positions, each once. */
  lemma {:induction false} PickKeeps<T>(s: seq<T>, idx: seq<nat>)
    requires forall i :: 0 <= i < |idx| ==> idx[i] < |s|
    requires Distinct(idx)
    ensures multiset(Pick(s, idx)) == multiset(Keep(s, Positions(idx)))
    decreases |idx|
  {
    if |idx| == 0 {
      KeepBelow(s, {}, Positions(idx));
      assert Keep(s, {}) == [] by { KeepNone(s); }
    } else {
      var k := |idx| - 1;
      var init := idx[..k];
      PickKeeps(s, init);
      assert Pick(s, idx) == Pick(s, init) + [s[idx[k]]];
      assert Positions(idx) - {idx[k]} == Positions(init) by {
        assert forall i :: 0 <= i < k ==> init[i] == idx[i] && idx[i] != idx[k];
      }
      KeepRemove(s, Positions(idx), idx[k]);
    }
  }

  lemma {:induction false} KeepNone<T>(s: seq<T>)
    ensures Keep(s, {}) == []
    decreases |s|
  {
    if |s| > 0 {
      KeepNone(s[..|s| - 1]);
    }
  }

  /** Picking along a permutation rearranges the whole sequence. */
  lemma PickPermutation<T>(s: seq<T>, p: seq<nat>)
    requires IsPermutation(p, |s|)
    ensures multiset(Pick(s, p)) == multiset(s)
  {
    PickKeeps(s, p);
    forall v | 0 <= v < |s| ensures v in Positions(p) {
      assert v in p;
      var i :| 0 <= i < |p| && p[i] == v;
    }
    KeepAll(s, Positions(p));
  }

  /** Picking distinct positions takes no element more often than `s` holds it. */
  lemma PickSub<T>(s: seq<T>, idx: seq<nat>)
    requires forall i :: 0 <= i < |idx| ==> idx[i] < |s|
    requires Distinct(idx)
    ensures multiset(Pick(s, idx)) <= multiset(s)
  {
    PickKeeps(s, idx);
    KeepSub(s, Positions(idx));
  }

  /** `lodash.shuffle(s)`. */
  function Shuffle<T>(s: seq<T>, keys: seq<nat>): (r: seq<T>)
    ensures |r| == |s|
    ensures multiset(r) == multiset(s)
    ensures forall i :: 0 <= i < |r| ==> r[i] in s
    ensures forall j :: 0 <= j < |s| ==> s[j] in r
  {
    var p := Permutation(|s|, keys);
    var r := Pick(s, p);
    PickCovers(s, p, r);
    PickPermutation(s, p);
    r
  }

  /** The positions `lodash.sampleSize` draws from `len` elements when asked for `n`. */
  function SampleIndices(len: nat, n: int, keys: seq<nat>): (idx: seq<nat>)
    ensures |idx| == Clamp(n, 0, len)
    ensures forall i :: 0 <= i < |idx| ==> idx[i] < len
    ensures Distinct(idx)
  {
    var p := Permutation(len, keys);
    var idx := p[..Clamp(n, 0, len)];
    assert forall i :: 0 <= i < |idx| ==> idx[i] == p[i];
    idx
  }

  /** `lodash.sampleSize(s, n)`: `n` clamped to [0, |s|] elements at distinct positions. */
  function SampleSize<T>(s: seq<T>, n: int, keys: seq<nat>): (r: seq<T>)
    ensures |r| == Clamp(n, 0, |s|)
    ensures multiset(r) <= multiset(s)
    ensures forall i :: 0 <= i < |r| ==> r[i] in s
  {
    var idx := SampleIndices(|s|, n, keys);
    PickSub(s, idx);
    Pick(s, idx)
  }

  /** Picking distinct positions of a duplicate-free sequence gives a duplicate-free sequence. */
  lemma PickDistinct<T>(s: seq<T>, idx: seq<nat>)
    requires forall i :: 0 <= i < |idx| ==> idx[i] < |s|
    requires Distinct(s) && Distinct(idx)
    ensures Distinct(Pick(s, idx))
  {
    var r := Pick(s, idx);
    forall i, j | 0 <= i < j < |r| ensures r[i] != r[j] {
      assert r[i] == s[idx[i]] && r[j] == s[idx[j]];
    }
  }
}
