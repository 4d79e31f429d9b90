/** `binarySearch` and `longestIncreasingSubSequence`: the longest strictly
    increasing subsequence found by patience sorting (the `lasts` array of
    smallest tails, with predecessor links), run on the reversed, negated
    list. */
module DynamicTasks {

  /** Kotlin's `Int.MIN_VALUE` and `Int.MAX_VALUE`, the sentinels of `lasts`. */
  const IntMin := -0x8000_0000
  const IntMax := 0x7fff_ffff

  /** Non-decreasing. */
  ghost predicate Sorted(s: seq<int>)
  {
    forall a, b | 0 <= a < b < |s| :: s[a] <= s[b]
  }

  /** `binarySearch`: on any list the result lies in `[0, size]`; on a sorted
      list it is an index holding `element` when there is one, and otherwise
      the insertion point, with everything before it smaller and everything
      from it on larger. */
  method BinarySearch(element: int, list: seq<int>) returns (r: nat)
    ensures r <= |list|
    ensures Sorted(list) && element in list ==> r < |list| && list[r] == element
    ensures Sorted(list) && element !in list ==>
              && (forall j | 0 <= j < r :: list[j] < element)
              && (forall j | r <= j < |list| :: list[j] > element)
  {
    var start := 0;
    var end := |list| - 1;
    while start <= end
      invariant 0 <= start <= end + 1 <= |list|
      invariant Sorted(list) ==> forall j | 0 <= j < start :: list[j] < element
      invariant Sorted(list) ==> forall j | end < j < |list| :: list[j] > element
      decreases end - start
    {
      var index := (start + end) / 2;
      if element > list[index] {
        start := index + 1;
      } else if element < list[index] {
        end := index - 1;
      } else {
        return index;
      }
    }
    return start;
  }

  /** `list.reversed().map { -it }`. */
  function ReversedNegated(list: seq<int>): (data: seq<int>)
    ensures |data| == |list|
    ensures forall j | 0 <= j < |list| :: data[j] == -list[|list| - 1 - j]
  {
    seq(|list|, j requires 0 <= j < |list| => -list[|list| - 1 - j])
  }

  /** Strictly increasing. */
  ghost predicate Increasing(xs: seq<int>)
  {
    forall a, b | 0 <= a < b < |xs| :: xs[a] < xs[b]
  }

  /** `xs` is read off `list` at the increasing positions `idx`. */
  ghost predicate Picks(xs: seq<int>, list: seq<int>, idx: seq<int>)
  {
    && |idx| == |xs|
    && (forall a, b | 0 <= a < b < |idx| :: idx[a] < idx[b])
    && (forall k | 0 <= k < |idx| :: 0 <= idx[k] < |list| && xs[k] == list[idx[k]])
  }

  /** `xs` is a subsequence of `list`: its elements occur there in order. */
  ghost predicate IsSubsequence(xs: seq<int>, list: seq<int>)
  {
    exists idx :: Picks(xs, list, idx)
  }

  /** `idx` picks increasing positions below `bound` of `data` whose values
      increase strictly: an increasing subsequence of `data[..bound]`. */
  ghost predicate Chain(data: seq<int>, idx: seq<int>, bound: nat)
  {
    && (forall k | 0 <= k < |idx| :: 0 <= idx[k] < bound && idx[k] < |data|)
    && (forall a, b | 0 <= a < b < |idx| :: idx[a] < idx[b] && data[idx[a]] < data[idx[b]])
  }

  /** The patience-sorting invariant: no increasing subsequence of the first
      `bound` values is longer than `length`, and one of length `m` ends
      with a value at least `lasts[m]`. */
  ghost predicate Tails(data: seq<int>, lasts: seq<int>, bound: nat, length: nat)
  {
    forall idx | Chain(data, idx, bound) && idx != [] ::
      |idx| <= length < |lasts| && lasts[|idx|] <= data[idx[|idx| - 1]]
  }

  /** `lasts` after `length` placements: the minimum sentinel, strictly
      increasing tails below the maximum sentinel, then maximum sentinels. */
  ghost predicate Shape(lasts: seq<int>, length: nat)
  {
    && length < |lasts|
    && lasts[0] == IntMin
    && (forall a, b | 0 <= a < b <= length :: lasts[a] < lasts[b])
    && (forall k | 0 <= k <= length :: lasts[k] < IntMax)
    && (forall k | length < k < |lasts| :: lasts[k] == IntMax)
  }

  lemma ShapeSorted(lasts: seq<int>, length: nat)
    requires Shape(lasts, length)
    ensures Sorted(lasts)
  {
    forall a, b | 0 <= a < b < |lasts| ensures lasts[a] <= lasts[b] {
      if b <= length {
      } else if a <= length {
        assert lasts[a] < IntMax;
      }
    }
  }

  /** One step of the main loop: `x = data[i]` goes to position `index`,
      where everything before is smaller and everything from it on is at
      least `x`. The tails stay a lower bound, now for the first `i + 1`
      values. */
  lemma {:induction false} StepKeepsTails(data: seq<int>, lasts: seq<int>, i: nat, length: nat, index: nat)
    requires i < |data| && index < |lasts| && length < |lasts|
    requires Tails(data, lasts, i, length)
    requires 1 <= index <= length + 1
    requires forall j | 0 <= j < index :: lasts[j] < data[i]
    requires forall j | index <= j < |lasts| :: lasts[j] >= data[i]
    requires forall a, b | 0 <= a < b < index :: lasts[a] <= lasts[b]
    ensures Tails(data, lasts[index := data[i]], i + 1, if index > length then index else length)
  {
    var x := data[i];
    var lasts' := lasts[index := x];
    var length' := if index > length then index else length;
    forall idx | Chain(data, idx, i + 1) && idx != []
      ensures |idx| <= length' < |lasts'| && lasts'[|idx|] <= data[idx[|idx| - 1]]
    {
      var m := |idx|;
      if idx[m - 1] < i {
        assert Chain(data, idx, i) by {
          forall k | 0 <= k < m ensures idx[k] < i {
            if k < m - 1 {
              assert idx[k] < idx[m - 1];
            }
          }
        }
      } else if m == 1 {
        assert lasts'[1] <= x by {
          if index > 1 {
            assert lasts[0] <= lasts[1];
          }
        }
      } else {
        var front := idx[..m - 1];
        assert Chain(data, front, i) by {
          forall k | 0 <= k < m - 1 ensures front[k] < i {
            assert idx[k] < idx[m - 1];
          }
        }
        assert data[front[m - 2]] < x;
        assert m - 1 < index;
        if m < index {
          assert lasts[m] <= lasts[index - 1];
        }
      }
    }
  }

  /** Increasing positions below `bound` number at most `bound`. */
  lemma {:induction false} IndicesBound(idx: seq<int>, bound: nat)
    requires forall k | 0 <= k < |idx| :: 0 <= idx[k] < bound
    requires forall a, b | 0 <= a < b < |idx| :: idx[a] < idx[b]
    ensures |idx| <= bound
    decreases |idx|
  {
    if idx != [] {
      var m := |idx|;
      var front := idx[..m - 1];
      forall k | 0 <= k < m - 1 ensures 0 <= front[k] < idx[m - 1] {
        assert idx[k] < idx[m - 1];
      }
      IndicesBound(front, idx[m - 1]);
    }
  }

  /** No increasing subsequence is longer than the list. */
  lemma SubsequenceBound(xs: seq<int>, list: seq<int>)
    requires IsSubsequence(xs, list)
    ensures |xs| <= |list|
  {
    var idx :| Picks(xs, list, idx);
    IndicesBound(idx, |list|);
  }

  /** Before the first value is placed nothing is known, and nothing needs
      to be. */
  lemma TailsStart(data: seq<int>, lasts: seq<int>)
    requires |lasts| > 0
    ensures Tails(data, lasts, 0, 0)
  {
    forall idx | Chain(data, idx, 0) ensures |idx| == 0 {
      IndicesBound(idx, 0);
    }
  }

  /** The positions `n - 1 - idx[m - 1 - k]` of an increasing subsequence
      of `list` pick an increasing subsequence of the reversed, negated
      list. */
  lemma ReversedChain(list: seq<int>, xs: seq<int>, idx: seq<int>) returns (didx: seq<int>)
    requires Picks(xs, list, idx) && Increasing(xs)
    ensures |didx| == |idx| && Chain(ReversedNegated(list), didx, |list|)
  {
    var n := |list|;
    var m := |idx|;
    var data := ReversedNegated(list);
    didx := seq(m, k requires 0 <= k < m => n - 1 - idx[m - 1 - k]);
    forall a, b | 0 <= a < b < m ensures didx[a] < didx[b] && data[didx[a]] < data[didx[b]] {
      assert idx[m - 1 - b] < idx[m - 1 - a] && xs[m - 1 - b] < xs[m - 1 - a];
    }
  }

  /** Once every value is placed, no increasing subsequence of `list` is
      longer than `length`. */
  lemma TailsBoundAll(list: seq<int>, lasts: seq<int>, length: nat)
    requires Tails(ReversedNegated(list), lasts, |list|, length)
    ensures forall xs | Increasing(xs) && IsSubsequence(xs, list) :: |xs| <= length
  {
    forall xs | Increasing(xs) && IsSubsequence(xs, list) ensures |xs| <= length {
      var idx :| Picks(xs, list, idx);
      var didx := ReversedChain(list, xs, idx);
    }
  }

  /** The predecessor links after `i` values: `positions[k]` is the value
      last placed at position `k` of `lasts`, which ends a chain of `k`
      values; each placed value `j` has level `level[j]` and links to the
      value before it in its chain (or to -1 at level 1). */
  ghost predicate Links(data: seq<int>, lasts: seq<int>, positions: seq<int>, previous: seq<int>,
                        level: seq<int>, i: nat, length: nat)
  {
    && |positions| == |lasts| == |data| + 1 && |previous| == |level| == |data|
    && length <= i <= |data|
    && positions[0] == -1
    && (forall j | i <= j < |level| :: level[j] == 0)
    && (forall k | 1 <= k <= length ::
          0 <= positions[k] < i && level[positions[k]] == k && data[positions[k]] == lasts[k])
    && (forall j {:trigger previous[j]} | 0 <= j < i && level[j] == 1 :: previous[j] == -1)
    && (forall j {:trigger previous[j]} | 0 <= j < i && level[j] > 1 ::
          0 <= previous[j] < j && level[previous[j]] == level[j] - 1 && data[previous[j]] < data[j])
  }

  /** Everything the main loop keeps after placing `i` values. */
  ghost predicate Placed(data: seq<int>, lasts: seq<int>, positions: seq<int>, previous: seq<int>,
                         level: seq<int>, i: nat, length: nat)
  {
    && Shape(lasts, length)
    && Tails(data, lasts, i, length)
    && Links(data, lasts, positions, previous, level, i, length)
  }

  /** Where `binarySearch` puts `x` in a well-shaped `lasts`: a position in
      `[1, length + 1]` with everything before smaller and everything from
      it on at least `x`; when the guard of the main loop fails, `x` is
      already there. */
  lemma PlaceIndex(lasts: seq<int>, length: nat, x: int, index: nat)
    requires Shape(lasts, length) && length + 1 < |lasts| && IntMin < x < IntMax
    requires index <= |lasts|
    requires x in lasts ==> index < |lasts| && lasts[index] == x
    requires x !in lasts ==>
               && (forall j | 0 <= j < index :: lasts[j] < x)
               && (forall j | index <= j < |lasts| :: lasts[j] > x)
    ensures 1 <= index <= length + 1 < |lasts|
    ensures forall j | 0 <= j < index :: lasts[j] < x
    ensures forall j | index <= j < |lasts| :: lasts[j] >= x
    ensures !(lasts[index - 1] < x < lasts[index]) ==> index <= length && lasts[index] == x
  {
    ShapeSorted(lasts, length);
    if x in lasts {
      assert lasts[index] != IntMin && lasts[index] != IntMax;
    } else {
      assert lasts[0] < x && x < lasts[length + 1];
    }
  }

  /** Writing `x` between a smaller and a larger tail keeps the shape. */
  lemma ShapeStep(lasts: seq<int>, length: nat, index: nat, x: int)
    requires Shape(lasts, length) && 1 <= index <= length + 1 && index < |lasts|
    requires lasts[index - 1] < x < lasts[index]
    ensures Shape(lasts[index := x], if length > index then length else index)
  {
    var lasts' := lasts[index := x];
    var length' := if length > index then length else index;
    forall a, b | 0 <= a < b <= length' ensures lasts'[a] < lasts'[b] {
      if b == index {
        assert lasts[a] <= lasts[index - 1];
      } else if a == index {
        assert lasts[index] <= lasts[b];
      }
    }
  }

  /** Placing value `i` at position `index` links it to the value last
      placed at `index - 1`. */
  lemma LinksStep(data: seq<int>, lasts: seq<int>, positions: seq<int>, previous: seq<int>,
                  level: seq<int>, i: nat, length: nat, index: nat)
    requires Links(data, lasts, positions, previous, level, i, length)
    requires i < |data| && 1 <= index <= length + 1 && index < |lasts|
    requires lasts[index - 1] < data[i]
    ensures Links(data, lasts[index := data[i]], positions[index := i], previous[i := positions[index - 1]],
                  level[i := index], i + 1, if length > index then length else index)
  {
    var positions' := positions[index := i];
    var level' := level[i := index];
    var previous' := previous[i := positions[index - 1]];
    forall j {:trigger previous'[j]} | 0 <= j < i + 1 && level'[j] > 1
      ensures 0 <= previous'[j] < j && level'[previous'[j]] == level'[j] - 1 && data[previous'[j]] < data[j]
    {
      if j < i {
        assert previous'[j] == previous[j];
      }
    }
  }

  /** A value that is not placed leaves the links as they were. */
  lemma LinksSkip(data: seq<int>, lasts: seq<int>, positions: seq<int>, previous: seq<int>,
                  level: seq<int>, i: nat, length: nat)
    requires Links(data, lasts, positions, previous, level, i, length) && i < |data|
    ensures Links(data, lasts, positions, previous, level, i + 1, length)
  {
    assert level[i] == 0;
  }

  /** `answer` holds the values of `data` at the positions `taken`, both
      strictly decreasing: a chain read backwards. */
  ghost predicate Descending(data: seq<int>, answer: seq<int>, taken: seq<int>)
  {
    && |taken| == |answer|
    && (forall k | 0 <= k < |taken| :: 0 <= taken[k] < |data| && answer[k] == data[taken[k]])
    && (forall a, b | 0 <= a < b < |taken| :: taken[a] > taken[b] && answer[a] > answer[b])
  }

  /** Negating a chain read backwards in the reversed, negated list gives a
      strictly increasing subsequence of the list. */
  lemma DescendingBack(list: seq<int>, answer: seq<int>, taken: seq<int>)
    requires Descending(ReversedNegated(list), answer, taken)
    ensures var r := seq(|answer|, k requires 0 <= k < |answer| => -answer[k]);
      Increasing(r) && IsSubsequence(r, list) && |r| == |answer|
  {
    var n := |list|;
    var r := seq(|answer|, k requires 0 <= k < |answer| => -answer[k]);
    var lidx := seq(|taken|, k requires 0 <= k < |taken| => n - 1 - taken[k]);
    assert Picks(r, list, lidx);
  }

  /** What `binarySearch` returns on `lasts` in the main loop is a position
      in `[1, length + 1]`, so the guard can read both of its neighbours. */
  lemma PlaceStep(data: seq<int>, lasts: seq<int>, positions: seq<int>, previous: seq<int>,
                  level: seq<int>, i: nat, length: nat, index: nat)
    requires i < |data| && IntMin < data[i] < IntMax
    requires Placed(data, lasts, positions, previous, level, i, length)
    requires index <= |lasts|
    requires Sorted(lasts) && data[i] in lasts ==> index < |lasts| && lasts[index] == data[i]
    requires Sorted(lasts) && data[i] !in lasts ==>
               && (forall j | 0 <= j < index :: lasts[j] < data[i])
               && (forall j | index <= j < |lasts| :: lasts[j] > data[i])
    ensures 1 <= index < |lasts| && index - 1 < |positions| && i < |previous|
  {
    ShapeSorted(lasts, length);
    PlaceIndex(lasts, length, data[i], index);
  }

  /** The state after one turn of the main loop, as the guard decides. */
  lemma PlaceNext(data: seq<int>, lasts: seq<int>, positions: seq<int>, previous: seq<int>,
                  level: seq<int>, i: nat, length: nat, index: nat,
                  lasts': seq<int>, positions': seq<int>, previous': seq<int>, level': seq<int>, length': nat)
    requires i < |data| && IntMin < data[i] < IntMax
    requires Placed(data, lasts, positions, previous, level, i, length)
    requires index <= |lasts|
    requires Sorted(lasts) && data[i] in lasts ==> index < |lasts| && lasts[index] == data[i]
    requires Sorted(lasts) && data[i] !in lasts ==>
               && (forall j | 0 <= j < index :: lasts[j] < data[i])
               && (forall j | index <= j < |lasts| :: lasts[j] > data[i])
    requires 1 <= index < |lasts| && index - 1 < |positions| && i < |previous|
    requires lasts[index - 1] < data[i] < lasts[index] ==>
               && lasts' == lasts[index := data[i]] && positions' == positions[index := i]
               && previous' == previous[i := positions[index - 1]] && level' == level[i := index]
               && length' == (if length > index then length else index)
    requires !(lasts[index - 1] < data[i] < lasts[index]) ==>
               lasts' == lasts && positions' == positions && previous' == previous && level' == level && length' == length
    ensures Placed(data, lasts', positions', previous', level', i + 1, length')
  {
    ShapeSorted(lasts, length);
    PlaceIndex(lasts, length, data[i], index);
    StepKeepsTails(data, lasts, i, length, index);
    if lasts[index - 1] < data[i] < lasts[index] {
      ShapeStep(lasts, length, index, data[i]);
      LinksStep(data, lasts, positions, previous, level, i, length, index);
    } else {
      LinksSkip(data, lasts, positions, previous, level, i, length);
      assert lasts == lasts[index := data[i]];
    }
  }

  /** Nothing is placed yet: `lasts` holds only sentinels and no value has
      a predecessor. */
  lemma PlacedStart(data: seq<int>, lasts: seq<int>, positions: seq<int>, previous: seq<int>, level: seq<int>)
    requires |lasts| == |positions| == |data| + 1 && |previous| == |level| == |data|
    requires lasts[0] == IntMin && forall k | 1 <= k < |lasts| :: lasts[k] == IntMax
    requires positions[0] == -1 && forall j | 0 <= j < |level| :: level[j] == 0
    ensures Placed(data, lasts, positions, previous, level, 0, 0)
  {
    TailsStart(data, lasts);
  }

  /** One round of the first loop of `longestIncreasingSubSequence`: the
      value `data[i]` is placed into `lasts` by binary search, and when it
      lands strictly between two neighbours it becomes the new tail of its
      length and is linked to the tail one shorter. */
  method PlaceOne(data: seq<int>, lasts: seq<int>, positions: seq<int>, previous: seq<int>, length: nat,
                  ghost level: seq<int>, i: nat)
    returns (lasts': seq<int>, positions': seq<int>, previous': seq<int>, length': nat, ghost level': seq<int>)
    requires i < |data| && IntMin < data[i] < IntMax
    requires Placed(data, lasts, positions, previous, level, i, length)
    ensures Placed(data, lasts', positions', previous', level', i + 1, length')
  {
    lasts', positions', previous', length', level' := lasts, positions, previous, length, level;
    var index := BinarySearch(data[i], lasts);
    PlaceStep(data, lasts, positions, previous, level, i, length, index);
    if lasts[index - 1] < data[i] && data[i] < lasts[index] {
      lasts' := lasts[index := data[i]];
      positions' := positions[index := i];
      previous' := previous[i := positions[index - 1]];
      level' := level[i := index];
      length' := if length > index then length else index;
    }
    PlaceNext(data, lasts, positions, previous, level, i, length, index,
              lasts', positions', previous', level', length');
  }

  /** The first loop of `longestIncreasingSubSequence`: every value of `data`
      is placed into `lasts` by binary search and linked to its predecessor.
      Afterwards `lasts[k]` is the smallest last value of an increasing chain
      of length k, and `positions`/`previous` record such chains. */
  method PlaceAll(data: seq<int>)
    returns (lasts: seq<int>, positions: seq<int>, previous: seq<int>, length: nat, ghost level: seq<int>)
    requires forall j | 0 <= j < |data| :: IntMin < data[j] < IntMax
    ensures Tails(data, lasts, |data|, length)
    ensures Links(data, lasts, positions, previous, level, |data|, length)
  {
    var n := |data|;
    lasts := seq(n + 1, _ => IntMax);
    positions := seq(n + 1, _ => 0);
    previous := seq(n, _ => 0);
    length := 0;
    positions := positions[0 := -1];
    lasts := lasts[0 := IntMin];
    // The level of each placed value: the length of the chain ending there.
    level := seq(n, _ => 0);
    PlacedStart(data, lasts, positions, previous, level);

    for i := 0 to n
      invariant Placed(data, lasts, positions, previous, level, i, length)
    {
      lasts, positions, previous, length, level := PlaceOne(data, lasts, positions, previous, length, level, i);
    }
  }

  /** The second loop of `longestIncreasingSubSequence`: following `previous`
      back from `positions[length]` collects a strictly decreasing chain of
      `length` values of `data`, last position first. */
  method FollowLinks(data: seq<int>, ghost lasts: seq<int>, positions: seq<int>, previous: seq<int>,
                     length: nat, ghost level: seq<int>)
    returns (answer: seq<int>, ghost taken: seq<int>)
    requires Links(data, lasts, positions, previous, level, |data|, length)
    ensures Descending(data, answer, taken) && |answer| == length
  {
    var n := |data|;
    // Follow the predecessor links back from the end of the longest chain.
    answer := [];
    var p := positions[length];
    // The positions in `data` of the values taken, and the chain still to go.
    taken := [];
    ghost var rest := length;
    while p != -1
      invariant 0 <= rest <= length && |answer| + rest == length && |taken| == |answer|
      invariant p == -1 <==> rest == 0
      invariant p != -1 ==> 0 <= p < n && level[p] == rest
      invariant Descending(data, answer, taken)
      invariant p != -1 ==> forall k | 0 <= k < |taken| :: taken[k] > p && answer[k] > data[p]
      decreases rest
    {
      answer := answer + [data[p]];
      taken := taken + [p];
      p := previous[p];
      rest := rest - 1;
    }
  }

  /** `longestIncreasingSubSequence`: the result is strictly increasing, is
      a subsequence of `list`, and no strictly increasing subsequence of
      `list` is longer. Lists of length 0 and 1 come back unchanged. The
      values must lie strictly inside the sentinels once negated. */
  method LongestIncreasingSubSequence(list: seq<int>) returns (r: seq<int>)
    requires forall x | x in list :: -IntMax < x <= IntMax
    ensures Increasing(r) && IsSubsequence(r, list)
    ensures forall xs | Increasing(xs) && IsSubsequence(xs, list) :: |xs| <= |r|
    ensures |list| <= 1 ==> r == list
  {
    var n := |list|;
    if n == 0 {
      forall xs | Increasing(xs) && IsSubsequence(xs, list) ensures |xs| <= 0 {
        SubsequenceBound(xs, list);
      }
      assert Picks([], list, []);
      return [];
    }
    if n == 1 {
      assert Picks(list, list, [0]);
      forall xs | Increasing(xs) && IsSubsequence(xs, list) ensures |xs| <= 1 {
        SubsequenceBound(xs, list);
      }
      return list;
    }
    var data := ReversedNegated(list);
    assert forall j | 0 <= j < n :: IntMin < data[j] < IntMax by {
      forall j | 0 <= j < n ensures IntMin < data[j] < IntMax {
        assert list[n - 1 - j] in list;
      }
    }
    var lasts, positions, previous, length;
    ghost var level, taken;
    lasts, positions, previous, length, level := PlaceAll(data);
    var answer;
    answer, taken := FollowLinks(data, lasts, positions, previous, length, level);
    r := seq(|answer|, k requires 0 <= k < |answer| => -answer[k]);
    DescendingBack(list, answer, taken);
    TailsBoundAll(list, lasts, length);
  }
}
