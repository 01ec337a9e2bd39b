/** `shuffleArray` of server/routes.js: a descending Fisher-Yates shuffle of a
    copy of the option list that follows one element's position with an O(1)
    update per swap.

    `seededRandom` computes `Math.sin(seed) * 10000` and keeps its fractional
    part; that floating-point arithmetic is not modelled. The swap index
    `Math.floor(seededRandom(seed + i) * (i + 1))` is an oracle
    `pick(seed + i, i + 1)`, and the model assumes what the shuffle needs of it:
    a value in [0, i]. */
module Shuffle {

  /** `pick(x, n)` stands for `Math.floor(seededRandom(x) * n)`. */
  type Picker = (int, int) -> int

  /** The oracle always lands inside the range it is scaled to. */
  ghost predicate PickInRange(pick: Picker)
  {
    forall x: int, n: int :: 0 < n ==> 0 <= pick(x, n) < n
  }

  /** The value `shuffleArray` returns: `{ shuffled, correctIndex }`. */
  datatype ShuffleResult<T> = ShuffleResult(shuffled: seq<T>, correctIndex: int)

  /** `[result[i], result[j]] = [result[j], result[i]]`. */
  function Swap<T>(s: seq<T>, i: nat, j: nat): (r: seq<T>)
    requires i < |s| && j < |s|
    ensures |r| == |s| && r[i] == s[j] && r[j] == s[i]
    ensures forall k :: 0 <= k < |s| && k != i && k != j ==> r[k] == s[k]
  {
    seq(|s|, k requires 0 <= k < |s| => if k == i then s[j] else if k == j then s[i] else s[k])
  }

  /** A swap is a permutation. */
  lemma SwapPermutes<T>(s: seq<T>, i: nat, j: nat)
    requires i < |s| && j < |s|
    ensures multiset(Swap(s, i, j)) == multiset(s)
  {
    assert Swap(s, i, j) == s[i := s[j]][j := s[i]];
  }

  /** The position update after swapping `i` and `j`
      (`if (j === correctIndex) ... else if (i === correctIndex) ...`). The
      order of the two tests does not matter: the update is the transposition
      of positions `i` and `j`, so a tracked element at `i` moves to `j`, one
      at `j` moves to `i`, and any other stays. */
  function Track(tracked: int, i: int, j: int): (r: int)
    ensures tracked == i ==> r == j
    ensures tracked == j ==> r == i
    ensures tracked != i && tracked != j ==> r == tracked
  {
    if j == tracked then i else if i == tracked then j else tracked
  }

  /** The loop from index `i` down to 1, on the working copy `s` with the
      tracked position `tracked`. */
  function ShuffleLoop<T>(s: seq<T>, tracked: int, i: int, seed: int, pick: Picker): (r: ShuffleResult<T>)
    requires PickInRange(pick)
    requires i < |s|
    ensures |r.shuffled| == |s|
    decreases i
  {
    if i <= 0 then ShuffleResult(s, tracked)
    else
      var j := pick(seed + i, i + 1);
      ShuffleLoop(Swap(s, i, j), Track(tracked, i, j), i - 1, seed, pick)
  }

  /** The shuffle with the tracked position starting at `start`.
      `shuffleArray` as written is `start == 0`. */
  function ShuffleFrom<T>(s: seq<T>, start: int, seed: int, pick: Picker): (r: ShuffleResult<T>)
    requires PickInRange(pick)
    ensures |r.shuffled| == |s|
    ensures multiset(r.shuffled) == multiset(s)
    ensures |s| <= 1 ==> r.shuffled == s && r.correctIndex == start
  {
    ShuffleLoopPermutes(s, start, |s| - 1, seed, pick);
    ShuffleLoop(s, start, |s| - 1, seed, pick)
  }

  /** The loop only swaps, so it permutes the working copy. */
  lemma {:induction false} ShuffleLoopPermutes<T>(s: seq<T>, tracked: int, i: int, seed: int, pick: Picker)
    requires PickInRange(pick)
    requires i < |s|
    ensures multiset(ShuffleLoop(s, tracked, i, seed, pick).shuffled) == multiset(s)
    decreases i
  {
    if i > 0 {
      var j := pick(seed + i, i + 1);
      var s', t' := Swap(s, i, j), Track(tracked, i, j);
      assert ShuffleLoop(s, tracked, i, seed, pick).shuffled == ShuffleLoop(s', t', i - 1, seed, pick).shuffled;
      ShuffleLoopPermutes(s', t', i - 1, seed, pick);
      SwapPermutes(s, i, j);
      assert multiset(ShuffleLoop(s, tracked, i, seed, pick).shuffled) == multiset(s') == multiset(s);
    }
  }

  /** A swap moves the element at `t` to `Track(t, i, j)`. */
  lemma SwapTracks<T>(s: seq<T>, t: nat, i: nat, j: nat)
    requires t < |s| && i < |s| && j < |s|
    ensures 0 <= Track(t, i, j) < |s|
    ensures Swap(s, i, j)[Track(t, i, j)] == s[t]
  {
  }

  /** The loop follows the element that starts at `tracked`. */
  lemma {:induction false} ShuffleLoopTracks<T>(s: seq<T>, tracked: int, i: int, seed: int, pick: Picker)
    requires PickInRange(pick)
    requires i < |s| && 0 <= tracked < |s|
    ensures 0 <= ShuffleLoop(s, tracked, i, seed, pick).correctIndex < |s|
    ensures ShuffleLoop(s, tracked, i, seed, pick).shuffled[ShuffleLoop(s, tracked, i, seed, pick).correctIndex] == s[tracked]
    decreases i
  {
    if i > 0 {
      var j := pick(seed + i, i + 1);
      var s', t' := Swap(s, i, j), Track(tracked, i, j);
      SwapTracks(s, tracked, i, j);
      ShuffleLoopTracks(s', t', i - 1, seed, pick);
      assert ShuffleLoop(s, tracked, i, seed, pick) == ShuffleLoop(s', t', i - 1, seed, pick);
    }
  }

  /** Correct-index tracking for any start position: the returned index holds
      the element that started there. */
  lemma ShuffleFromTracks<T>(s: seq<T>, start: int, seed: int, pick: Picker)
    requires PickInRange(pick)
    ensures var r := ShuffleFrom(s, start, seed, pick);
      0 <= start < |s| ==> 0 <= r.correctIndex < |r.shuffled| && r.shuffled[r.correctIndex] == s[start]
  {
    if 0 <= start < |s| {
      ShuffleLoopTracks(s, start, |s| - 1, seed, pick);
    }
  }

  /** `[result[i], result[j]] = [result[j], result[i]]` on the working array. */
  method SwapInPlace<T>(a: array<T>, i: nat, j: nat)
    requires i < a.Length && j < a.Length
    modifies a
    ensures a[..] == Swap(old(a[..]), i, j)
  {
    a[i], a[j] := a[j], a[i];
  }

  /** The `for` loop of `shuffleArray`, on the working copy `result`, with
      the tracked position starting at 0. */
  method ShuffleInPlace<T>(result: array<T>, seed: int, pick: Picker) returns (correctIndex: int)
    requires PickInRange(pick)
    modifies result
    ensures result[..] == ShuffleFrom(old(result[..]), 0, seed, pick).shuffled
    ensures correctIndex == ShuffleFrom(old(result[..]), 0, seed, pick).correctIndex
  {
    ghost var spec := ShuffleFrom(result[..], 0, seed, pick);
    correctIndex := 0;
    var i := result.Length - 1;
    while i > 0
      invariant i < result.Length
      invariant ShuffleLoop(result[..], correctIndex, i, seed, pick) == spec
    {
      var j := pick(seed + i, i + 1);
      ghost var before := result[..];
      assert ShuffleLoop(before, correctIndex, i, seed, pick)
        == ShuffleLoop(Swap(before, i, j), Track(correctIndex, i, j), i - 1, seed, pick);
      SwapInPlace(result, i, j);
      correctIndex := Track(correctIndex, i, j);
      i := i - 1;
    }
  }

  /** `shuffleArray(array, seed)`, with `arr` for the argument `array`:
      `array.slice()`, then the loop on the copy. The argument is only read. */
  method ShuffleArray<T>(arr: array<T>, seed: int, pick: Picker) returns (result: array<T>, correctIndex: int)
    requires PickInRange(pick)
    ensures fresh(result)
    ensures result[..] == ShuffleFrom(arr[..], 0, seed, pick).shuffled
    ensures correctIndex == ShuffleFrom(arr[..], 0, seed, pick).correctIndex
    ensures multiset(result[..]) == multiset(arr[..])
    ensures arr.Length > 0 ==> 0 <= correctIndex < result.Length && result[correctIndex] == arr[0]
    ensures arr.Length <= 1 ==> result[..] == arr[..] && correctIndex == 0
  {
    result := new T[arr.Length](k requires 0 <= k < arr.Length reads arr => arr[k]);
    assert result[..] == arr[..];
    correctIndex := ShuffleInPlace(result, seed, pick);
    ShuffleFromTracks(arr[..], 0, seed, pick);
  }
}
