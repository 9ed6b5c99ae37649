/** The handful of NumPy array operations the logic trace is built from,
    modelled on sequences. A NumPy integer array is a `seq<int>`, a Boolean
    array a `seq<bool>`; every operation returns a new sequence. */
module Numpy {

  /** `np.arange(start, stop, 1)` on integers: the consecutive integers
      from `start` up to but excluding `stop` (empty when `stop <= start`). */
  function Arange(start: int, stop: int): (r: seq<int>)
    ensures |r| == if stop <= start then 0 else stop - start
    ensures forall i :: 0 <= i < |r| ==> r[i] == start + i
    decreases stop - start
  {
    if stop <= start then [] else Arange(start, stop - 1) + [stop - 1]
  }

  /** NumPy's truth value of an integer: zero is false, anything else true.
      This is how `np.logical_not` and `np.logical_and` read an integer array. */
  function Truthy(s: seq<int>): (r: seq<bool>)
    ensures |r| == |s|
    ensures forall i :: 0 <= i < |s| ==> (r[i] <==> s[i] != 0)
  {
    if s == [] then [] else [s[0] != 0] + Truthy(s[1..])
  }

  /** `np.logical_not` on a Boolean array: element-wise negation. */
  function LogicalNot(s: seq<bool>): (r: seq<bool>)
    ensures |r| == |s|
    ensures forall i :: 0 <= i < |s| ==> r[i] == !s[i]
  {
    if s == [] then [] else [!s[0]] + LogicalNot(s[1..])
  }

  /** `np.logical_and` on two Boolean arrays of equal length: element-wise conjunction. */
  function LogicalAnd(a: seq<bool>, b: seq<bool>): (r: seq<bool>)
    requires |a| == |b|
    ensures |r| == |a|
    ensures forall i :: 0 <= i < |a| ==> (r[i] <==> a[i] && b[i])
  {
    if a == [] then [] else [a[0] && b[0]] + LogicalAnd(a[1..], b[1..])
  }

  /** `.astype(int)` on a Boolean array: true becomes 1, false becomes 0. */
  function AsInt(s: seq<bool>): (r: seq<int>)
    ensures |r| == |s|
    ensures forall i :: 0 <= i < |s| ==> r[i] == if s[i] then 1 else 0
  {
    if s == [] then [] else [if s[0] then 1 else 0] + AsInt(s[1..])
  }

  /** `np.roll(s, shift)` on a one-dimensional array: every element moves
      `shift` places to the right, and what falls off the end re-enters at
      the front (a negative shift moves left). An empty array stays empty. */
  function Roll<T>(s: seq<T>, shift: int): (r: seq<T>)
    ensures |r| == |s|
    ensures forall i :: 0 <= i < |s| ==> r[i] == s[(i - shift) % |s|]
  {
    if |s| == 0 then s
    else
      var k := shift % |s|;
      var r := s[|s| - k..] + s[..|s| - k];
      assert forall i :: 0 <= i < |s| ==> r[i] == s[(i - shift) % |s|] by {
        forall i | 0 <= i < |s| ensures r[i] == s[(i - shift) % |s|] {
          ShiftedIndex(i, shift, |s|);
        }
      }
      r
  }

  /** `np.roll(s, 1)`: element `i - 1` moves to `i`, and the last element wraps to the front. */
  lemma RollRightByOne<T>(s: seq<T>)
    requires |s| > 0
    ensures Roll(s, 1)[0] == s[|s| - 1]
    ensures forall i :: 1 <= i < |s| ==> Roll(s, 1)[i] == s[i - 1]
  {
    var n := |s|;
    ModOfMultiplePlus(n, -1, n - 1);
    forall i | 1 <= i < n ensures Roll(s, 1)[i] == s[i - 1] {
      ModOfMultiplePlus(n, 0, i - 1);
    }
  }

  /** Where element `i` of a roll by `shift` over `n` elements comes from. */
  lemma ShiftedIndex(i: int, shift: int, n: int)
    requires 0 <= i < n
    ensures var k := shift % n;
            (i - shift) % n == if i < k then n - k + i else i - k
  {
    var k := shift % n;
    var q := shift / n;
    assert shift == n * q + k;
    var j := if i < k then n - k + i else i - k;
    assert 0 <= j < n;
    assert i - shift == n * (if i < k then -q - 1 else -q) + j;
    ModOfMultiplePlus(n, if i < k then -q - 1 else -q, j);
  }

  /** Adding a multiple of `n` does not change a residue already in range. */
  lemma ModOfMultiplePlus(n: int, m: int, j: int)
    requires 0 <= j < n
    ensures (n * m + j) % n == j
  {
    var x := n * m + j;
    var q, r := x / n, x % n;
    assert x == n * q + r && 0 <= r < n;
    var d := q - m;
    assert n * d == j - r by {
      assert n * q - n * m == n * (q - m);
    }
    if d > 0 {
      MultipleAtLeast(n, d);
    } else if d < 0 {
      MultipleAtLeast(n, -d);
    }
  }

  /** A positive multiple of `n` is at least `n`. */
  lemma MultipleAtLeast(n: int, d: int)
    requires 0 < n && 0 < d
    ensures n * d >= n
  {
  }

  /** Rolling back by the same amount restores the array: `np.roll(np.roll(s, k), -k) == s`. */
  lemma RollInverse<T>(s: seq<T>, shift: int)
    ensures Roll(Roll(s, shift), -shift) == s
  {
    var r := Roll(s, shift);
    var back := Roll(r, -shift);
    forall i | 0 <= i < |s| ensures back[i] == s[i] {
      var n := |s|;
      var j := (i + shift) % n;
      assert back[i] == r[j];
      assert r[j] == s[(j - shift) % n];
      RollBackIndex(i, shift, n);
    }
  }

  /** Index arithmetic behind RollInverse. */
  lemma RollBackIndex(i: int, shift: int, n: int)
    requires 0 <= i < n
    ensures ((i + shift) % n - shift) % n == i
  {
    var j := (i + shift) % n;
    var q := (i + shift) / n;
    assert i + shift == n * q + j;
    assert j - shift == n * (-q) + i;
    ModOfMultiplePlus(n, -q, i);
  }
}
