/**
 * Small definitions shared by every container model: an optional value for
 * the C convention "pointer or NULL", the minimum of two integers, and the
 * zero-filled sequence that `calloc`/`memset(0)` produce.
 */
module Common {

  /** A value or nothing: the C convention of returning NULL. */
  datatype Option<T> = None | Some(value: T)

  function Min(a: int, b: int): int {
    if a <= b then a else b
  }

  /** `n` copies of the all-zero element, what `calloc` hands back. */
  function Zeros<T>(n: nat, zero: T): (r: seq<T>)
    ensures |r| == n
    ensures forall i :: 0 <= i < n ==> r[i] == zero
  {
    seq(n, _ => zero)
  }

  /** The values a C caller passes as "initial values or NULL". */
  function InitialOrZeros<T>(n: nat, values: Option<seq<T>>, zero: T): seq<T> {
    if values.Some? then values.value else Zeros(n, zero)
  }

  /**
   * The values of `xs` whose insertion succeeded, in order: `oks[i]` says
   * whether the allocation made for `xs[i]` returned a block. A push whose
   * malloc fails drops its value and the loop goes on with the next.
   */
  function Kept<T>(xs: seq<T>, oks: seq<bool>): (r: seq<T>)
    requires |oks| == |xs|
    ensures |r| <= |xs| && forall x :: x in r ==> x in xs
    ensures (forall i :: 0 <= i < |oks| ==> oks[i]) ==> r == xs
  {
    if |xs| == 0 then []
    else
      var n := |xs| - 1;
      assert xs == xs[..n] + [xs[n]];
      Kept(xs[..n], oks[..n]) + if oks[n] then [xs[n]] else []
  }

  /** `n` allocations that all succeed. */
  function AllOk(n: nat): (r: seq<bool>)
    ensures |r| == n && forall i :: 0 <= i < n ==> r[i]
  {
    seq(n, _ => true)
  }

  /** One more push: its value is kept exactly when its malloc succeeds. */
  lemma KeptSnoc<T>(xs: seq<T>, oks: seq<bool>, i: nat)
    requires |oks| == |xs| && i < |xs|
    ensures Kept(xs[..i + 1], oks[..i + 1]) == Kept(xs[..i], oks[..i]) + if oks[i] then [xs[i]] else []
  {
    assert xs[..i + 1][..i] == xs[..i];
    assert oks[..i + 1][..i] == oks[..i];
  }

  /** The range of a C `unsigned int`. */
  const UintModulus: int := 0x1_0000_0000

  /**
   * The conversion of an unsigned value to a 32-bit `int`: the value is
   * taken modulo 2^32, and the upper half of the range becomes negative.
   */
  function ToInt32(x: int): (r: int)
    ensures -0x8000_0000 <= r < 0x8000_0000
    ensures (x - r) % UintModulus == 0
    ensures 0 <= x < 0x8000_0000 ==> r == x
    ensures 0 <= x && r >= 0 ==> r <= x
  {
    var m := x % UintModulus;
    if m < 0x8000_0000 then m else m - UintModulus
  }

  /** `s` with `x` placed at position `p`: the positions from `p` on move up by one. */
  function InsertAt<T>(s: seq<T>, p: nat, x: T): (r: seq<T>)
    requires p <= |s|
    ensures |r| == |s| + 1 && r[p] == x
    ensures forall k :: 0 <= k < p ==> r[k] == s[k]
    ensures forall k :: p < k < |r| ==> r[k] == s[k - 1]
  {
    s[..p] + [x] + s[p..]
  }

  /** `s` without position `p`: the positions after `p` move down by one. */
  function RemoveAt<T>(s: seq<T>, p: nat): (r: seq<T>)
    requires p < |s|
    ensures |r| == |s| - 1
    ensures forall k :: 0 <= k < p ==> r[k] == s[k]
    ensures forall k :: p <= k < |r| ==> r[k] == s[k + 1]
  {
    s[..p] + s[p + 1..]
  }

  /** Removing what was just inserted gives the sequence back. */
  lemma RemoveInserted<T>(s: seq<T>, p: nat, x: T)
    requires p <= |s|
    ensures RemoveAt(InsertAt(s, p, x), p) == s
  {
    var r := RemoveAt(InsertAt(s, p, x), p);
    assert forall k :: 0 <= k < |s| ==> r[k] == s[k];
  }

  /** Re-inserting a removed element at its position gives the sequence back. */
  lemma InsertRemoved<T>(s: seq<T>, p: nat)
    requires p < |s|
    ensures InsertAt(RemoveAt(s, p), p, s[p]) == s
  {
    var r := InsertAt(RemoveAt(s, p), p, s[p]);
    assert forall k :: 0 <= k < |s| ==> r[k] == s[k];
  }

  /** Putting element i in front of the elements after it gives the slice from i. */
  lemma PrependSlice<T>(s: seq<T>, i: nat, rest: seq<T>)
    requires i < |s|
    ensures [s[i]] + (s[i + 1..] + rest) == s[i..] + rest
  {
    assert s[i..] == [s[i]] + s[i + 1..];
  }

  /** Appending element j to the slice that ends before it extends the slice. */
  lemma AppendSlice<T>(s: seq<T>, i: nat, j: nat)
    requires i <= j < |s|
    ensures s[i..j] + [s[j]] == s[i..j + 1]
  {
  }

  /** The same step behind a fixed prefix. */
  lemma ExtendSlice<T>(a: seq<T>, s: seq<T>, i: nat, j: nat)
    requires i <= j < |s|
    ensures (a + s[i..j]) + [s[j]] == a + s[i..j + 1]
  {
    assert s[i..j + 1] == s[i..j] + [s[j]];
  }

  /** `s` back to front. */
  function Reversed<T>(s: seq<T>): (r: seq<T>)
    ensures |r| == |s|
    ensures forall i :: 0 <= i < |s| ==> r[i] == s[|s| - 1 - i]
  {
    if s == [] then [] else Reversed(s[1..]) + [s[0]]
  }

  /** Reversing twice gives the sequence back. */
  lemma ReversedTwice<T>(s: seq<T>)
    ensures Reversed(Reversed(s)) == s
  {
    var r := Reversed(Reversed(s));
    assert forall i :: 0 <= i < |s| ==> r[i] == s[i];
  }

  /** The element appended last comes first once reversed. */
  lemma ReversedSnoc<T>(s: seq<T>, x: T)
    ensures Reversed(s + [x]) == [x] + Reversed(s)
  {
    var r, t := Reversed(s + [x]), [x] + Reversed(s);
    assert forall i :: 0 <= i < |t| ==> r[i] == t[i];
  }

  /** A stack built by pushing `xs[..i + 1]`: the value pushed last is on top exactly when its push succeeds. */
  lemma ReversedKept<T>(xs: seq<T>, oks: seq<bool>, i: nat)
    requires |oks| == |xs| && i < |xs|
    ensures Reversed(Kept(xs[..i + 1], oks[..i + 1])) == (if oks[i] then [xs[i]] else []) + Reversed(Kept(xs[..i], oks[..i]))
  {
    KeptSnoc(xs, oks, i);
    var k := Kept(xs[..i], oks[..i]);
    if oks[i] {
      ReversedSnoc(k, xs[i]);
    } else {
      assert k + [] == k;
    }
  }
}
