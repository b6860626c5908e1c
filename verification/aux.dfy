/** Small integer array helpers (src/aux.c).

    Arrays are modelled as sequences; `n` is the number of leading entries the
    C routine touches. The int/long variants of each C routine differ only in
    integer width, which the model does not bound, so one member models each
    family. */
module Aux {

  /** Sum of all entries: the reference definition the loops are checked against. */
  function Sum(a: seq<int>): int
  {
    if |a| == 0 then 0 else Sum(a[..|a| - 1]) + a[|a| - 1]
  }

  /** Product of all entries. */
  function Prod(a: seq<int>): int
  {
    if |a| == 0 then 1 else Prod(a[..|a| - 1]) * a[|a| - 1]
  }

  function Abs(x: int): int
  {
    if x < 0 then -x else x
  }

  /** Concatenation of a list of strings, first to last. */
  function Concat(strs: seq<string>): string
  {
    if |strs| == 0 then [] else Concat(strs[..|strs| - 1]) + strs[|strs| - 1]
  }

  /** Total length of a list of strings. */
  function SumLengths(strs: seq<string>): nat
  {
    if |strs| == 0 then 0 else SumLengths(strs[..|strs| - 1]) + |strs[|strs| - 1]|
  }

  /** Cumulative products (aiCumProd, ailCumProd, alCumProd): res[0] = 1 and
      res[i+1] = res[i]*a[i], so every res[i] is the product of a[..i]. */
  method CumProd(a: seq<int>, n: nat) returns (res: seq<int>)
    requires n <= |a|
    ensures |res| == n + 1
    ensures res[0] == 1
    ensures forall i :: 0 <= i < n ==> res[i + 1] == res[i] * a[i]
    ensures forall i :: 0 <= i <= n ==> res[i] == Prod(a[..i])
  {
    res := [1];
    var i := 0;
    while i < n
      invariant 0 <= i <= n
      invariant |res| == i + 1
      invariant forall j :: 0 <= j <= i ==> res[j] == Prod(a[..j])
    {
      assert a[..i + 1][..i] == a[..i];
      res := res + [res[i] * a[i]];
      i := i + 1;
    }
    forall j | 0 <= j < n ensures res[j + 1] == res[j] * a[j] {
      assert a[..j + 1][..j] == a[..j];
    }
  }

  /** Cumulative sums (aiCumSum, ailCumSum, alCumSum): res[0] = 0 and
      res[i+1] = res[i]+a[i], so every res[i] is the sum of a[..i]. */
  method CumSum(a: seq<int>, n: nat) returns (res: seq<int>)
    requires n <= |a|
    ensures |res| == n + 1
    ensures res[0] == 0
    ensures forall i :: 0 <= i < n ==> res[i + 1] == res[i] + a[i]
    ensures forall i :: 0 <= i <= n ==> res[i] == Sum(a[..i])
  {
    res := [0];
    var i := 0;
    while i < n
      invariant 0 <= i <= n
      invariant |res| == i + 1
      invariant forall j :: 0 <= j <= i ==> res[j] == Sum(a[..j])
    {
      assert a[..i + 1][..i] == a[..i];
      res := res + [res[i] + a[i]];
      i := i + 1;
    }
    forall j | 0 <= j < n ensures res[j + 1] == res[j] + a[j] {
      assert a[..j + 1][..j] == a[..j];
    }
  }

  /** aiSum / alSum: the sum of the first n entries. */
  method ArraySum(a: seq<int>, n: nat) returns (sum: int)
    requires n <= |a|
    ensures sum == Sum(a[..n])
  {
    sum := 0;
    var i := 0;
    while i < n
      invariant 0 <= i <= n
      invariant sum == Sum(a[..i])
    {
      assert a[..i + 1][..i] == a[..i];
      sum := sum + a[i];
      i := i + 1;
    }
  }

  /** aiProd / alProd: the product of the first n entries. */
  method ArrayProd(a: seq<int>, n: nat) returns (res: int)
    requires n <= |a|
    ensures res == Prod(a[..n])
  {
    res := 1;
    var i := 0;
    while i < n
      invariant 0 <= i <= n
      invariant res == Prod(a[..i])
    {
      assert a[..i + 1][..i] == a[..i];
      res := res * a[i];
      i := i + 1;
    }
  }

  /** Number of leading entries the max/min scans look at: the C routines read
      a[0] unconditionally, so at least one. */
  function Scanned(n: nat): nat
  {
    if n == 0 then 1 else n
  }

  /** aiMax / alMax: an entry of the scanned prefix that no entry of a[..n]
      exceeds (a[0] when n <= 1). */
  method ArrayMax(a: seq<int>, n: nat) returns (res: int)
    requires 1 <= |a| && n <= |a|
    ensures n <= 1 ==> res == a[0]
    ensures exists i :: 0 <= i < Scanned(n) && res == a[i]
    ensures forall i :: 0 <= i < n ==> a[i] <= res
  {
    res := a[0];
    var i := 1;
    while i < n
      invariant 1 <= i <= Scanned(n)
      invariant exists k :: 0 <= k < i && res == a[k]
      invariant forall k :: 0 <= k < i && k < n ==> a[k] <= res
    {
      if a[i] > res {
        res := a[i];
      }
      i := i + 1;
    }
  }

  /** aiMin / alMin: an entry of the scanned prefix that exceeds no entry of
      a[..n] (a[0] when n <= 1). */
  method ArrayMin(a: seq<int>, n: nat) returns (res: int)
    requires 1 <= |a| && n <= |a|
    ensures n <= 1 ==> res == a[0]
    ensures exists i :: 0 <= i < Scanned(n) && res == a[i]
    ensures forall i :: 0 <= i < n ==> res <= a[i]
  {
    res := a[0];
    var i := 1;
    while i < n
      invariant 1 <= i <= Scanned(n)
      invariant exists k :: 0 <= k < i && res == a[k]
      invariant forall k :: 0 <= k < i && k < n ==> res <= a[k]
    {
      if a[i] < res {
        res := a[i];
      }
      i := i + 1;
    }
  }

  /** aiExt / alExt: the maximum if it is larger than minus the minimum,
      otherwise the minimum. That is an entry of largest magnitude, and a tie
      between x and -x is resolved in favour of the negative one. Like the
      scans it calls, it reads a[0] even when n is 0. */
  method ArrayExt(a: seq<int>, n: nat) returns (res: int)
    requires 1 <= |a| && n <= |a|
    ensures n <= 1 ==> res == a[0]
    ensures exists i :: 0 <= i < Scanned(n) && res == a[i]
    ensures forall i :: 0 <= i < n ==> Abs(a[i]) <= Abs(res)
    ensures res > 0 ==> forall i :: 0 <= i < n ==> a[i] != -res
  {
    var min := ArrayMin(a, n);
    var max := ArrayMax(a, n);
    res := if max > -min then max else min;
  }

  /** aiEq / alEq: 1 when the first n entries agree pairwise, else 0. */
  method ArrayEq(a: seq<int>, b: seq<int>, n: nat) returns (res: int)
    requires n <= |a| && n <= |b|
    ensures res == 0 || res == 1
    ensures res == 1 <==> a[..n] == b[..n]
  {
    var i := 0;
    while i < n
      invariant 0 <= i <= n
      invariant a[..i] == b[..i]
    {
      if a[i] != b[i] {
        assert a[..n][i] != b[..n][i];
        return 0;
      }
      assert a[..i + 1] == a[..i] + [a[i]];
      assert b[..i + 1] == b[..i] + [b[i]];
      i := i + 1;
    }
    return 1;
  }

  /** aiSetAll / alSetAll / bSetAll: exactly the first n entries become value. */
  method SetAll<T>(a: seq<T>, n: nat, value: T) returns (res: seq<T>)
    requires n <= |a|
    ensures |res| == |a|
    ensures forall i :: 0 <= i < n ==> res[i] == value
    ensures forall i :: n <= i < |a| ==> res[i] == a[i]
  {
    res := a;
    var i := 0;
    while i < n
      invariant 0 <= i <= n
      invariant |res| == |a|
      invariant forall k :: 0 <= k < i ==> res[k] == value
      invariant forall k :: i <= k < |a| ==> res[k] == a[k]
    {
      res := res[i := value];
      i := i + 1;
    }
  }

  /** alCopy: b[..n] becomes a[..n]; the rest of b is untouched. */
  method ArrayCopy(a: seq<int>, b: seq<int>, n: nat) returns (res: seq<int>)
    requires n <= |a| && n <= |b|
    ensures |res| == |b|
    ensures res[..n] == a[..n]
    ensures res[n..] == b[n..]
  {
    res := b;
    var i := 0;
    while i < n
      invariant 0 <= i <= n
      invariant |res| == |b|
      invariant forall k :: 0 <= k < i ==> res[k] == a[k]
      invariant forall k :: i <= k < |b| ==> res[k] == b[k]
    {
      res := res[i := a[i]];
      i := i + 1;
    }
  }

  /** aiAdd / alAdd: the element-wise sum of the first n entries. */
  method ArrayAdd(a: seq<int>, b: seq<int>, n: nat) returns (res: seq<int>)
    requires n <= |a| && n <= |b|
    ensures |res| == n
    ensures forall i :: 0 <= i < n ==> res[i] == a[i] + b[i]
  {
    res := [];
    var i := 0;
    while i < n
      invariant 0 <= i <= n
      invariant |res| == i
      invariant forall k :: 0 <= k < i ==> res[k] == a[k] + b[k]
    {
      res := res + [a[i] + b[i]];
      i := i + 1;
    }
  }

  /** strCatAlloc: the concatenation of its arguments in order. The C routine
      reads its first argument unconditionally, so at least one is needed. */
  method StrCat(strs: seq<string>) returns (res: string)
    requires |strs| >= 1
    ensures res == Concat(strs)
    ensures |res| == SumLengths(strs)
  {
    var len := 0;
    var i := 0;
    while i < |strs|
      invariant 0 <= i <= |strs|
      invariant len == SumLengths(strs[..i])
    {
      assert strs[..i + 1][..i] == strs[..i];
      len := len + |strs[i]|;
      i := i + 1;
    }
    assert strs[..|strs|] == strs;
    res := strs[0];
    i := 1;
    assert strs[..1][..0] == [];
    while i < |strs|
      invariant 1 <= i <= |strs|
      invariant res == Concat(strs[..i])
    {
      assert strs[..i + 1][..i] == strs[..i];
      res := res + strs[i];
      i := i + 1;
    }
    ConcatLength(strs);
  }

  /** The length of a concatenation is the sum of the lengths. */
  lemma {:induction false} ConcatLength(strs: seq<string>)
    ensures |Concat(strs)| == SumLengths(strs)
  {
    if |strs| > 0 {
      ConcatLength(strs[..|strs| - 1]);
    }
  }

  /** The sum also peels off from the front. */
  lemma {:induction false} SumFront(a: seq<int>)
    requires |a| > 0
    ensures Sum(a) == a[0] + Sum(a[1..])
    decreases |a|
  {
    if |a| > 1 {
      var init := a[..|a| - 1];
      SumFront(init);
      assert init[1..] == a[1..][..|a[1..]| - 1];
    }
  }

  /** A product of positive factors is positive. */
  lemma {:induction false} ProdPositive(a: seq<int>)
    requires forall i :: 0 <= i < |a| ==> a[i] >= 1
    ensures Prod(a) >= 1
  {
    if |a| > 0 {
      ProdPositive(a[..|a| - 1]);
    }
  }
}
