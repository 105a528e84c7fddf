/** Machine widths, saturating arithmetic and the option type shared by every module. */
module Base {

  const U16_MAX: nat := 0xFFFF
  const U32_MAX: nat := 0xFFFF_FFFF
  const U64_MAX: nat := 0xFFFF_FFFF_FFFF_FFFF

  datatype Option<+T> = None | Some(value: T)

  function Min(a: int, b: int): int {
    if a <= b then a else b
  }

  function Max(a: int, b: int): int {
    if a >= b then a else b
  }

  /** `a.saturating_add(b)` at a width whose largest value is `max`. */
  function SatAdd(a: nat, b: nat, max: nat): nat {
    if a + b > max then max else a + b
  }

  /** `a.saturating_sub(b)` on unsigned integers. */
  function SatSub(a: nat, b: nat): nat {
    if a > b then a - b else 0
  }

  /** `a.saturating_mul(b)` at a width whose largest value is `max`. */
  function SatMul(a: nat, b: nat, max: nat): nat {
    if a * b > max then max else a * b
  }

  ghost predicate Distinct<T>(s: seq<T>) {
    forall i, j :: 0 <= i < j < |s| ==> s[i] != s[j]
  }

  /** A sequence without repetitions has as many elements as positions. */
  lemma {:induction false} DistinctCardinality<T>(s: seq<T>)
    requires Distinct(s)
    ensures |set x | x in s| == |s|
  {
    if s == [] {
      assert (set x | x in s) == {};
    } else {
      var head, tail := s[0], s[1..];
      assert forall i, j :: 0 <= i < j < |tail| ==> tail[i] == s[i + 1] && tail[j] == s[j + 1];
      DistinctCardinality(tail);
      assert (set x | x in s) == {head} + (set x | x in tail);
      assert head !in tail;
    }
  }

  lemma SubsetCardinality<T>(a: set<T>, b: set<T>)
    requires a <= b
    ensures |a| <= |b|
    ensures |a| == |b| ==> a == b
  {
    assert b == a + (b - a);
  }

  predicate Below(i: nat, n: nat) {
    i < n
  }

  ghost function Upto(n: nat): set<nat> {
    set i: nat {:trigger Below(i, n)} | i < n && Below(i, n)
  }

  lemma {:induction false} UptoCardinality(n: nat)
    ensures |Upto(n)| == n
  {
    if n == 0 {
      assert Upto(0) == {};
    } else {
      UptoCardinality(n - 1);
      assert Upto(n) == Upto(n - 1) + {n - 1};
    }
  }

  /** A map that hits every element of `s` exactly once has as many keys as `s` has elements. */
  lemma {:induction false} BijectionCardinality<A, B>(m: map<A, B>, s: set<B>)
    requires forall a :: a in m ==> m[a] in s
    requires forall a, b :: a in m && b in m && m[a] == m[b] ==> a == b
    requires forall x :: x in s ==> exists a :: a in m && m[a] == x
    ensures |m| == |s|
    decreases |s|
  {
    if s == {} {
      assert m.Keys == {};
    } else {
      var x :| x in s;
      var a :| a in m && m[a] == x;
      forall y | y in s - {x} ensures exists b :: b in m - {a} && (m - {a})[b] == y {
        var b :| b in m && m[b] == y;
        assert b in m - {a} && (m - {a})[b] == y;
      }
      BijectionCardinality(m - {a}, s - {x});
      assert m.Keys == (m - {a}).Keys + {a};
    }
  }

  /** A map has one key fewer without a key. */
  lemma MapWithout<K, V>(m: map<K, V>, k: K)
    requires k in m
    ensures |m| == |m - {k}| + 1
  {
    assert m.Keys == (m - {k}).Keys + {k};
  }

  lemma MulStep(n: nat, x: nat)
    ensures (n + 1) * x == n * x + x
  {
  }

  lemma {:induction false} MulMonotone(a: nat, b: nat, x: nat)
    requires a <= b
    ensures a * x <= b * x
  {
    if a < b {
      MulMonotone(a, b - 1, x);
      MulStep(b - 1, x);
    }
  }
}
