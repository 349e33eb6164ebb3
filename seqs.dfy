/** Small sequence and integer helpers shared by the rest of the model:
    an Option type, order-preserving removal of every occurrence of a value
    (std::list::remove, and std::remove followed by erase), reversal
    (std::list::reverse), and the C++ conversions and divisions that
    truncate toward zero. */
module Seqs {

  datatype Option<T> = None | Some(value: T)

  function Abs(x: int): (r: nat)
    ensures r == x || r == -x
  {
    if x < 0 then -x else x
  }

  function Max(a: int, b: int): (r: int)
    ensures r >= a && r >= b && (r == a || r == b)
  {
    if a < b then b else a
  }

  /** s with every element equal to x taken out; the others keep their order. */
  function RemoveAll<T(==)>(s: seq<T>, x: T): (r: seq<T>)
    ensures multiset(r) == multiset(s)[x := 0]
    ensures |r| == |s| - multiset(s)[x]
  {
    if s == [] then []
    else
      assert s == [s[0]] + s[1..];
      if s[0] == x then RemoveAll(s[1..], x) else [s[0]] + RemoveAll(s[1..], x)
  }

  /** Removal distributes over concatenation: what survives from a + b is what
      survives from a followed by what survives from b, so the relative order
      of the remaining elements never changes. */
  lemma {:induction false} RemoveAllAppend<T>(a: seq<T>, b: seq<T>, x: T)
    ensures RemoveAll(a + b, x) == RemoveAll(a, x) + RemoveAll(b, x)
  {
    if a == [] {
      assert a + b == b;
    } else {
      assert (a + b)[1..] == a[1..] + b;
      RemoveAllAppend(a[1..], b, x);
    }
  }

  /** Removing a value that does not occur changes nothing. */
  lemma {:induction false} RemoveAllAbsent<T>(s: seq<T>, x: T)
    requires x !in s
    ensures RemoveAll(s, x) == s
  {
    if s != [] {
      RemoveAllAbsent(s[1..], x);
    }
  }

  lemma AppendAssoc<T>(a: seq<T>, b: seq<T>, c: seq<T>)
    ensures (a + b) + c == a + (b + c)
  {
  }

  function Reverse<T>(s: seq<T>): (r: seq<T>)
    ensures |r| == |s|
    ensures forall i :: 0 <= i < |s| ==> r[i] == s[|s| - 1 - i]
  {
    if s == [] then [] else Reverse(s[1..]) + [s[0]]
  }

  /** C++ conversion of a floating-point value to int: truncation toward zero. */
  function Trunc(r: real): (i: int)
    ensures r >= 0.0 ==> 0 <= i && i as real <= r < i as real + 1.0
    ensures r < 0.0 ==> i <= 0 && i as real - 1.0 < r <= i as real
  {
    if r >= 0.0 then r.Floor else -((-r).Floor)
  }

  /** C++ integer division: the quotient is truncated toward zero. */
  function TruncDiv(a: int, b: int): (q: int)
    requires b != 0
    ensures a >= 0 && b > 0 ==> q == a / b
    ensures a < 0 && b > 0 ==> q == -((-a) / b)
  {
    var m := Abs(a) / Abs(b);
    if (a < 0) == (b < 0) then m else -m
  }

  /** Multiset cancellation: adding the same bag on both sides can be undone. */
  lemma CancelAdd<X>(r: multiset<X>, k: multiset<X>, s: multiset<X>, m: multiset<X>)
    requires r + k == s + (k + m)
    ensures r == s + m
  {
    forall x ensures r[x] == (s + m)[x] {
      assert (r + k)[x] == (s + (k + m))[x];
    }
  }

  /** The same for a bag that lost one occurrence of x. */
  lemma CancelRemove<X>(r: multiset<X>, k: multiset<X>, s: multiset<X>, x: X)
    requires r + k == s + (k - multiset{x}) && x in k
    ensures r == s - multiset{x}
  {
    forall y ensures r[y] == (s - multiset{x})[y] {
      assert (r + k)[y] == (s + (k - multiset{x}))[y];
    }
  }
}
