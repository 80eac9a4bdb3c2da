/** One bucket's chain, a `std::list<int>`, as a sequence: the erase-by-value
    operation `std::list::remove` and the filter it is an instance of. */
module Chains {
  import opened CppInt

  /** `std::list::remove(x)`: erases EVERY element equal to `x`, keeping the
      others in their original order.  An absent `x` changes nothing. */
  function RemoveAll(s: seq<Int32>, x: Int32): (r: seq<Int32>)
    ensures forall y :: y in r <==> y in s && y != x
    ensures forall y :: y != x ==> multiset(r)[y] == multiset(s)[y]
    ensures |r| == |s| - multiset(s)[x]
    ensures x !in s ==> r == s
  {
    if s == [] then []
    else
      assert s == [s[0]] + s[1..];
      if s[0] == x then RemoveAll(s[1..], x)
      else [s[0]] + RemoveAll(s[1..], x)
  }

  /** The elements of `s` outside `keys`, in their original order. */
  function Strip(s: seq<Int32>, keys: set<Int32>): (r: seq<Int32>)
    ensures forall y :: y in r <==> y in s && y !in keys
    ensures |r| <= |s|
  {
    if s == [] then []
    else if s[0] in keys then Strip(s[1..], keys)
    else [s[0]] + Strip(s[1..], keys)
  }

  /** Erasing by value is filtering out a single key. */
  lemma {:induction false} RemoveAllIsStrip(s: seq<Int32>, x: Int32)
    ensures RemoveAll(s, x) == Strip(s, {x})
  {
    if s != [] {
      RemoveAllIsStrip(s[1..], x);
    }
  }

  /** Filtering commutes with concatenation: the relative order of the kept
      elements is the order they had. */
  lemma {:induction false} StripConcat(a: seq<Int32>, b: seq<Int32>, keys: set<Int32>)
    ensures Strip(a + b, keys) == Strip(a, keys) + Strip(b, keys)
  {
    if a == [] {
      assert a + b == b;
    } else {
      assert (a + b)[1..] == a[1..] + b;
      StripConcat(a[1..], b, keys);
    }
  }

  /** Filtering twice is filtering once by the union. */
  lemma {:induction false} StripStrip(s: seq<Int32>, a: set<Int32>, b: set<Int32>)
    ensures Strip(Strip(s, a), b) == Strip(s, a + b)
  {
    if s != [] {
      StripStrip(s[1..], a, b);
      if s[0] !in a {
        assert ([s[0]] + Strip(s[1..], a))[1..] == Strip(s[1..], a);
      }
    }
  }

  /** A filter that meets none of the elements is the identity. */
  lemma {:induction false} StripDisjoint(s: seq<Int32>, keys: set<Int32>)
    requires forall y :: y in s ==> y !in keys
    ensures Strip(s, keys) == s
  {
    if s != [] {
      StripDisjoint(s[1..], keys);
      assert s == [s[0]] + s[1..];
    }
  }

  /** A filter that meets every element empties the sequence. */
  lemma StripCovered(s: seq<Int32>, keys: set<Int32>)
    requires forall y :: y in s ==> y in keys
    ensures Strip(s, keys) == []
  {
  }

  /** Erasing by value distributes over concatenation and, on one element,
      keeps exactly the elements different from `x`: these two facts fix
      `RemoveAll` completely. */
  lemma RemoveAllConcat(a: seq<Int32>, b: seq<Int32>, x: Int32)
    ensures RemoveAll(a + b, x) == RemoveAll(a, x) + RemoveAll(b, x)
    ensures forall y :: RemoveAll([y], x) == if y == x then [] else [y]
  {
    RemoveAllIsStrip(a + b, x);
    RemoveAllIsStrip(a, x);
    RemoveAllIsStrip(b, x);
    StripConcat(a, b, {x});
    forall y
      ensures RemoveAll([y], x) == if y == x then [] else [y]
    {
      assert [y][1..] == [];
    }
  }
}
