/**
 * Python's `sorted` on the keys of a dictionary or on a set: the elements in
 * increasing order.  A set has exactly one such listing, which is why output
 * built from it cannot depend on the order the elements were inserted in.
 */
module Sorting {
  ghost predicate TotalOrder<T(!new)>(le: (T, T) -> bool) {
    && (forall a, b :: le(a, b) || le(b, a))
    && (forall a, b :: le(a, b) && le(b, a) ==> a == b)
    && (forall a, b, c :: le(a, b) && le(b, c) ==> le(a, c))
  }

  ghost predicate StrictlySorted<T(!new)>(le: (T, T) -> bool, xs: seq<T>) {
    forall i, j :: 0 <= i < j < |xs| ==> le(xs[i], xs[j]) && xs[i] != xs[j]
  }

  ghost predicate IsLeast<T(!new)>(le: (T, T) -> bool, x: T, s: set<T>) {
    x in s && forall y | y in s :: le(x, y)
  }

  lemma {:induction false} LeastExists<T(!new)>(s: set<T>, le: (T, T) -> bool)
    requires TotalOrder(le) && s != {}
    ensures exists x :: IsLeast(le, x, s)
  {
    var x :| x in s;
    if s == {x} {
      assert IsLeast(le, x, s);
    } else {
      assert s - {x} != {};
      LeastExists(s - {x}, le);
      var m :| IsLeast(le, m, s - {x});
      var least := if le(x, m) then x else m;
      forall y | y in s
        ensures le(least, y)
      {
        if y != x { assert y in s - {x}; }
      }
      assert IsLeast(le, least, s);
    }
  }

  function SortSet<T(!new, ==)>(s: set<T>, le: (T, T) -> bool): (r: seq<T>)
    requires TotalOrder(le)
    ensures forall x :: x in r <==> x in s
    ensures StrictlySorted(le, r)
    decreases |s|
  {
    if s == {} then []
    else
      LeastExists(s, le);
      assert exists x :: x in s && forall y | y in s :: le(x, y) by {
        var x :| IsLeast(le, x, s);
      }
      var x :| x in s && forall y | y in s :: le(x, y);
      [x] + SortSet(s - {x}, le)
  }

  /** Only one strictly sorted sequence has given elements. */
  lemma {:induction false} SortedUnique<T(!new)>(le: (T, T) -> bool, xs: seq<T>, ys: seq<T>)
    requires TotalOrder(le) && StrictlySorted(le, xs) && StrictlySorted(le, ys)
    requires forall x :: x in xs <==> x in ys
    ensures xs == ys
    decreases |xs|
  {
    assert ys != [] ==> ys[0] in xs;
    if xs != [] {
      assert xs[0] in ys;
      var i :| 0 <= i < |ys| && ys[i] == xs[0];
      assert ys[0] in xs;
      var j :| 0 <= j < |xs| && xs[j] == ys[0];
      assert xs[0] == ys[0];
      forall x
        ensures x in xs[1..] <==> x in ys[1..]
      {
        assert x in xs[1..] <==> x in xs && x != xs[0];
        assert x in ys[1..] <==> x in ys && x != ys[0];
      }
      SortedUnique(le, xs[1..], ys[1..]);
      assert xs == [xs[0]] + xs[1..] && ys == [ys[0]] + ys[1..];
    }
  }

  /** The order of Python strings: by code point, a proper prefix first. */
  predicate StrLe(a: string, b: string) {
    a == [] || (b != [] && (a[0] < b[0] || (a[0] == b[0] && StrLe(a[1..], b[1..]))))
  }

  lemma {:induction false} StrLeLaws(a: string, b: string, c: string)
    ensures StrLe(a, b) || StrLe(b, a)
    ensures StrLe(a, b) && StrLe(b, a) ==> a == b
    ensures StrLe(a, b) && StrLe(b, c) ==> StrLe(a, c)
  {
    if a != [] && b != [] {
      StrLeLaws(a[1..], b[1..], if c == [] then [] else c[1..]);
      assert a == [a[0]] + a[1..] && b == [b[0]] + b[1..];
    }
  }

  /** An interface, node or link name. */
  datatype Name = Name(text: string)

  predicate NameLe(a: Name, b: Name) {
    StrLe(a.text, b.text)
  }

  lemma NameLeLaws(a: Name, b: Name, c: Name)
    ensures NameLe(a, b) || NameLe(b, a)
    ensures NameLe(a, b) && NameLe(b, a) ==> a == b
    ensures NameLe(a, b) && NameLe(b, c) ==> NameLe(a, c)
  {
    StrLeLaws(a.text, b.text, c.text);
  }

  lemma NameLeTotal()
    ensures TotalOrder(NameLe)
  {
    forall a, b, c
      ensures NameLe(a, b) || NameLe(b, a)
      ensures NameLe(a, b) && NameLe(b, a) ==> a == b
      ensures NameLe(a, b) && NameLe(b, c) ==> NameLe(a, c)
    {
      NameLeLaws(a, b, c);
    }
  }

  function SortedNames(s: set<Name>): (r: seq<Name>)
    ensures forall x :: x in r <==> x in s
    ensures StrictlySorted(NameLe, r)
  {
    NameLeTotal();
    SortSet(s, NameLe)
  }
}
