/** Lexicographic order and sorting, as Python's tuples and `sort` have them. */
module Sorting {
  import opened Basics

  type Less<!T> = (T, T) -> bool

  ghost predicate StrictTotal<T(!new)>(less: Less<T>) {
    && (forall a :: !less(a, a))
    && (forall a, b :: a != b ==> less(a, b) || less(b, a))
    && (forall a, b, c :: less(a, b) && less(b, c) ==> less(a, c))
  }

  predicate IntLess(a: int, b: int) { a < b }

  predicate Lex<T(==)>(less: Less<T>, a: seq<T>, b: seq<T>) {
    if b == [] then false
    else if a == [] then true
    else less(a[0], b[0]) || (a[0] == b[0] && Lex(less, a[1..], b[1..]))
  }

  lemma {:induction false} LexIrreflexive<T(!new)>(less: Less<T>, a: seq<T>)
    requires StrictTotal(less)
    ensures !Lex(less, a, a)
  {
    if a != [] { LexIrreflexive(less, a[1..]); }
  }

  lemma {:induction false} LexTotal<T(!new)>(less: Less<T>, a: seq<T>, b: seq<T>)
    requires StrictTotal(less) && a != b
    ensures Lex(less, a, b) || Lex(less, b, a)
  {
    if a != [] && b != [] && a[0] == b[0] {
      assert a == [a[0]] + a[1..] && b == [b[0]] + b[1..];
      LexTotal(less, a[1..], b[1..]);
    }
  }

  lemma {:induction false} LexTransitive<T(!new)>(less: Less<T>, a: seq<T>, b: seq<T>, c: seq<T>)
    requires StrictTotal(less) && Lex(less, a, b) && Lex(less, b, c)
    ensures Lex(less, a, c)
  {
    if a != [] && a[0] == b[0] && b[0] == c[0] {
      LexTransitive(less, a[1..], b[1..], c[1..]);
    }
  }

  ghost predicate Ordered<T>(less: Less<T>, s: seq<T>) {
    forall i, j :: 0 <= i < j < |s| ==> less(s[i], s[j])
  }

  ghost predicate IsLeast<T>(less: Less<T>, s: set<T>, r: T) {
    r in s && forall a :: a in s ==> a == r || less(r, a)
  }

  lemma {:induction false} LeastExists<T(!new)>(less: Less<T>, s: set<T>)
    requires StrictTotal(less) && s != {}
    ensures exists r :: IsLeast(less, s, r)
    decreases |s|
  {
    var b := Member(s);
    if s == {b} {
      assert IsLeast(less, s, b);
    } else {
      LeastExists(less, s - {b});
      var m :| IsLeast(less, s - {b}, m);
      assert forall a :: a in s ==> a == b || a in s - {b};
      assert IsLeast(less, s, if less(b, m) then b else m);
    }
  }

  function Insert<T>(less: Less<T>, x: T, s: seq<T>): seq<T> {
    if s == [] || less(x, s[0]) then [x] + s else [s[0]] + Insert(less, x, s[1..])
  }

  function Sort<T>(less: Less<T>, s: seq<T>): seq<T> {
    if s == [] then [] else Insert(less, s[0], Sort(less, s[1..]))
  }

  lemma {:induction false} InsertElements<T>(less: Less<T>, x: T, s: seq<T>)
    ensures forall y :: y in Insert(less, x, s) <==> y == x || y in s
  {
    if s != [] && !less(x, s[0]) {
      InsertElements(less, x, s[1..]);
      assert s == [s[0]] + s[1..];
    }
  }

  lemma {:induction false} SortElements<T>(less: Less<T>, s: seq<T>)
    ensures forall y :: y in Sort(less, s) <==> y in s
  {
    if s != [] {
      SortElements(less, s[1..]);
      InsertElements(less, s[0], Sort(less, s[1..]));
      assert s == [s[0]] + s[1..];
    }
  }

  lemma {:induction false} InsertOrdered<T(!new)>(less: Less<T>, x: T, s: seq<T>)
    requires StrictTotal(less) && Ordered(less, s) && x !in s
    ensures Ordered(less, Insert(less, x, s))
  {
    if s == [] {
    } else if less(x, s[0]) {
      assert forall i :: 0 < i < |s| ==> less(s[0], s[i]);
    } else {
      assert s[0] in s;
      InsertOrdered(less, x, s[1..]);
      InsertElements(less, x, s[1..]);
      var rest := Insert(less, x, s[1..]);
      forall i | 0 <= i < |rest| ensures less(s[0], rest[i]) {
        assert rest[i] in rest;
        assert rest[i] == x || rest[i] in s[1..];
      }
    }
  }

  lemma {:induction false} SortOrdered<T(!new)>(less: Less<T>, s: seq<T>)
    requires StrictTotal(less) && Unique(s)
    ensures Ordered(less, Sort(less, s))
  {
    if s != [] {
      SortOrdered(less, s[1..]);
      SortElements(less, s[1..]);
      InsertOrdered(less, s[0], Sort(less, s[1..]));
    }
  }

  /** An ordered sequence is determined by its elements. */
  lemma {:induction false} OrderedIsDetermined<T(!new)>(less: Less<T>, a: seq<T>, b: seq<T>)
    requires StrictTotal(less) && Ordered(less, a) && Ordered(less, b)
    requires forall x :: x in a <==> x in b
    ensures a == b
  {
    if b != [] {
      assert b[0] in a;
    }
    if a != [] {
      assert a[0] in b;
      TailElements(less, a);
      TailElements(less, b);
      OrderedIsDetermined(less, a[1..], b[1..]);
      assert a == [a[0]] + a[1..] && b == [b[0]] + b[1..];
    }
  }

  lemma TailElements<T(!new)>(less: Less<T>, s: seq<T>)
    requires StrictTotal(less) && Ordered(less, s) && s != []
    ensures forall x :: x in s[1..] <==> x in s && x != s[0]
  {
    assert s == [s[0]] + s[1..];
    assert forall i :: 0 < i < |s| ==> less(s[0], s[i]);
  }
}

/** Finite sets of integers, in increasing order. */
module IntSets {
  import opened Basics
  import opened Sorting

  function Elements(s: seq<int>): set<int> {
    set a | a in s
  }

  lemma ElementsAppend(s: seq<int>, a: int)
    ensures Elements(s + [a]) == Elements(s) + {a}
  {
  }

  lemma ElementsHead(s: seq<int>)
    requires s != []
    ensures Elements(s) == Elements(s[1..]) + {s[0]}
  {
    assert s == [s[0]] + s[1..];
  }

  function Least(s: set<int>): (r: int)
    requires s != {}
    ensures r in s && forall a :: a in s ==> r <= a
  {
    LeastExists(IntLess, s);
    assert forall r :: IsLeast(IntLess, s, r) ==> r in s && forall a :: a in s ==> r <= a;
    var r :| r in s && forall a :: a in s ==> r <= a;
    r
  }

  /** `sorted(s)` */
  function Ascending(s: set<int>): seq<int>
    decreases |s|
  {
    if s == {} then [] else [Least(s)] + Ascending(s - {Least(s)})
  }

  lemma {:induction false} AscendingElements(s: set<int>)
    ensures Elements(Ascending(s)) == s
    decreases |s|
  {
    if s != {} {
      var a := Least(s);
      AscendingElements(s - {a});
      ElementsHead(Ascending(s));
      assert Ascending(s)[1..] == Ascending(s - {a});
      assert s == (s - {a}) + {a};
    }
  }

  lemma {:induction false} AscendingOrdered(s: set<int>)
    ensures Ordered(IntLess, Ascending(s))
    decreases |s|
  {
    if s != {} {
      var a := Least(s);
      var rest := Ascending(s - {a});
      AscendingOrdered(s - {a});
      AscendingElements(s - {a});
      forall i | 0 <= i < |rest| ensures a < rest[i] {
        assert rest[i] in Elements(rest);
      }
    }
  }
}
