/** The C library's qsort(), with ties kept in their original order, and the
  * removal of adjacent duplicates that follows it in lib/expr.c. */
module Sorting {

  /** 'cmp' is a total preorder on the members of 's'. */
  ghost predicate TotalOn<T(!new)>(s: set<T>, cmp: (T, T) -> int)
  {
    && (forall a, b :: a in s && b in s ==> cmp(a, b) <= 0 || cmp(b, a) <= 0)
    && (forall a, b, c :: a in s && b in s && c in s && cmp(a, b) <= 0 && cmp(b, c) <= 0 ==> cmp(a, c) <= 0)
  }

  ghost function Members<T(!new)>(s: seq<T>): (r: set<T>)
    ensures forall x :: x in r <==> x in s
  {
    set x | x in s
  }

  ghost predicate Sorted<T(!new)>(s: seq<T>, cmp: (T, T) -> int) {
    s != [] ==> (forall y :: y in s[1..] ==> cmp(s[0], y) <= 0) && Sorted(s[1..], cmp)
  }

  function Insert<T(!new)>(x: T, s: seq<T>, cmp: (T, T) -> int): (r: seq<T>)
    ensures |r| == |s| + 1
    ensures forall y :: y in r <==> y == x || y in s
  {
    if s == [] then [x]
    else if cmp(x, s[0]) <= 0 then [x] + s
    else
      var rest := Insert(x, s[1..], cmp);
      assert s == [s[0]] + s[1..];
      [s[0]] + rest
  }

  function Sort<T(!new)>(s: seq<T>, cmp: (T, T) -> int): (r: seq<T>)
    ensures |r| == |s|
    ensures forall y :: y in r <==> y in s
  {
    if s == [] then []
    else
      assert s == [s[0]] + s[1..];
      Insert(s[0], Sort(s[1..], cmp), cmp)
  }

  lemma {:induction false} InsertSorted<T(!new)>(x: T, s: seq<T>, cmp: (T, T) -> int, dom: set<T>)
    requires x in dom && (forall y :: y in s ==> y in dom)
    requires TotalOn(dom, cmp) && Sorted(s, cmp)
    ensures Sorted(Insert(x, s, cmp), cmp)
  {
    if s != [] {
      assert s[0] in s && s == [s[0]] + s[1..];
      if cmp(x, s[0]) <= 0 {
        assert ([x] + s)[1..] == s;
      } else {
        InsertSorted(x, s[1..], cmp, dom);
        assert ([s[0]] + Insert(x, s[1..], cmp))[1..] == Insert(x, s[1..], cmp);
      }
    }
  }

  lemma {:induction false} SortSorted<T(!new)>(s: seq<T>, cmp: (T, T) -> int, dom: set<T>)
    requires TotalOn(dom, cmp) && (forall y :: y in s ==> y in dom)
    ensures Sorted(Sort(s, cmp), cmp)
  {
    if s != [] {
      assert s[0] in s;
      forall y | y in s[1..] ensures y in dom { assert y in s; }
      SortSorted(s[1..], cmp, dom);
      InsertSorted(s[0], Sort(s[1..], cmp), cmp, dom);
    }
  }

  /** Drops every element that compares equal to the last one kept. */
  function DedupFrom<T>(last: T, s: seq<T>, cmp: (T, T) -> int): (r: seq<T>)
    ensures forall y :: y in r ==> y in s
  {
    if s == [] then []
    else if cmp(last, s[0]) != 0 then [s[0]] + DedupFrom(s[0], s[1..], cmp)
    else DedupFrom(last, s[1..], cmp)
  }

  function Dedup<T>(s: seq<T>, cmp: (T, T) -> int): (r: seq<T>)
    ensures forall y :: y in r ==> y in s
    ensures s != [] ==> r != []
  {
    if s == [] then [] else [s[0]] + DedupFrom(s[0], s[1..], cmp)
  }

  /** 'cmp' returns zero on equal members only. */
  ghost predicate Separates<T(!new)>(s: set<T>, cmp: (T, T) -> int) {
    forall a, b :: a in s && b in s && cmp(a, b) == 0 ==> a == b
  }

  lemma {:induction false} DedupFromKeeps<T(!new)>(last: T, s: seq<T>, cmp: (T, T) -> int, dom: set<T>)
    requires last in dom && (forall y :: y in s ==> y in dom) && Separates(dom, cmp)
    ensures forall y :: y in s ==> y == last || y in DedupFrom(last, s, cmp)
  {
    if s != [] {
      assert s[0] in s;
      assert s == [s[0]] + s[1..];
      if cmp(last, s[0]) != 0 {
        DedupFromKeeps(s[0], s[1..], cmp, dom);
      } else {
        DedupFromKeeps(last, s[1..], cmp, dom);
      }
    }
  }

  /** No member is lost. */
  lemma DedupKeeps<T(!new)>(s: seq<T>, cmp: (T, T) -> int, dom: set<T>)
    requires (forall y :: y in s ==> y in dom) && Separates(dom, cmp)
    ensures forall y :: y in s <==> y in Dedup(s, cmp)
  {
    if s != [] {
      assert s[0] in s;
      assert s == [s[0]] + s[1..];
      DedupFromKeeps(s[0], s[1..], cmp, dom);
    }
  }

  predicate Distinct<T(==)>(s: seq<T>) {
    forall i, j :: 0 <= i < j < |s| ==> s[i] != s[j]
  }

  lemma ConsDistinct<T>(x: T, s: seq<T>)
    requires Distinct(s) && x !in s
    ensures Distinct([x] + s)
  {
  }

  lemma TailDistinct<T>(s: seq<T>)
    requires Distinct(s) && s != []
    ensures Distinct(s[1..]) && s[0] !in s[1..]
  {
    forall i | 0 <= i < |s[1..]| ensures s[1..][i] != s[0] {
      assert s[0] != s[i + 1];
    }
  }

  lemma {:induction false} InsertDistinct<T(!new)>(x: T, s: seq<T>, cmp: (T, T) -> int)
    requires Distinct(s) && x !in s
    ensures Distinct(Insert(x, s, cmp))
  {
    if s == [] {
    } else if cmp(x, s[0]) <= 0 {
      ConsDistinct(x, s);
    } else {
      TailDistinct(s);
      assert s == [s[0]] + s[1..];
      InsertDistinct(x, s[1..], cmp);
      ConsDistinct(s[0], Insert(x, s[1..], cmp));
    }
  }

  /** Sorting repeats nothing that was not repeated. */
  lemma {:induction false} SortDistinct<T(!new)>(s: seq<T>, cmp: (T, T) -> int)
    requires Distinct(s)
    ensures Distinct(Sort(s, cmp))
  {
    if s != [] {
      TailDistinct(s);
      SortDistinct(s[1..], cmp);
      InsertDistinct(s[0], Sort(s[1..], cmp), cmp);
    }
  }

  lemma {:induction false} DedupFromDistinct<T(!new)>(last: T, s: seq<T>, cmp: (T, T) -> int, dom: set<T>)
    requires last in dom && (forall y :: y in s ==> y in dom)
    requires TotalOn(dom, cmp) && Separates(dom, cmp)
    requires forall a, b :: a in dom && b in dom && cmp(a, b) <= 0 && cmp(b, a) <= 0 ==> cmp(a, b) == 0
    requires Sorted([last] + s, cmp)
    ensures last !in DedupFrom(last, s, cmp) && Distinct(DedupFrom(last, s, cmp))
    decreases s
  {
    if s != [] {
      assert s[0] in s && s == [s[0]] + s[1..];
      assert ([last] + s)[1..] == s;
      if cmp(last, s[0]) != 0 {
        DedupFromDistinct(s[0], s[1..], cmp, dom);
        assert last !in s[1..];
      } else {
        assert ([last] + s[1..])[1..] == s[1..];
        DedupFromDistinct(last, s[1..], cmp, dom);
      }
    }
  }

  /** After sorting, removing adjacent duplicates removes all of them. */
  lemma DedupDistinct<T(!new)>(s: seq<T>, cmp: (T, T) -> int, dom: set<T>)
    requires forall y :: y in s ==> y in dom
    requires TotalOn(dom, cmp) && Separates(dom, cmp)
    requires forall a, b :: a in dom && b in dom && cmp(a, b) <= 0 && cmp(b, a) <= 0 ==> cmp(a, b) == 0
    requires Sorted(s, cmp)
    ensures Distinct(Dedup(s, cmp))
  {
    if s != [] {
      assert s[0] in s;
      assert [s[0]] + s[1..] == s;
      DedupFromDistinct(s[0], s[1..], cmp, dom);
    }
  }
}
