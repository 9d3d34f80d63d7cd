/**
 * Python's `sorted`: a stable sort under a total preorder. Insertion sort is
 * the reference definition; the lemmas state what `sorted` promises of it:
 * the result is a permutation of the input, ordered, and elements that
 * compare equal keep their input order.
 */
module Sorting {

  /** `le` is total and transitive, as comparing sort keys with <= is. */
  ghost predicate TotalPreorder<T(!new)>(le: (T, T) -> bool) {
    && (forall a, b :: le(a, b) || le(b, a))
    && (forall a, b, c :: le(a, b) && le(b, c) ==> le(a, c))
  }

  predicate SortedBy<T>(s: seq<T>, le: (T, T) -> bool) {
    forall i, j :: 0 <= i < j < |s| ==> le(s[i], s[j])
  }

  /** x and y have equal sort keys. */
  predicate Tied<T>(le: (T, T) -> bool, x: T, y: T) {
    le(x, y) && le(y, x)
  }

  /** The subsequence of s whose elements tie with y. */
  function TiedWith<T>(s: seq<T>, le: (T, T) -> bool, y: T): seq<T> {
    if s == [] then []
    else (if Tied(le, s[0], y) then [s[0]] else []) + TiedWith(s[1..], le, y)
  }

  /** Puts x in front of the first element it does not sort after. */
  function Insert<T>(x: T, s: seq<T>, le: (T, T) -> bool): (r: seq<T>)
    ensures multiset(r) == multiset(s) + multiset{x}
  {
    if s == [] || le(x, s[0]) then [x] + s
    else
      assert s == [s[0]] + s[1..];
      [s[0]] + Insert(x, s[1..], le)
  }

  function SortBy<T>(s: seq<T>, le: (T, T) -> bool): (r: seq<T>)
    ensures multiset(r) == multiset(s)
  {
    if s == [] then []
    else
      assert s == [s[0]] + s[1..];
      Insert(s[0], SortBy(s[1..], le), le)
  }

  lemma {:induction false} InsertSorted<T(!new)>(x: T, s: seq<T>, le: (T, T) -> bool)
    requires TotalPreorder(le) && SortedBy(s, le)
    ensures SortedBy(Insert(x, s, le), le)
  {
    if s == [] || le(x, s[0]) {
      forall w | w in s ensures le(x, w) {
        var k :| 0 <= k < |s| && s[k] == w;
        assert le(s[0], w) by { if k == 0 { assert le(w, w) || le(w, w); } }
      }
      PrependSorted(x, s, le);
    } else {
      var s0 := s[0];
      InsertSorted(x, s[1..], le);
      var r := Insert(x, s[1..], le);
      forall w | w in r ensures le(s0, w) {
        assert w in multiset(s[1..]) + multiset{x};
        if w != x {
          var k :| 0 <= k < |s[1..]| && s[1..][k] == w;
          assert s[k + 1] == w;
        }
      }
      PrependSorted(s0, r, le);
    }
  }

  /** An element that sorts no later than everything in a sorted sequence may go in front of it. */
  lemma PrependSorted<T>(z: T, t: seq<T>, le: (T, T) -> bool)
    requires SortedBy(t, le) && forall w :: w in t ==> le(z, w)
    ensures SortedBy([z] + t, le)
  {
    forall i, j | 0 <= i < j < |t| + 1 ensures le(([z] + t)[i], ([z] + t)[j]) {
      assert ([z] + t)[j] == t[j - 1];
      if i > 0 {
        assert ([z] + t)[i] == t[i - 1];
      }
    }
  }

  /** `sorted` returns its input in order. */
  lemma {:induction false} SortByIsSorted<T(!new)>(s: seq<T>, le: (T, T) -> bool)
    requires TotalPreorder(le)
    ensures SortedBy(SortBy(s, le), le)
  {
    if s != [] {
      SortByIsSorted(s[1..], le);
      InsertSorted(s[0], SortBy(s[1..], le), le);
    }
  }

  lemma {:induction false} TiedWithAppend<T>(a: seq<T>, b: seq<T>, le: (T, T) -> bool, y: T)
    ensures TiedWith(a + b, le, y) == TiedWith(a, le, y) + TiedWith(b, le, y)
  {
    if a != [] {
      assert (a + b)[1..] == a[1..] + b;
      TiedWithAppend(a[1..], b, le, y);
    } else {
      assert a + b == b;
    }
  }

  /** Inserting x adds x to its own tie class, in front of it, and changes no other class. */
  lemma {:induction false} InsertTiedWith<T(!new)>(x: T, s: seq<T>, le: (T, T) -> bool, y: T)
    requires TotalPreorder(le)
    ensures TiedWith(Insert(x, s, le), le, y) == (if Tied(le, x, y) then [x] else []) + TiedWith(s, le, y)
  {
    if s == [] || le(x, s[0]) {
      TiedWithAppend([x], s, le, y);
      TiedWithSingleton(x, le, y);
    } else {
      InsertTiedWith(x, s[1..], le, y);
      NotBothTied(x, s[0], le, y);
      InsertPastTiedWith(x, s, le, y);
    }
  }

  /**
   * The step of InsertTiedWith where x moves past s[0]: when x and s[0] are
   * not both tied with y, the tie class of y in the result is the one
   * inserting into the tail gives, plus s[0] if it ties.
   */
  lemma InsertPastTiedWith<T>(x: T, s: seq<T>, le: (T, T) -> bool, y: T)
    requires s != [] && !le(x, s[0])
    requires !(Tied(le, x, y) && Tied(le, s[0], y))
    requires TiedWith(Insert(x, s[1..], le), le, y) == (if Tied(le, x, y) then [x] else []) + TiedWith(s[1..], le, y)
    ensures TiedWith(Insert(x, s, le), le, y) == (if Tied(le, x, y) then [x] else []) + TiedWith(s, le, y)
  {
    var s0, rest := s[0], s[1..];
    var hx := if Tied(le, x, y) then [x] else [];
    var h0 := if Tied(le, s0, y) then [s0] else [];
    var r := Insert(x, rest, le);
    calc {
      TiedWith(Insert(x, s, le), le, y);
      TiedWith([s0] + r, le, y);
      { TiedWithAppend([s0], r, le, y); TiedWithSingleton(s0, le, y); }
      h0 + (hx + TiedWith(rest, le, y));
      { SwapTieClasses(hx, h0, TiedWith(rest, le, y)); }
      hx + (h0 + TiedWith(rest, le, y));
      { TiedWithAppend([s0], rest, le, y); TiedWithSingleton(s0, le, y); assert s == [s0] + rest; }
      hx + TiedWith(s, le, y);
    }
  }

  lemma TiedWithSingleton<T>(z: T, le: (T, T) -> bool, y: T)
    ensures TiedWith([z], le, y) == if Tied(le, z, y) then [z] else []
  {
    assert [z][1..] == [];
  }

  /** An element x sorts after cannot share a tie class with x. */
  lemma NotBothTied<T(!new)>(x: T, z: T, le: (T, T) -> bool, y: T)
    requires TotalPreorder(le) && !le(x, z)
    ensures !(Tied(le, x, y) && Tied(le, z, y))
  {
    assert le(x, y) && le(y, z) ==> le(x, z);
  }

  /** Two at most singleton pieces of which one is empty may trade places. */
  lemma SwapTieClasses<T>(hx: seq<T>, h0: seq<T>, t: seq<T>)
    requires hx == [] || h0 == []
    ensures hx + (h0 + t) == h0 + (hx + t)
  {
    if hx == [] {
      assert hx + (h0 + t) == h0 + t == h0 + (hx + t);
    } else {
      assert h0 + (hx + t) == hx + t;
    }
  }

  /** `sorted` is stable: among elements that compare equal, the input order is kept. */
  lemma {:induction false} SortByIsStable<T(!new)>(s: seq<T>, le: (T, T) -> bool, y: T)
    requires TotalPreorder(le)
    ensures TiedWith(SortBy(s, le), le, y) == TiedWith(s, le, y)
  {
    if s != [] {
      SortByIsStable(s[1..], le, y);
      InsertTiedWith(s[0], SortBy(s[1..], le), le, y);
    }
  }

  /** In a sorted sequence, each element before position lo sorts no later than each one from lo on. */
  lemma SortedSplit<T>(s: seq<T>, le: (T, T) -> bool, lo: nat, hi: nat)
    requires SortedBy(s, le) && lo <= hi <= |s|
    ensures forall a, b :: a in s[..lo] && b in s[lo..hi] ==> le(a, b)
  {
    forall a, b | a in s[..lo] && b in s[lo..hi] ensures le(a, b) {
      var x :| 0 <= x < lo && s[..lo][x] == a;
      var y :| 0 <= y < hi - lo && s[lo..hi][y] == b;
      assert s[x] == a && s[lo + y] == b;
    }
  }
}
