/** `sort.Slice` over release names: the array is reordered in place, equal ranks in any order. */
module Sorting {
  import opened Versions

  ghost predicate Distinct(s: seq<Name>) {
    forall i, j | 0 <= i < j < |s| :: s[i] != s[j]
  }

  ghost predicate Ordered(before: Order, s: seq<Name>) {
    forall i, j | 0 <= i < j < |s| :: !before(s[j], s[i])
  }

  function Names(s: seq<Name>): set<Name> {
    set n | n in s
  }

  lemma PermutedMembers(s: seq<Name>, t: seq<Name>)
    requires multiset(s) == multiset(t)
    ensures |s| == |t|
    ensures Names(s) == Names(t)
    ensures forall n :: n in s <==> n in t
  {
    assert |s| == |multiset(s)| && |t| == |multiset(t)|;
    forall n ensures n in s <==> n in t {
      assert n in s <==> n in multiset(s);
      assert n in t <==> n in multiset(t);
    }
  }

  /** In a list without repetitions every element counts once, and conversely. */
  lemma {:induction false} DistinctCounts(s: seq<Name>)
    ensures Distinct(s) <==> forall n | n in s :: multiset(s)[n] == 1
  {
    if s != [] {
      var t, last := s[..|s| - 1], s[|s| - 1];
      assert s == t + [last];
      DistinctCounts(t);
      assert last in t <==> last in multiset(t);
      if last in t {
        var i :| 0 <= i < |t| && t[i] == last;
        assert s[i] == s[|s| - 1];
        assert multiset(s)[last] == multiset(t)[last] + 1;
      } else {
        forall n | n in s ensures multiset(s)[n] == if n == last then 1 else multiset(t)[n] { }
        if Distinct(t) {
          forall n | n in s ensures multiset(s)[n] == 1 { }
        } else {
          var n :| n in t && multiset(t)[n] != 1;
          assert n in s;
        }
      }
    }
  }

  lemma PermutedDistinct(s: seq<Name>, t: seq<Name>)
    requires multiset(s) == multiset(t) && Distinct(s)
    ensures Distinct(t)
  {
    DistinctCounts(s);
    DistinctCounts(t);
    PermutedMembers(s, t);
  }

  lemma {:induction false} DistinctSize(s: seq<Name>)
    requires Distinct(s)
    ensures |Names(s)| == |s|
  {
    if s != [] {
      var t := s[..|s| - 1];
      DistinctSize(t);
      assert Names(s) == Names(t) + {s[|s| - 1]};
    }
  }

  function Insert(before: Order, x: Name, s: seq<Name>): seq<Name> {
    if s == [] || !before(s[0], x) then [x] + s else [s[0]] + Insert(before, x, s[1..])
  }

  lemma InsertInFront(before: Order, x: Name, s: seq<Name>)
    requires WeakOrder(before) && Ordered(before, s) && (s == [] || !before(s[0], x))
    ensures Ordered(before, [x] + s)
  {
    forall j | 0 <= j < |s| ensures !before(s[j], x) {
      assert j > 0 ==> !before(s[j], s[0]);
    }
  }

  lemma InsertBehind(before: Order, x: Name, y: Name, s: seq<Name>, t: seq<Name>)
    requires WeakOrder(before) && Ordered(before, [y] + s) && before(y, x)
    requires Ordered(before, t) && multiset(t) == multiset(s) + multiset{x}
    ensures Ordered(before, [y] + t)
  {
    forall j | 0 <= j < |t| ensures !before(t[j], y) {
      assert t[j] in multiset(s) + multiset{x};
      if t[j] in s {
        var k :| 0 <= k < |s| && s[k] == t[j];
        assert ([y] + s)[k + 1] == t[j] && ([y] + s)[0] == y;
      }
    }
  }

  lemma {:induction false} InsertKeepsOrder(before: Order, x: Name, s: seq<Name>)
    requires WeakOrder(before) && Ordered(before, s)
    ensures multiset(Insert(before, x, s)) == multiset(s) + multiset{x}
    ensures Ordered(before, Insert(before, x, s))
  {
    if s == [] || !before(s[0], x) {
      InsertInFront(before, x, s);
    } else {
      InsertKeepsOrder(before, x, s[1..]);
      assert s == [s[0]] + s[1..];
      InsertBehind(before, x, s[0], s[1..], Insert(before, x, s[1..]));
    }
  }

  /** The contract of `sort.Slice`; which of several equally placed names comes first is not
      promised. */
  method SortSlice(a: array<Name>, before: Order)
    requires WeakOrder(before)
    modifies a
    ensures multiset(a[..]) == multiset(old(a[..]))
    ensures Ordered(before, a[..])
  {
    var s: seq<Name> := [];
    for n := 0 to a.Length
      invariant a[..] == old(a[..]) && multiset(s) == multiset(a[..n])
      invariant Ordered(before, s)
    {
      InsertKeepsOrder(before, a[n], s);
      s := Insert(before, a[n], s);
      assert a[..n + 1] == a[..n] + [a[n]];
    }
    assert a[..a.Length] == a[..];
    PermutedMembers(s, a[..]);
    forall i | 0 <= i < a.Length { a[i] := s[i]; }
    assert a[..] == s;
  }
}
