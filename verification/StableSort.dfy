/** Array.prototype.sort, which is stable (section 23.1.3.30 of ECMA-262), as insertion sort. */
module StableSort {
  /** "not greater" for a comparator: any two elements compare, and consistently. */
  ghost predicate TotalPreorder<T(!new)>(le: (T, T) -> bool) {
    (forall a, b :: le(a, b) || le(b, a)) && (forall a, b, c :: le(a, b) && le(b, c) ==> le(a, c))
  }

  function Insert<T>(x: T, s: seq<T>, le: (T, T) -> bool): (r: seq<T>)
    ensures |r| == |s| + 1
  {
    if s == [] || le(x, s[0]) then [x] + s else [s[0]] + Insert(x, s[1..], le)
  }

  function Sort<T>(s: seq<T>, le: (T, T) -> bool): (r: seq<T>)
    ensures |r| == |s|
  {
    if s == [] then [] else Insert(s[0], Sort(s[1..], le), le)
  }

  function Filter<T>(s: seq<T>, keep: T -> bool): (r: seq<T>)
    ensures |r| <= |s|
  {
    if s == [] then []
    else if keep(s[0]) then [s[0]] + Filter(s[1..], keep) else Filter(s[1..], keep)
  }

  lemma {:induction false} FilterMembers<T(!new)>(s: seq<T>, keep: T -> bool)
    ensures forall x :: x in Filter(s, keep) <==> x in s && keep(x)
  {
    if s == [] {
    } else {
      FilterMembers(s[1..], keep);
      assert forall x :: x in s <==> x == s[0] || x in s[1..];
    }
  }

  ghost predicate Sorted<T>(s: seq<T>, le: (T, T) -> bool) {
    forall i, j :: 0 <= i < j < |s| ==> le(s[i], s[j])
  }

  lemma {:induction false} InsertHas<T>(x: T, s: seq<T>, le: (T, T) -> bool)
    ensures multiset(Insert(x, s, le)) == multiset{x} + multiset(s)
  {
    if s == [] || le(x, s[0]) {
    } else {
      InsertHas(x, s[1..], le);
      assert s == [s[0]] + s[1..];
    }
  }

  lemma {:induction false} SortHas<T>(s: seq<T>, le: (T, T) -> bool)
    ensures multiset(Sort(s, le)) == multiset(s)
  {
    if s == [] {
    } else {
      SortHas(s[1..], le);
      InsertHas(s[0], Sort(s[1..], le), le);
      assert s == [s[0]] + s[1..];
    }
  }

  lemma SortMembers<T(!new)>(s: seq<T>, le: (T, T) -> bool)
    ensures forall x :: x in Sort(s, le) <==> x in s
  {
    SortHas(s, le);
    assert forall x :: x in Sort(s, le) <==> x in multiset(Sort(s, le));
    assert forall x :: x in s <==> x in multiset(s);
  }

  lemma {:induction false} InsertSorted<T(!new)>(x: T, s: seq<T>, le: (T, T) -> bool)
    requires TotalPreorder(le) && Sorted(s, le)
    ensures Sorted(Insert(x, s, le), le)
    ensures forall y {:trigger le(y, x)} :: le(y, x) && (forall i :: 0 <= i < |s| ==> le(y, s[i])) ==>
      forall i :: 0 <= i < |s| + 1 ==> le(y, Insert(x, s, le)[i])
  {
    if s != [] && !le(x, s[0]) {
      var rest := s[1..];
      InsertSorted(x, rest, le);
      assert le(s[0], x) && forall i :: 0 <= i < |rest| ==> le(s[0], rest[i]);
      var r := Insert(x, rest, le);
      assert forall i :: 0 <= i < |r| ==> le(s[0], r[i]);
      assert Insert(x, s, le) == [s[0]] + r;
      forall y | le(y, x) && (forall i :: 0 <= i < |s| ==> le(y, s[i]))
        ensures forall i :: 0 <= i < |s| + 1 ==> le(y, Insert(x, s, le)[i])
      {
        assert forall i :: 0 <= i < |rest| ==> rest[i] == s[i + 1] && le(y, rest[i]);
      }
    } else {
      forall i | 0 <= i < |s|
        ensures le(x, s[i])
      {
        assert le(x, s[0]) && (i == 0 || le(s[0], s[i]));
        if i == 0 {
        } else {
          assert le(x, s[i]);
        }
      }
    }
  }

  lemma {:induction false} SortSorted<T(!new)>(s: seq<T>, le: (T, T) -> bool)
    requires TotalPreorder(le)
    ensures Sorted(Sort(s, le), le)
  {
    if s == [] {
    } else {
      SortSorted(s[1..], le);
      InsertSorted(s[0], Sort(s[1..], le), le);
    }
  }

  /** Sorting what is sorted changes nothing, also among elements that compare equal. */
  lemma {:induction false} SortedStays<T>(s: seq<T>, le: (T, T) -> bool)
    requires Sorted(s, le)
    ensures Sort(s, le) == s
  {
    if s == [] {
    } else {
      SortedStays(s[1..], le);
      if |s| > 1 {
        assert le(s[0], s[1..][0]);
      }
      assert s == [s[0]] + s[1..];
    }
  }

  lemma {:induction false} FilterOfInsert<T(!new)>(x: T, s: seq<T>, le: (T, T) -> bool, keep: T -> bool)
    requires TotalPreorder(le) && Sorted(s, le)
    ensures Filter(Insert(x, s, le), keep) == if keep(x) then Insert(x, Filter(s, keep), le) else Filter(s, keep)
  {
    FilterMembers(s, keep);
    if s == [] {
    } else if le(x, s[0]) {
      assert Insert(x, s, le)[1..] == s;
      var f := Filter(s, keep);
      if f != [] {
        assert f[0] in s;
        var i :| 0 <= i < |s| && s[i] == f[0];
        assert i == 0 || le(s[0], s[i]);
      }
    } else {
      var r := Insert(x, s, le);
      assert r[0] == s[0] && r[1..] == Insert(x, s[1..], le);
      FilterOfInsert(x, s[1..], le, keep);
      var f := Filter(s[1..], keep);
      assert ([s[0]] + f)[1..] == f;
    }
  }

  /** Picking some elements commutes with stable sorting. */
  lemma {:induction false} FilterOfSort<T(!new)>(s: seq<T>, le: (T, T) -> bool, keep: T -> bool)
    requires TotalPreorder(le)
    ensures Filter(Sort(s, le), keep) == Sort(Filter(s, keep), le)
  {
    if s == [] {
    } else {
      FilterOfSort(s[1..], le, keep);
      SortSorted(s[1..], le);
      FilterOfInsert(s[0], Sort(s[1..], le), le, keep);
      if keep(s[0]) {
        assert Filter(s, keep)[1..] == Filter(s[1..], keep);
      }
    }
  }

  lemma {:induction false} FilterAll<T>(s: seq<T>, keep: T -> bool)
    ensures (forall i :: 0 <= i < |s| ==> keep(s[i])) ==> Filter(s, keep) == s
    ensures (forall i :: 0 <= i < |s| ==> !keep(s[i])) ==> Filter(s, keep) == []
  {
    if s == [] {
    } else {
      FilterAll(s[1..], keep);
      assert s == [s[0]] + s[1..];
    }
  }

  lemma {:induction false} FilterConcat<T>(s: seq<T>, t: seq<T>, keep: T -> bool)
    ensures Filter(s + t, keep) == Filter(s, keep) + Filter(t, keep)
  {
    if s == [] {
      assert s + t == t;
    } else {
      assert (s + t)[1..] == s[1..] + t;
      FilterConcat(s[1..], t, keep);
    }
  }

  lemma {:induction false} FilterSorted<T(!new)>(s: seq<T>, le: (T, T) -> bool, keep: T -> bool)
    requires Sorted(s, le)
    ensures Sorted(Filter(s, keep), le)
  {
    if s == [] {
    } else {
      FilterSorted(s[1..], le, keep);
      FilterMembers(s[1..], keep);
      var f := Filter(s[1..], keep);
      forall i | 0 <= i < |f|
        ensures le(s[0], f[i])
      {
        assert f[i] in s[1..];
      }
    }
  }

  /** A relation that does not care about order between any two elements survives sorting. */
  lemma {:induction false} SortKeepsPairs<T(!new)>(s: seq<T>, le: (T, T) -> bool, rel: (T, T) -> bool)
    requires Sorted(s, rel) && forall a, b :: rel(a, b) ==> rel(b, a)
    ensures Sorted(Sort(s, le), rel)
  {
    if s == [] {
    } else {
      SortKeepsPairs(s[1..], le, rel);
      SortMembers(s[1..], le);
      var t := Sort(s[1..], le);
      forall i | 0 <= i < |t|
        ensures rel(s[0], t[i])
      {
        assert t[i] in s[1..];
      }
      InsertKeepsPairs(s[0], t, le, rel);
    }
  }

  lemma {:induction false} InsertKeepsPairs<T(!new)>(x: T, s: seq<T>, le: (T, T) -> bool, rel: (T, T) -> bool)
    requires Sorted(s, rel) && (forall a, b :: rel(a, b) ==> rel(b, a)) && forall i :: 0 <= i < |s| ==> rel(x, s[i])
    ensures Sorted(Insert(x, s, le), rel)
  {
    if s == [] || le(x, s[0]) {
    } else {
      InsertKeepsPairs(x, s[1..], le, rel);
      InsertHas(x, s[1..], le);
      var r := Insert(x, s[1..], le);
      forall i | 0 <= i < |r|
        ensures rel(s[0], r[i])
      {
        assert r[i] in multiset(r);
        assert r[i] == x || r[i] in s[1..];
      }
    }
  }

  // ----- strict orders -----

  ghost predicate Asymmetric<T(!new)>(lt: (T, T) -> bool) {
    forall a, b :: lt(a, b) ==> !lt(b, a)
  }

  /** A sequence sorted by a strict order is determined by its set of elements. */
  lemma {:induction false} SortedUnique<T(!new)>(s: seq<T>, t: seq<T>, lt: (T, T) -> bool)
    requires Asymmetric(lt) && Sorted(s, lt) && Sorted(t, lt)
    requires forall x :: x in s <==> x in t
    ensures s == t
  {
    assert t != [] ==> t[0] in t;
    if s == [] {
    } else {
      assert s[0] in s;
      HeadFirst(t, s[0], lt);
      HeadFirst(s, t[0], lt);
      assert s[0] == t[0];
      var s', t' := s[1..], t[1..];
      forall x
        ensures x in s' <==> x in t'
      {
        HeadApart(s, x, lt);
        HeadApart(t, x, lt);
      }
      SortedUnique(s', t', lt);
      assert s == [s[0]] + s' && t == [t[0]] + t';
    }
  }

  lemma HeadFirst<T>(s: seq<T>, x: T, lt: (T, T) -> bool)
    requires Sorted(s, lt) && x in s
    ensures s != [] && (x == s[0] || lt(s[0], x))
  {
    var i :| 0 <= i < |s| && s[i] == x;
  }

  lemma HeadApart<T(!new)>(s: seq<T>, x: T, lt: (T, T) -> bool)
    requires Asymmetric(lt) && Sorted(s, lt) && s != []
    ensures x in s[1..] <==> x in s && x != s[0]
  {
    if x in s[1..] {
      var i :| 0 <= i < |s[1..]| && s[1..][i] == x;
      assert lt(s[0], s[i + 1]);
    }
  }
}
