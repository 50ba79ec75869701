/** sortJson: the canonical form under every artifact hash and review id. */
module CanonicalJson {
  import opened StableSort
  import D = Decimal
  import N = NumberText

  datatype Json =
    | Undefined
    | Null
    | Bool(b: bool)
    | Num(n: N.Finite)
    | NotFinite
    | Str(s: string)
    | Arr(items: seq<Json>)
    | Obj(entries: seq<Entry>)

  /** An own property. An object lists its properties in the order Object.entries gives them. */
  datatype Entry = Entry(key: string, value: Json)

  /** "not greater" of the comparator, localeCompare in the source: any total preorder on strings. */
  type Comparator = (string, string) -> bool

  ghost predicate Valid(v: Json)
    decreases v
  {
    match v
    case Arr(items) => forall i :: 0 <= i < |items| ==> Valid(items[i])
    case Obj(es) => UniqueKeys(es) && forall i :: 0 <= i < |es| ==> Valid(es[i].value)
    case _ => true
  }

  ghost predicate UniqueKeys(es: seq<Entry>) {
    forall i, j :: 0 <= i < j < |es| ==> es[i].key != es[j].key
  }

  // ----- the order of own properties -----

  /** An array index: a canonical numeral below 2^32 - 1. An object lists these first, ascending. */
  predicate IsIndex(key: string) {
    D.AllDigits(key) && D.Value(key) < 0xFFFF_FFFF && key == D.Print(D.Value(key))
  }

  /** These are the numerals of the numbers up to 4294967294. */
  lemma IndexIff(key: string)
    ensures IsIndex(key) <==> exists n: nat :: n <= 4294967294 && key == D.Print(n)
  {
    if n: nat :| n <= 4294967294 && key == D.Print(n) {
      D.ValueOfPrint(n);
    }
  }

  function IndexValue(key: string): nat {
    if D.AllDigits(key) then D.Value(key) else 0
  }

  function ByKey(le: Comparator): (Entry, Entry) -> bool {
    (e: Entry, f: Entry) => le(e.key, f.key)
  }

  function ByIndex(): (Entry, Entry) -> bool {
    (e: Entry, f: Entry) => IndexValue(e.key) <= IndexValue(f.key)
  }

  function Indexed(): Entry -> bool {
    (e: Entry) => IsIndex(e.key)
  }

  function NotIndexed(): Entry -> bool {
    (e: Entry) => !IsIndex(e.key)
  }

  function Defined(): Entry -> bool {
    (e: Entry) => e.value != Undefined
  }

  /** Object.fromEntries, for entries with distinct keys. */
  function FromEntries(es: seq<Entry>): seq<Entry> {
    Sort(Filter(es, Indexed()), ByIndex()) + Filter(es, NotIndexed())
  }

  function SortJson(v: Json, le: Comparator): Json
    decreases v
  {
    match v
    case Arr(items) => Arr(seq(|items|, i requires 0 <= i < |items| => SortJson(items[i], le)))
    case Obj(es) =>
      var sorted := Sort(Filter(es, Defined()), ByKey(le));
      Chosen(es, le);
      Obj(FromEntries(seq(|sorted|, i requires 0 <= i < |sorted| =>
        (assert sorted[i] in es; Entry(sorted[i].key, SortJson(sorted[i].value, le))))))
    case _ => v
  }

  lemma Chosen(es: seq<Entry>, le: Comparator)
    ensures forall e :: e in Sort(Filter(es, Defined()), ByKey(le)) <==> e in es && e.value != Undefined
  {
    SortMembers(Filter(es, Defined()), ByKey(le));
    FilterMembers(es, Defined());
  }

  /** The entries of a sorted object, after their values have been sorted too. */
  function Mapped(es: seq<Entry>, le: Comparator): (r: seq<Entry>)
    ensures |r| == |es| && forall i :: 0 <= i < |r| ==> r[i] == Entry(es[i].key, SortJson(es[i].value, le))
  {
    seq(|es|, i requires 0 <= i < |es| => Entry(es[i].key, SortJson(es[i].value, le)))
  }

  function Entries(es: seq<Entry>, le: Comparator): seq<Entry> {
    SortJson(Obj(es), le).entries
  }

  lemma EntriesAre(es: seq<Entry>, le: Comparator)
    ensures Entries(es, le) == FromEntries(Mapped(Sort(Filter(es, Defined()), ByKey(le)), le))
  {
    var sorted := Sort(Filter(es, Defined()), ByKey(le));
    Chosen(es, le);
    assert Mapped(sorted, le) == seq(|sorted|, i requires 0 <= i < |sorted| =>
      (assert sorted[i] in es; Entry(sorted[i].key, SortJson(sorted[i].value, le))));
  }

  // ----- no property is lost, none is added -----

  lemma FromEntriesMembers(es: seq<Entry>)
    ensures forall x :: x in FromEntries(es) <==> x in es
  {
    SortMembers(Filter(es, Indexed()), ByIndex());
    FilterMembers(es, Indexed());
    FilterMembers(es, NotIndexed());
  }

  ghost predicate Comes(x: Entry, es: seq<Entry>, le: Comparator) {
    exists i :: 0 <= i < |es| && es[i].value != Undefined && x == Entry(es[i].key, SortJson(es[i].value, le))
  }

  /** The properties of a sorted object are exactly the defined ones, with their values sorted. */
  lemma KeepsProperties(es: seq<Entry>, le: Comparator)
    ensures forall x :: x in Entries(es, le) <==> Comes(x, es, le)
  {
    hide SortJson;
    EntriesAre(es, le);
    var sorted := Sort(Filter(es, Defined()), ByKey(le));
    var m := Mapped(sorted, le);
    FromEntriesMembers(m);
    Chosen(es, le);
    forall x
      ensures x in m <==> Comes(x, es, le)
    {
      if x in m {
        var i :| 0 <= i < |m| && m[i] == x;
        assert sorted[i] in es;
        var j :| 0 <= j < |es| && es[j] == sorted[i];
        assert es[j].value != Undefined;
      }
      if Comes(x, es, le) {
        var i :| 0 <= i < |es| && es[i].value != Undefined && x == Entry(es[i].key, SortJson(es[i].value, le));
        assert es[i] in sorted;
        var j :| 0 <= j < |sorted| && sorted[j] == es[i];
        assert m[j] == x;
      }
    }
  }

  lemma DefinedStays(v: Json, le: Comparator)
    ensures SortJson(v, le) == Undefined <==> v == Undefined
  {
  }

  // ----- the order of a sorted object's properties -----

  function DifferentKeys(): (Entry, Entry) -> bool {
    (e: Entry, f: Entry) => e.key != f.key
  }

  /** Array indexes first, by value; then the other names, by the comparator. */
  function Before(le: Comparator): (Entry, Entry) -> bool {
    (e: Entry, f: Entry) =>
      if IsIndex(e.key) then !IsIndex(f.key) || IndexValue(e.key) < IndexValue(f.key)
      else !IsIndex(f.key) && le(e.key, f.key) && e.key != f.key
  }

  /** The comparator tells any two different names apart, unless they are array indexes. */
  ghost predicate SeparatesNames(le: Comparator) {
    forall a, b :: !IsIndex(a) && !IsIndex(b) && le(a, b) && le(b, a) ==> a == b
  }

  lemma IndexOrder()
    ensures TotalPreorder(ByIndex())
    ensures forall a, b :: IsIndex(a) && IsIndex(b) && IndexValue(a) == IndexValue(b) ==> a == b
  {
  }

  lemma KeyOrder(le: Comparator)
    requires TotalPreorder(le)
    ensures TotalPreorder(ByKey(le))
  {
    var k := ByKey(le);
    assert forall e: Entry, f: Entry :: k(e, f) == le(e.key, f.key);
  }

  /** A sorted object is its indexes in order followed by its names in order, keys distinct. */
  lemma EntriesSorted(es: seq<Entry>, le: Comparator)
    requires UniqueKeys(es) && TotalPreorder(le)
    ensures var r := Entries(es, le); var xs, ns := Filter(r, Indexed()), Filter(r, NotIndexed());
      && r == xs + ns && UniqueKeys(r)
      && Sorted(xs, ByIndex()) && Sorted(ns, ByKey(le))
  {
    hide SortJson, IsIndex;
    EntriesAre(es, le);
    KeyOrder(le);
    var d := Filter(es, Defined());
    var sorted := Sort(d, ByKey(le));
    FilterSorted(es, DifferentKeys(), Defined());
    SortKeepsPairs(d, ByKey(le), DifferentKeys());
    SortSorted(d, ByKey(le));
    var m := Mapped(sorted, le);
    assert Sorted(m, DifferentKeys()) && Sorted(m, ByKey(le));
    FromEntriesSorted(m, le);
  }

  lemma FromEntriesSorted(m: seq<Entry>, le: Comparator)
    requires Sorted(m, DifferentKeys()) && Sorted(m, ByKey(le))
    ensures var r := FromEntries(m); var xs, ns := Filter(r, Indexed()), Filter(r, NotIndexed());
      && r == xs + ns && UniqueKeys(r)
      && Sorted(xs, ByIndex()) && Sorted(ns, ByKey(le))
  {
    hide IsIndex;
    var i, n := Filter(m, Indexed()), Filter(m, NotIndexed());
    var xs := Sort(i, ByIndex());
    FilterMembers(m, Indexed());
    FilterMembers(m, NotIndexed());
    SortMembers(i, ByIndex());
    IndexOrder();
    SortSorted(i, ByIndex());
    FilterSorted(m, DifferentKeys(), Indexed());
    FilterSorted(m, DifferentKeys(), NotIndexed());
    FilterSorted(m, ByKey(le), NotIndexed());
    SortKeepsPairs(i, ByIndex(), DifferentKeys());
    assert forall k :: 0 <= k < |xs| ==> xs[k] in xs;
    assert forall k :: 0 <= k < |n| ==> n[k] in n;
    TwoParts(xs, n);
  }

  predicate AllIndexed(es: seq<Entry>, indexed: bool) {
    forall i :: 0 <= i < |es| ==> IsIndex(es[i].key) == indexed
  }

  lemma TwoParts(xs: seq<Entry>, ns: seq<Entry>)
    requires AllIndexed(xs, true) && AllIndexed(ns, false)
    requires Sorted(xs, DifferentKeys()) && Sorted(ns, DifferentKeys())
    ensures UniqueKeys(xs + ns) && Filter(xs + ns, Indexed()) == xs && Filter(xs + ns, NotIndexed()) == ns
  {
    hide IsIndex;
    PartsFilter(xs, ns, Indexed());
    PartsFilter(ns, xs, NotIndexed());
    FilterConcat(xs, ns, Indexed());
    FilterConcat(xs, ns, NotIndexed());
    assert xs + [] == xs && [] + ns == ns;
    PartsUnique(xs, ns);
  }

  lemma PartsFilter(xs: seq<Entry>, ns: seq<Entry>, keep: Entry -> bool)
    requires (forall i :: 0 <= i < |xs| ==> keep(xs[i])) && forall i :: 0 <= i < |ns| ==> !keep(ns[i])
    ensures Filter(xs, keep) == xs && Filter(ns, keep) == []
  {
    FilterAll(xs, keep);
    FilterAll(ns, keep);
  }

  lemma PartsUnique(xs: seq<Entry>, ns: seq<Entry>)
    requires AllIndexed(xs, true) && AllIndexed(ns, false)
    requires Sorted(xs, DifferentKeys()) && Sorted(ns, DifferentKeys())
    ensures UniqueKeys(xs + ns)
  {
    hide IsIndex;
    var r := xs + ns;
    forall i, j | 0 <= i < j < |r|
      ensures r[i].key != r[j].key
    {
      if i < |xs| <= j {
        assert IsIndex(xs[i].key) && !IsIndex(ns[j - |xs|].key);
      } else if j < |xs| {
        assert DifferentKeys()(xs[i], xs[j]);
      } else {
        assert DifferentKeys()(ns[i - |xs|], ns[j - |xs|]);
      }
    }
  }

  /** When the comparator separates names, a sorted object is strictly ascending in one strict order. */
  lemma EntriesAscend(es: seq<Entry>, le: Comparator)
    requires UniqueKeys(es) && TotalPreorder(le) && SeparatesNames(le)
    ensures Asymmetric(Before(le)) && Sorted(Entries(es, le), Before(le))
  {
    hide SortJson, IsIndex, IndexValue;
    EntriesSorted(es, le);
    var r := Entries(es, le);
    FilterMembers(r, Indexed());
    FilterMembers(r, NotIndexed());
    PartsAscend(Filter(r, Indexed()), Filter(r, NotIndexed()), le);
    BeforeIsAsymmetric(le);
  }

  lemma BeforeIsAsymmetric(le: Comparator)
    requires SeparatesNames(le)
    ensures Asymmetric(Before(le))
  {
    hide IsIndex;
    forall e, f | Before(le)(e, f)
      ensures !Before(le)(f, e)
    {
      var a, b := e.key, f.key;
      assert !IsIndex(a) && !IsIndex(b) && le(a, b) && le(b, a) ==> a == b;
    }
  }

  lemma PartsAscend(xs: seq<Entry>, ns: seq<Entry>, le: Comparator)
    requires (forall x :: x in xs ==> IsIndex(x.key)) && forall x :: x in ns ==> !IsIndex(x.key)
    requires Sorted(xs, ByIndex()) && Sorted(ns, ByKey(le)) && UniqueKeys(xs + ns)
    ensures Sorted(xs + ns, Before(le))
  {
    hide IsIndex, IndexValue;
    IndexOrder();
    var r := xs + ns;
    forall i, j | 0 <= i < j < |r|
      ensures Before(le)(r[i], r[j])
    {
      assert r[i].key != r[j].key;
      if j < |xs| {
        assert r[i] in xs && r[j] in xs && ByIndex()(xs[i], xs[j]);
      } else if i < |xs| {
        assert r[i] in xs && r[j] in ns;
      } else {
        assert r[i] in ns && r[j] in ns && ByKey(le)(ns[i - |xs|], ns[j - |xs|]);
      }
    }
  }

  // ----- equality up to key order and undefined properties, told without sorting -----

  ghost predicate Equiv(a: Json, b: Json)
    decreases a
  {
    match a
    case Arr(xs) => b.Arr? && |xs| == |b.items| && forall i :: 0 <= i < |xs| ==> Equiv(xs[i], b.items[i])
    case Obj(es) =>
      && b.Obj?
      && (forall i :: 0 <= i < |es| && es[i].value != Undefined ==>
          exists j :: 0 <= j < |b.entries| && b.entries[j].value != Undefined
            && b.entries[j].key == es[i].key && Equiv(es[i].value, b.entries[j].value))
      && (forall j :: 0 <= j < |b.entries| && b.entries[j].value != Undefined ==>
          exists i :: 0 <= i < |es| && es[i].value != Undefined
            && es[i].key == b.entries[j].key && Equiv(es[i].value, b.entries[j].value))
    case _ => a == b
  }

  /** Two values have the same canonical form iff they are equal up to key order and undefined properties. */
  lemma {:induction false} SameFormIffEquiv(a: Json, b: Json, le: Comparator)
    requires Valid(a) && Valid(b) && TotalPreorder(le) && SeparatesNames(le)
    ensures Equiv(a, b) <==> SortJson(a, le) == SortJson(b, le)
    decreases a
  {
    if a.Arr? && b.Arr? {
      assert |SortJson(a, le).items| == |a.items| && |SortJson(b, le).items| == |b.items|;
      if |a.items| == |b.items| {
        forall i | 0 <= i < |a.items|
          ensures Equiv(a.items[i], b.items[i]) <==> SortJson(a.items[i], le) == SortJson(b.items[i], le)
        {
          SameFormIffEquiv(a.items[i], b.items[i], le);
        }
        SameArrays(a.items, b.items, le);
      }
    } else if a.Obj? && b.Obj? {
      var es, fs := a.entries, b.entries;
      forall i, j | 0 <= i < |es| && 0 <= j < |fs|
        ensures Equiv(es[i].value, fs[j].value) <==> SortJson(es[i].value, le) == SortJson(fs[j].value, le)
      {
        SameFormIffEquiv(es[i].value, fs[j].value, le);
      }
      SameObjects(es, fs, le);
    }
  }

  lemma SameArrays(xs: seq<Json>, ys: seq<Json>, le: Comparator)
    requires |xs| == |ys|
    requires forall i :: 0 <= i < |xs| ==> (Equiv(xs[i], ys[i]) <==> SortJson(xs[i], le) == SortJson(ys[i], le))
    ensures Equiv(Arr(xs), Arr(ys)) <==> SortJson(Arr(xs), le) == SortJson(Arr(ys), le)
  {
    var s, t := SortJson(Arr(xs), le).items, SortJson(Arr(ys), le).items;
    assert forall i :: 0 <= i < |xs| ==> s[i] == SortJson(xs[i], le) && t[i] == SortJson(ys[i], le);
    assert s == t <==> forall i :: 0 <= i < |xs| ==> s[i] == t[i];
  }

  lemma SameObjects(es: seq<Entry>, fs: seq<Entry>, le: Comparator)
    requires UniqueKeys(es) && UniqueKeys(fs) && TotalPreorder(le) && SeparatesNames(le)
    requires forall i, j :: 0 <= i < |es| && 0 <= j < |fs| ==>
      (Equiv(es[i].value, fs[j].value) <==> SortJson(es[i].value, le) == SortJson(fs[j].value, le))
    ensures Equiv(Obj(es), Obj(fs)) <==> SortJson(Obj(es), le) == SortJson(Obj(fs), le)
  {
    hide SortJson, IsIndex;
    KeepsProperties(es, le);
    KeepsProperties(fs, le);
    ObjectForms(es, le);
    ObjectForms(fs, le);
    if Equiv(Obj(es), Obj(fs)) {
      forall x
        ensures Comes(x, es, le) <==> Comes(x, fs, le)
      {
      }
      EntriesAscend(es, le);
      EntriesAscend(fs, le);
      SortedUnique(Entries(es, le), Entries(fs, le), Before(le));
    }
    if Entries(es, le) == Entries(fs, le) {
      forall i | 0 <= i < |es| && es[i].value != Undefined
        ensures exists j :: (
          0 <= j < |fs| && fs[j].value != Undefined && fs[j].key == es[i].key && Equiv(es[i].value, fs[j].value))
      {
        assert Comes(Entry(es[i].key, SortJson(es[i].value, le)), es, le);
        assert Entry(es[i].key, SortJson(es[i].value, le)) in Entries(fs, le);
      }
      forall j | 0 <= j < |fs| && fs[j].value != Undefined
        ensures exists i :: (
          0 <= i < |es| && es[i].value != Undefined && es[i].key == fs[j].key && Equiv(es[i].value, fs[j].value))
      {
        assert Comes(Entry(fs[j].key, SortJson(fs[j].value, le)), fs, le);
        assert Entry(fs[j].key, SortJson(fs[j].value, le)) in Entries(es, le);
      }
    }
  }

  lemma ObjectForms(es: seq<Entry>, le: Comparator)
    ensures SortJson(Obj(es), le) == Obj(Entries(es, le))
  {
  }

  /** Sorting gives an equivalent value, and sorting it again changes nothing: for every comparator. */
  lemma {:induction false} Idempotent(v: Json, le: Comparator)
    requires Valid(v) && TotalPreorder(le)
    ensures Valid(SortJson(v, le)) && Equiv(SortJson(v, le), v)
    ensures SortJson(SortJson(v, le), le) == SortJson(v, le)
    decreases v
  {
    match v
    case Arr(items) =>
      forall i | 0 <= i < |items|
        ensures Valid(SortJson(items[i], le)) && Equiv(SortJson(items[i], le), items[i])
        ensures SortJson(SortJson(items[i], le), le) == SortJson(items[i], le)
      {
        Idempotent(items[i], le);
      }
      IdempotentArray(items, le);
    case Obj(es) =>
      forall i | 0 <= i < |es|
        ensures Valid(SortJson(es[i].value, le)) && Equiv(SortJson(es[i].value, le), es[i].value)
        ensures SortJson(SortJson(es[i].value, le), le) == SortJson(es[i].value, le)
      {
        Idempotent(es[i].value, le);
      }
      IdempotentObject(es, le);
      ObjectForms(es, le);
      ObjectForms(Entries(es, le), le);
    case _ =>
  }

  ghost predicate Settled(v: Json, le: Comparator) {
    Valid(SortJson(v, le)) && Equiv(SortJson(v, le), v) && SortJson(SortJson(v, le), le) == SortJson(v, le)
  }

  lemma IdempotentArray(items: seq<Json>, le: Comparator)
    requires forall i :: 0 <= i < |items| ==> Settled(items[i], le)
    ensures Settled(Arr(items), le)
  {
    var s := SortJson(Arr(items), le);
    assert forall i :: 0 <= i < |items| ==> s.items[i] == SortJson(items[i], le) && Settled(items[i], le);
    assert SortJson(s, le).items == s.items;
  }

  lemma IdempotentObject(es: seq<Entry>, le: Comparator)
    requires UniqueKeys(es) && TotalPreorder(le)
    requires forall i :: 0 <= i < |es| ==> Settled(es[i].value, le)
    ensures Valid(Obj(Entries(es, le))) && Equiv(Obj(Entries(es, le)), Obj(es))
    ensures Entries(Entries(es, le), le) == Entries(es, le)
  {
    hide SortJson, IsIndex;
    var r := Entries(es, le);
    KeepsProperties(es, le);
    EntriesSorted(es, le);
    forall k | 0 <= k < |r|
      ensures Valid(r[k].value) && r[k].value != Undefined && SortJson(r[k].value, le) == r[k].value
    {
      assert r[k] in r;
      var i :| 0 <= i < |es| && es[i].value != Undefined && r[k] == Entry(es[i].key, SortJson(es[i].value, le));
      assert Settled(es[i].value, le);
      DefinedStays(es[i].value, le);
    }
    SortedObjectStays(r, le);
    SortedObjectIsEquiv(es, le);
  }

  lemma SortedObjectIsEquiv(es: seq<Entry>, le: Comparator)
    requires forall i :: 0 <= i < |es| ==> Settled(es[i].value, le)
    requires forall k :: 0 <= k < |Entries(es, le)| ==> Entries(es, le)[k].value != Undefined
    ensures Equiv(Obj(Entries(es, le)), Obj(es))
  {
    hide SortJson, IsIndex;
    var r := Entries(es, le);
    KeepsProperties(es, le);
    forall k | 0 <= k < |r| && r[k].value != Undefined
      ensures exists i :: (
        0 <= i < |es| && es[i].value != Undefined && es[i].key == r[k].key && Equiv(r[k].value, es[i].value))
    {
      assert r[k] in r;
      var i :| 0 <= i < |es| && es[i].value != Undefined && r[k] == Entry(es[i].key, SortJson(es[i].value, le));
      assert Settled(es[i].value, le);
    }
    forall i | 0 <= i < |es| && es[i].value != Undefined
      ensures exists k :: (
        0 <= k < |r| && r[k].value != Undefined && r[k].key == es[i].key && Equiv(r[k].value, es[i].value))
    {
      assert Settled(es[i].value, le);
      var x := Entry(es[i].key, SortJson(es[i].value, le));
      assert Comes(x, es, le);
      assert x in r;
      var k :| 0 <= k < |r| && r[k] == x;
    }
  }

  /** An object whose properties are in sorted order, with sorted values, is its own canonical form. */
  lemma SortedObjectStays(r: seq<Entry>, le: Comparator)
    requires TotalPreorder(le) && UniqueKeys(r)
    requires forall k :: 0 <= k < |r| ==> r[k].value != Undefined && SortJson(r[k].value, le) == r[k].value
    requires r == Filter(r, Indexed()) + Filter(r, NotIndexed())
    requires Sorted(Filter(r, Indexed()), ByIndex()) && Sorted(Filter(r, NotIndexed()), ByKey(le))
    ensures Entries(r, le) == r
  {
    hide SortJson, IsIndex;
    EntriesAre(r, le);
    FilterAll(r, Defined());
    ResortObject(r, le);
    MappedStays(r, le);
    hide Sort, FromEntries;
  }

  lemma MappedStays(r: seq<Entry>, le: Comparator)
    requires forall k :: 0 <= k < |r| ==> SortJson(r[k].value, le) == r[k].value
    ensures Mapped(Sort(r, ByKey(le)), le) == Sort(r, ByKey(le))
  {
    hide SortJson, ByKey;
    var s := Sort(r, ByKey(le));
    SortMembers(r, ByKey(le));
    forall k | 0 <= k < |s|
      ensures Mapped(s, le)[k] == s[k]
    {
      assert s[k] in r;
    }
  }

  lemma ResortObject(r: seq<Entry>, le: Comparator)
    requires TotalPreorder(le) && UniqueKeys(r)
    requires r == Filter(r, Indexed()) + Filter(r, NotIndexed())
    requires Sorted(Filter(r, Indexed()), ByIndex()) && Sorted(Filter(r, NotIndexed()), ByKey(le))
    ensures FromEntries(Sort(r, ByKey(le))) == r
  {
    hide IsIndex, IndexValue;
    KeyOrder(le);
    FilterOfSort(r, ByKey(le), Indexed());
    FilterOfSort(r, ByKey(le), NotIndexed());
    SortedStays(Filter(r, NotIndexed()), ByKey(le));
    ResortIndexes(r, le);
  }

  lemma ResortIndexes(r: seq<Entry>, le: Comparator)
    requires UniqueKeys(r) && Sorted(Filter(r, Indexed()), ByIndex())
    ensures var xs := Filter(r, Indexed()); Sort(Sort(xs, ByKey(le)), ByIndex()) == xs
  {
    hide IsIndex;
    var xs := Filter(r, Indexed());
    var t := Sort(xs, ByKey(le));
    var u := Sort(t, ByIndex());
    IndexOrder();
    FilterMembers(r, Indexed());
    SortMembers(xs, ByKey(le));
    SortMembers(t, ByIndex());
    SortSorted(t, ByIndex());
    FilterSorted(r, DifferentKeys(), Indexed());
    SortKeepsPairs(xs, ByKey(le), DifferentKeys());
    SortKeepsPairs(t, ByIndex(), DifferentKeys());
    StrictIndexes(xs);
    StrictIndexes(u);
    SortedUnique(xs, u, ByIndexStrictly());
  }

  function ByIndexStrictly(): (Entry, Entry) -> bool {
    (e: Entry, f: Entry) => IndexValue(e.key) < IndexValue(f.key)
  }

  lemma StrictIndexes(xs: seq<Entry>)
    requires Sorted(xs, ByIndex()) && Sorted(xs, DifferentKeys()) && forall x :: x in xs ==> IsIndex(x.key)
    ensures Sorted(xs, ByIndexStrictly())
  {
    hide IsIndex, IndexValue;
    IndexOrder();
    forall i, j | 0 <= i < j < |xs|
      ensures ByIndexStrictly()(xs[i], xs[j])
    {
      assert xs[i] in xs && xs[j] in xs;
      assert ByIndex()(xs[i], xs[j]) && DifferentKeys()(xs[i], xs[j]);
    }
  }

  // ----- the exact condition -----

  /** Names the comparator cannot tell apart stay in insertion order, and the canonical form shows it. */
  lemma TiedNamesKeepOrder(a: string, b: string, le: Comparator)
    requires !IsIndex(a) && !IsIndex(b) && a != b && le(a, b) && le(b, a)
    ensures var v, w := Obj([Entry(a, Null), Entry(b, Null)]), Obj([Entry(b, Null), Entry(a, Null)]);
      Valid(v) && Valid(w) && Equiv(v, w) && SortJson(v, le) != SortJson(w, le)
  {
    hide IsIndex;
    var e, f := Entry(a, Null), Entry(b, Null);
    TiedPair(e, f, le);
    TiedPair(f, e, le);
    ObjectForms([e, f], le);
    ObjectForms([f, e], le);
    assert Entries([e, f], le)[0] != Entries([f, e], le)[0];
    assert Equiv(Null, Null);
    var v, w := Obj([e, f]), Obj([f, e]);
    assert w.entries[1] == e && w.entries[0] == f && v.entries[0] == e && v.entries[1] == f;
  }

  lemma TiedPair(e: Entry, f: Entry, le: Comparator)
    requires !IsIndex(e.key) && !IsIndex(f.key) && le(e.key, f.key) && e.value == f.value == Null
    ensures Entries([e, f], le) == [e, f]
  {
    hide IsIndex;
    var es := [e, f];
    EntriesAre(es, le);
    FilterAll(es, Defined());
    assert es[1..] == [f] && [f][1..] == [];
    assert Sort([f], ByKey(le)) == [f];
    assert Sort(es, ByKey(le)) == es;
    assert Mapped(es, le) == es;
    FilterAll(es, Indexed());
    FilterAll(es, NotIndexed());
    assert Sort(Filter(es, Indexed()), ByIndex()) == [];
    assert [] + es == es;
  }

  /** The form is canonical for all values iff the comparator separates names. */
  lemma CanonicalIffSeparates(le: Comparator)
    requires TotalPreorder(le)
    ensures SeparatesNames(le) <==>
      forall v, w :: Valid(v) && Valid(w) && Equiv(v, w) ==> SortJson(v, le) == SortJson(w, le)
  {
    hide SortJson, IsIndex, Equiv, Valid;
    if SeparatesNames(le) {
      forall v, w | Valid(v) && Valid(w) && Equiv(v, w)
        ensures SortJson(v, le) == SortJson(w, le)
      {
        SameFormIffEquiv(v, w, le);
      }
    } else {
      var a, b :| !IsIndex(a) && !IsIndex(b) && le(a, b) && le(b, a) && a != b;
      TiedNamesKeepOrder(a, b, le);
    }
  }
}
