/**
 * findOrderedBootstrappers: one entry per declaration key, holding the module's order, id and
 * bootstrapper class name, sorted by order.
 */
module Bootstrappers {
  import opened Wrappers
  import opened Configuration
  import opened ModuleKey

  /** Pair<Integer, Pair<String, String>>: the order, the module id and the bootstrapper class. */
  datatype Entry = Entry(order: int, id: string, bootstrapper: string)

  /** The value the source falls back to when a declaration key has no raw value. */
  const Unknown: string := "UNKNOWN"

  /** A declaration key whose order does not fit in an int: Integer.valueOf throws on it. */
  predicate OrderOverflows(key: string) {
    IsDeclaration(key) && ParseOrder(FindDecl(key).value.digits).None?
  }

  /** The entry a declaration key yields: group 1, the value of group 2, and the raw value or "UNKNOWN". */
  function EntryOf(key: string, value: Option<string>): (e: Entry)
    requires IsDeclaration(key) && !OrderOverflows(key)
    ensures 0 <= e.order <= MaxInt
    ensures e.order == DecimalValue(FindDecl(key).value.digits)
    ensures e.id == FindDecl(key).value.id && |e.id| > 0 && AllAlnum(e.id)
    ensures value.Some? ==> e.bootstrapper == value.value
    ensures value.None? ==> e.bootstrapper == Unknown
  {
    var m := FindDecl(key).value;
    Entry(ParseOrder(m.digits).value, m.id, value.GetOr(Unknown))
  }

  /**
   * The list the loop of findOrderedBootstrappers holds after visiting the keys of `cfg`, in
   * order; None once a key's order overflowed, since the exception ends the whole operation.
   */
  function Discover(cfg: RawConfig): (r: Option<seq<Entry>>)
    ensures r.Some? ==> |r.value| <= |cfg|
    ensures r.Some? ==> forall j :: 0 <= j < |r.value| ==> 0 <= r.value[j].order <= MaxInt
    decreases |cfg|
  {
    if cfg == [] then Some([])
    else
      var before := Discover(cfg[..|cfg| - 1]);
      var (key, value) := cfg[|cfg| - 1];
      if before.None? then None
      else if !IsDeclaration(key) then before
      else if OrderOverflows(key) then None
      else Some(before.value + [EntryOf(key, value)])
  }

  /** The positions of the declaration keys, in iteration order. */
  function DeclIndices(cfg: RawConfig): seq<nat>
    decreases |cfg|
  {
    if cfg == [] then []
    else if IsDeclaration(cfg[|cfg| - 1].0) then DeclIndices(cfg[..|cfg| - 1]) + [|cfg| - 1]
    else DeclIndices(cfg[..|cfg| - 1])
  }

  /** DeclIndices lists every declaration key and nothing else, each once, in order. */
  lemma {:induction false} DeclIndicesSpec(cfg: RawConfig)
    ensures forall j :: 0 <= j < |DeclIndices(cfg)| ==> DeclIndices(cfg)[j] < |cfg|
    ensures forall j, j' :: 0 <= j < j' < |DeclIndices(cfg)| ==> DeclIndices(cfg)[j] < DeclIndices(cfg)[j']
    ensures forall k :: 0 <= k < |cfg| ==> (k in DeclIndices(cfg) <==> IsDeclaration(cfg[k].0))
    decreases |cfg|
  {
    if cfg != [] {
      var init := cfg[..|cfg| - 1];
      DeclIndicesSpec(init);
      assert forall k :: 0 <= k < |init| ==> init[k] == cfg[k];
    }
  }

  /** Once an order has overflowed, the rest of the keys cannot undo it. */
  lemma {:induction false} DiscoverAborts(cfg: RawConfig, n: nat)
    requires n <= |cfg|
    requires Discover(cfg[..n]).None?
    ensures Discover(cfg).None?
    decreases |cfg|
  {
    if n < |cfg| {
      var init := cfg[..|cfg| - 1];
      assert init[..n] == cfg[..n];
      DiscoverAborts(init, n);
    } else {
      assert cfg[..n] == cfg;
    }
  }

  /** Discovery fails exactly when some declaration key carries an order beyond the int range. */
  lemma {:induction false} DiscoverFailsIff(cfg: RawConfig)
    ensures Discover(cfg).None? <==> exists k :: 0 <= k < |cfg| && OrderOverflows(cfg[k].0)
    decreases |cfg|
  {
    if cfg != [] {
      var n := |cfg| - 1;
      var init := cfg[..n];
      DiscoverFailsIff(init);
      if Discover(cfg).None? {
        if Discover(init).None? {
          var k :| 0 <= k < |init| && OrderOverflows(init[k].0);
          assert init[k] == cfg[k];
        } else {
          assert OrderOverflows(cfg[n].0);
        }
      } else {
        forall k | 0 <= k < |cfg|
          ensures !OrderOverflows(cfg[k].0)
        {
          if k < n {
            assert init[k] == cfg[k];
          }
        }
      }
    }
  }

  /**
   * Every declaration key yields exactly one entry, in iteration order: the j-th entry comes from
   * the j-th declaration key.
   */
  lemma {:induction false} DiscoverEntries(cfg: RawConfig)
    requires Discover(cfg).Some?
    ensures |Discover(cfg).value| == |DeclIndices(cfg)|
    ensures forall j :: 0 <= j < |DeclIndices(cfg)| ==>
      var k := DeclIndices(cfg)[j];
      k < |cfg| && IsDeclaration(cfg[k].0) && !OrderOverflows(cfg[k].0) &&
      Discover(cfg).value[j] == EntryOf(cfg[k].0, cfg[k].1)
    decreases |cfg|
  {
    if cfg != [] {
      var init := cfg[..|cfg| - 1];
      DiscoverEntries(init);
      DeclIndicesSpec(init);
      assert forall k :: 0 <= k < |init| ==> init[k] == cfg[k];
    }
  }

  /* ---------------------------------------------------------------------------------------- */
  /* Collections.sort with a comparator on the order only: a stable sort.                     */
  /* ---------------------------------------------------------------------------------------- */

  predicate SortedByOrder(s: seq<Entry>) {
    forall i, j :: 0 <= i < j < |s| ==> s[i].order <= s[j].order
  }

  /** The entries with order `o`, in their relative order. */
  function WithOrder(s: seq<Entry>, o: int): seq<Entry>
    decreases |s|
  {
    if s == [] then []
    else (if s[0].order == o then [s[0]] else []) + WithOrder(s[1..], o)
  }

  /** Places `e` after every entry of smaller order and before the first of equal or larger order. */
  function Insert(e: Entry, t: seq<Entry>): seq<Entry>
    decreases |t|
  {
    if t == [] then [e]
    else if e.order <= t[0].order then [e] + t
    else [t[0]] + Insert(e, t[1..])
  }

  /** Stable sort by order, by insertion. */
  function SortByOrder(s: seq<Entry>): (r: seq<Entry>)
    ensures multiset(r) == multiset(s)
    decreases |s|
  {
    if s == [] then []
    else
      InsertAddsOne(s[0], SortByOrder(s[1..]));
      assert s == [s[0]] + s[1..];
      Insert(s[0], SortByOrder(s[1..]))
  }

  lemma {:induction false} InsertAddsOne(e: Entry, t: seq<Entry>)
    ensures multiset(Insert(e, t)) == multiset(t) + multiset{e}
    decreases |t|
  {
    if t != [] && e.order > t[0].order {
      InsertAddsOne(e, t[1..]);
      assert t == [t[0]] + t[1..];
    }
  }

  lemma {:induction false} InsertKeepsSorted(e: Entry, t: seq<Entry>)
    requires SortedByOrder(t)
    ensures SortedByOrder(Insert(e, t))
    decreases |t|
  {
    if t != [] && e.order > t[0].order {
      var r := Insert(e, t[1..]);
      InsertKeepsSorted(e, t[1..]);
      InsertAddsOne(e, t[1..]);
      forall j | 0 <= j < |r|
        ensures t[0].order <= r[j].order
      {
        assert r[j] in multiset(r);
        assert r[j] == e || r[j] in multiset(t[1..]);
      }
    }
  }

  lemma {:induction false} InsertWithOrder(e: Entry, t: seq<Entry>, o: int)
    ensures WithOrder(Insert(e, t), o) == (if e.order == o then [e] else []) + WithOrder(t, o)
    decreases |t|
  {
    if t == [] {
    } else if e.order <= t[0].order {
      assert Insert(e, t)[1..] == t;
    } else {
      var rest := Insert(e, t[1..]);
      assert Insert(e, t)[1..] == rest;
      InsertWithOrder(e, t[1..], o);
    }
  }

  /** The sorted list is ordered by order. */
  lemma {:induction false} SortIsSorted(s: seq<Entry>)
    ensures SortedByOrder(SortByOrder(s))
    decreases |s|
  {
    if s != [] {
      SortIsSorted(s[1..]);
      InsertKeepsSorted(s[0], SortByOrder(s[1..]));
    }
  }

  /** Sorting drops no entry and keeps the relative order of entries with the same order. */
  lemma {:induction false} SortIsStable(s: seq<Entry>, o: int)
    ensures WithOrder(SortByOrder(s), o) == WithOrder(s, o)
    decreases |s|
  {
    if s != [] {
      SortIsStable(s[1..], o);
      InsertWithOrder(s[0], SortByOrder(s[1..]), o);
    }
  }

  /**
   * findOrderedBootstrappers: scans every key, builds one entry per declaration key and sorts
   * the list by order. None when Integer.valueOf throws on an order beyond the int range.
   */
  method FindOrderedBootstrappers(cfg: RawConfig) returns (r: Option<seq<Entry>>)
    ensures r.None? <==> exists k :: 0 <= k < |cfg| && OrderOverflows(cfg[k].0)
    ensures r.Some? ==> Discover(cfg).Some? && r.value == SortByOrder(Discover(cfg).value)
    ensures r.Some? ==> SortedByOrder(r.value)
    ensures r.Some? ==> multiset(r.value) == multiset(Discover(cfg).value)
    ensures r.Some? ==> forall o :: WithOrder(r.value, o) == WithOrder(Discover(cfg).value, o)
  {
    DiscoverFailsIff(cfg);
    var list: seq<Entry> := [];
    var i := 0;
    while i < |cfg|
      invariant 0 <= i <= |cfg|
      invariant Discover(cfg[..i]) == Some(list)
    {
      var (key, value) := cfg[i];
      assert cfg[..i + 1][..i] == cfg[..i];
      var m := FindDecl(key);
      if m.Some? {
        var order := ParseOrder(m.value.digits);
        if order.None? {
          DiscoverAborts(cfg, i + 1);
          return None;
        }
        list := list + [Entry(order.value, m.value.id, value.GetOr(Unknown))];
      }
      i := i + 1;
    }
    assert cfg[..i] == cfg;
    SortIsSorted(list);
    forall o
      ensures WithOrder(SortByOrder(list), o) == WithOrder(list, o)
    {
      SortIsStable(list, o);
    }
    r := Some(SortByOrder(list));
  }
}
