/**
 * The ordered Map of dgo/map.go. A map is a sequence of key/value entries in
 * insertion order; replacing the value of a key keeps the key where it is.
 * `Get` answers None for an absent key, which differs from a key bound to
 * NilValue. The mutable map is the class `OrderedMap`; the operations that
 * return new maps are specified by the pure functions on entry sequences.
 */
module Maps {
  import opened Wrappers
  import opened Values

  // ---- entry sequences ----

  predicate DistinctKeys(es: seq<Entry>) {
    forall i, j :: 0 <= i < j < |es| ==> es[i].key != es[j].key
  }

  function KeysOf(es: seq<Entry>): seq<Value> {
    seq(|es|, i requires 0 <= i < |es| => es[i].key)
  }

  function ValuesOf(es: seq<Entry>): seq<Value> {
    seq(|es|, i requires 0 <= i < |es| => es[i].value)
  }

  /** The position of the first entry for `k`, or -1. */
  function IndexOf(es: seq<Entry>, k: Value): (i: int)
    ensures -1 <= i < |es|
    ensures i >= 0 ==> es[i].key == k && forall j :: 0 <= j < i ==> es[j].key != k
    ensures i < 0 ==> forall j :: 0 <= j < |es| ==> es[j].key != k
  {
    if es == [] then -1
    else if es[0].key == k then 0
    else
      var i := IndexOf(es[1..], k);
      if i < 0 then -1 else i + 1
  }

  /** Get: the value bound to `k`, None when `k` is absent. */
  function Lookup(es: seq<Entry>, k: Value): Option<Value> {
    var i := IndexOf(es, k);
    if i < 0 then None else Some(es[i].value)
  }

  /** Put on entries: a present key keeps its position and gets the new value; a new key goes last. */
  function PutEntry(es: seq<Entry>, k: Value, v: Value): seq<Entry> {
    var i := IndexOf(es, k);
    if i < 0 then es + [Entry(k, v)] else es[i := Entry(k, v)]
  }

  /** Remove on entries: every entry for `k` goes, the rest keep their order. */
  function RemoveEntry(es: seq<Entry>, k: Value): seq<Entry> {
    if es == [] then []
    else if es[0].key == k then RemoveEntry(es[1..], k)
    else [es[0]] + RemoveEntry(es[1..], k)
  }

  /** RemoveAll on entries: the keys are removed one after the other. */
  function RemoveAllEntries(es: seq<Entry>, ks: seq<Value>): seq<Entry> {
    if ks == [] then es else RemoveEntry(RemoveAllEntries(es, ks[..|ks| - 1]), ks[|ks| - 1])
  }

  /** Merge/PutAll on entries: the entries of `b` are put into `a` in order. */
  function MergeEntries(a: seq<Entry>, b: seq<Entry>): seq<Entry> {
    if b == [] then a else PutEntry(MergeEntries(a, b[..|b| - 1]), b[|b| - 1].key, b[|b| - 1].value)
  }

  /** Map on entries: every value is replaced by the mapper's result for its entry. */
  function MapValues(es: seq<Entry>, f: Entry -> Value): seq<Entry> {
    seq(|es|, i requires 0 <= i < |es| => Entry(es[i].key, f(es[i])))
  }

  // ---- what the operations promise ----

  /** With distinct keys, Get finds exactly the entries of the map. */
  lemma LookupIsMembership(es: seq<Entry>, k: Value, v: Value)
    requires DistinctKeys(es)
    ensures Lookup(es, k) == Some(v) <==> Entry(k, v) in es
  {
    if Entry(k, v) in es {
      var j :| 0 <= j < |es| && es[j] == Entry(k, v);
      assert IndexOf(es, k) == j;
    }
  }

  lemma {:induction false} IndexOfSnoc(es: seq<Entry>, e: Entry, k: Value)
    ensures IndexOf(es + [e], k) == if IndexOf(es, k) >= 0 then IndexOf(es, k) else if e.key == k then |es| else -1
    decreases |es|
  {
    if es != [] {
      assert (es + [e])[1..] == es[1..] + [e];
      IndexOfSnoc(es[1..], e, k);
    }
  }

  /** Put binds the key, leaves every other key as it was, and keeps the keys distinct and in order. */
  lemma PutSpec(es: seq<Entry>, k: Value, v: Value)
    ensures Lookup(PutEntry(es, k, v), k) == Some(v)
    ensures forall k' :: k' != k ==> Lookup(PutEntry(es, k, v), k') == Lookup(es, k')
    ensures Lookup(es, k).Some? ==> KeysOf(PutEntry(es, k, v)) == KeysOf(es)
    ensures Lookup(es, k).None? ==> KeysOf(PutEntry(es, k, v)) == KeysOf(es) + [k]
    ensures DistinctKeys(es) ==> DistinctKeys(PutEntry(es, k, v))
  {
    var r := PutEntry(es, k, v);
    var i := IndexOf(es, k);
    if i < 0 {
      IndexOfSnoc(es, Entry(k, v), k);
    } else {
      assert IndexOf(r, k) == i by {
        assert r[i].key == k;
        assert forall j :: 0 <= j < i ==> r[j].key != k;
      }
    }
    forall k' | k' != k
      ensures Lookup(r, k') == Lookup(es, k')
    {
      var i := IndexOf(es, k');
      var j := IndexOf(r, k');
      if i >= 0 {
        assert r[i].key == k';
        assert j == i;
      }
    }
  }

  /** Get on a non-empty map looks at the first entry, then at the rest. */
  lemma LookupFirst(es: seq<Entry>, k: Value)
    requires es != []
    ensures Lookup(es, k) == if es[0].key == k then Some(es[0].value) else Lookup(es[1..], k)
  {
    var i := IndexOf(es[1..], k);
    if es[0].key != k && i >= 0 {
      assert IndexOf(es, k) == i + 1;
    }
  }

  lemma {:induction false} RemoveEntryLookup(es: seq<Entry>, k: Value, k': Value)
    ensures Lookup(RemoveEntry(es, k), k') == if k' == k then None else Lookup(es, k')
    decreases |es|
  {
    if es != [] {
      var t := RemoveEntry(es[1..], k);
      RemoveEntryLookup(es[1..], k, k');
      LookupFirst(es, k');
      if es[0].key != k {
        var r := [es[0]] + t;
        assert RemoveEntry(es, k) == r;
        assert r[0] == es[0] && r[1..] == t;
        LookupFirst(r, k');
      }
    }
  }

  lemma {:induction false} RemoveEntryKeys(es: seq<Entry>, k: Value)
    ensures forall e :: e in RemoveEntry(es, k) <==> e in es && e.key != k
    ensures DistinctKeys(es) ==> DistinctKeys(RemoveEntry(es, k))
    decreases |es|
  {
    if es != [] {
      RemoveEntryKeys(es[1..], k);
      assert es == [es[0]] + es[1..];
    }
  }

  /** Remove of a key that is not bound leaves the entries as they are. */
  lemma {:induction false} RemoveEntryAbsent(es: seq<Entry>, k: Value)
    requires forall j :: 0 <= j < |es| ==> es[j].key != k
    ensures RemoveEntry(es, k) == es
    decreases |es|
  {
    if es != [] {
      RemoveEntryAbsent(es[1..], k);
      assert es == [es[0]] + es[1..];
    }
  }

  /** The entries after the first keep distinct keys, none of them the first key. */
  lemma DistinctKeysTail(es: seq<Entry>)
    requires es != [] && DistinctKeys(es)
    ensures DistinctKeys(es[1..])
    ensures forall j :: 0 <= j < |es| - 1 ==> es[1..][j].key != es[0].key
  {
    var tail := es[1..];
    forall p, q | 0 <= p < q < |tail| ensures tail[p].key != tail[q].key {
      assert es[p + 1].key != es[q + 1].key;
    }
    forall j | 0 <= j < |tail| ensures tail[j].key != es[0].key {
      assert es[0].key != es[j + 1].key;
    }
  }

  /** With distinct keys, Remove takes out exactly the one entry of the key, keeping the others in order. */
  lemma {:induction false} RemoveEntryAt(es: seq<Entry>, k: Value)
    requires DistinctKeys(es)
    ensures var i := IndexOf(es, k);
      RemoveEntry(es, k) == if i < 0 then es else es[..i] + es[i + 1..]
    decreases |es|
  {
    var i := IndexOf(es, k);
    if i < 0 {
      RemoveEntryAbsent(es, k);
    } else {
      var tail := es[1..];
      DistinctKeysTail(es);
      if i == 0 {
        RemoveEntryAbsent(tail, k);
      } else {
        RemoveEntryAt(tail, k);
        assert RemoveEntry(es, k) == [es[0]] + RemoveEntry(tail, k);
        assert tail[..i - 1] == es[1..i] && tail[i..] == es[i + 1..];
        assert es[..i] == [es[0]] + es[1..i];
      }
    }
  }

  /** After RemoveAll no given key is bound and every other key keeps its value. */
  lemma {:induction false} RemoveAllSpec(es: seq<Entry>, ks: seq<Value>, k: Value)
    ensures Lookup(RemoveAllEntries(es, ks), k) == if k in ks then None else Lookup(es, k)
    ensures DistinctKeys(es) ==> DistinctKeys(RemoveAllEntries(es, ks))
    decreases |ks|
  {
    if ks != [] {
      var n := |ks| - 1;
      RemoveAllSpec(es, ks[..n], k);
      RemoveEntryLookup(RemoveAllEntries(es, ks[..n]), ks[n], k);
      RemoveEntryKeys(RemoveAllEntries(es, ks[..n]), ks[n]);
      assert ks == ks[..n] + [ks[n]];
    }
  }

  /** Merge: the argument's value wins on a shared key; every other key keeps its value from the receiver. */
  lemma {:induction false} MergeLookup(a: seq<Entry>, b: seq<Entry>, k: Value)
    requires DistinctKeys(b)
    ensures Lookup(MergeEntries(a, b), k) == if Lookup(b, k).Some? then Lookup(b, k) else Lookup(a, k)
    ensures DistinctKeys(a) ==> DistinctKeys(MergeEntries(a, b))
    decreases |b|
  {
    if b != [] {
      var n := |b| - 1;
      var front := b[..n];
      assert DistinctKeys(front);
      MergeLookup(a, front, k);
      PutSpec(MergeEntries(a, front), b[n].key, b[n].value);
      assert b == front + [b[n]];
      IndexOfSnoc(front, b[n], k);
    }
  }

  /** Merge keeps the receiver's keys first and in their order. */
  lemma {:induction false} MergeKeepsOrder(a: seq<Entry>, b: seq<Entry>)
    ensures |KeysOf(MergeEntries(a, b))| >= |a|
    ensures KeysOf(MergeEntries(a, b))[..|a|] == KeysOf(a)
    decreases |b|
  {
    if b != [] {
      var n := |b| - 1;
      var m := MergeEntries(a, b[..n]);
      MergeKeepsOrder(a, b[..n]);
      PutSpec(m, b[n].key, b[n].value);
      assert KeysOf(MergeEntries(a, b))[..|m|] == KeysOf(m);
    }
  }

  /** Map keeps the keys and their order, and binds each key to the mapper's result for its entry. */
  lemma MapValuesSpec(es: seq<Entry>, f: Entry -> Value, k: Value)
    ensures KeysOf(MapValues(es, f)) == KeysOf(es)
    ensures Lookup(MapValues(es, f), k) == if Lookup(es, k).Some? then Some(f(Entry(k, Lookup(es, k).value))) else None
  {
    var r := MapValues(es, f);
    var i := IndexOf(es, k);
    if i >= 0 {
      assert r[i].key == k;
      assert IndexOf(r, k) == i;
    } else {
      assert IndexOf(r, k) < 0;
    }
  }

  /** A key bound to nil is present: Get tells it apart from an absent key. */
  lemma NilBoundIsNotAbsent(es: seq<Entry>, k: Value)
    ensures Lookup(PutEntry(es, k, NilValue), k) == Some(NilValue) != None
  {
    PutSpec(es, k, NilValue);
  }

  /** With distinct keys, the i-th entry is what Get answers for its key. */
  lemma LookupAtEach(es: seq<Entry>)
    ensures DistinctKeys(es) ==> forall i :: 0 <= i < |es| ==> Lookup(es, es[i].key) == Some(es[i].value)
  {
    if DistinctKeys(es) {
      forall i | 0 <= i < |es|
        ensures Lookup(es, es[i].key) == Some(es[i].value)
      {
        var j := IndexOf(es, es[i].key);
        assert j == i by {
          if j < i {
            assert es[j].key == es[i].key;
          }
        }
      }
    }
  }

  lemma LookupIsMembershipAll(es: seq<Entry>)
    requires DistinctKeys(es)
    ensures forall k, v :: Lookup(es, k) == Some(v) <==> Entry(k, v) in es
  {
    forall k, v
      ensures Lookup(es, k) == Some(v) <==> Entry(k, v) in es
    {
      LookupIsMembership(es, k, v);
    }
  }

  // ---- the mutable map ----

  class OrderedMap {
    var entries: seq<Entry>
    var frozen: bool

    ghost predicate Valid()
      reads this
    {
      DistinctKeys(entries)
    }

    constructor (es: seq<Entry>, frozen: bool)
      requires DistinctKeys(es)
      ensures Valid() && entries == es && this.frozen == frozen
    {
      entries := es;
      this.frozen := frozen;
    }

    /** Get: the value bound to `k`; None exactly when `k` is not among the keys. */
    function Get(k: Value): (r: Option<Value>)
      reads this
      ensures r.Some? <==> k in Keys()
      ensures r.Some? ==> Entry(k, r.value) in entries
    {
      var i := IndexOf(entries, k);
      assert i >= 0 ==> Keys()[i] == k;
      assert k in Keys() ==> exists j :: 0 <= j < |entries| && entries[j].key == k;
      Lookup(entries, k)
    }

    /** Len: the number of associations, one per key. */
    function Len(): (n: nat)
      reads this
      ensures n == |Keys()| == |Values()|
    {
      |entries|
    }

    /** A snapshot of the keys, in order; each of them is bound. */
    function Keys(): (ks: seq<Value>)
      reads this
      ensures |ks| == |entries|
      ensures forall i :: 0 <= i < |ks| ==> ks[i] == entries[i].key
    {
      KeysOf(entries)
    }

    /** A snapshot of the values, in the order of their keys: with distinct keys, Get of the i-th key answers the i-th value. */
    function Values(): (vs: seq<Value>)
      reads this
      ensures |vs| == |entries|
      ensures DistinctKeys(entries) ==> forall i :: 0 <= i < |vs| ==> Lookup(entries, entries[i].key) == Some(vs[i])
    {
      LookupAtEach(entries);
      ValuesOf(entries)
    }

    /** A snapshot of the entries: with distinct keys, exactly the associations Get answers. */
    function Entries(): (es: seq<Entry>)
      reads this
      ensures |es| == Len()
      ensures forall i :: 0 <= i < |es| ==> es[i] == entries[i]
      ensures DistinctKeys(entries) ==> forall k, v :: Get(k) == Some(v) <==> Entry(k, v) in es
    {
      if DistinctKeys(entries) then LookupIsMembershipAll(entries); entries else entries
    }

    method Find(k: Value) returns (i: int)
      ensures i == IndexOf(entries, k)
    {
      i := 0;
      while i < |entries| && entries[i].key != k
        invariant 0 <= i <= |entries|
        invariant forall j :: 0 <= j < i ==> entries[j].key != k
      {
        i := i + 1;
      }
      if i == |entries| {
        i := -1;
      }
    }

    /** Put: binds `k` to `v` and answers the previous value; a frozen map refuses (Go panics). */
    method Put(k: Value, v: Value) returns (prev: Option<Value>)
      requires Valid() && !frozen
      modifies this
      ensures Valid() && !frozen
      ensures entries == PutEntry(old(entries), k, v)
      ensures prev == Lookup(old(entries), k)
    {
      PutSpec(entries, k, v);
      var i := Find(k);
      if i < 0 {
        prev := None;
        entries := entries + [Entry(k, v)];
      } else {
        prev := Some(entries[i].value);
        entries := entries[i := Entry(k, v)];
      }
    }

    /** PutAll: every entry of `m` is put, in order; `m` may be this map itself. */
    method PutAll(m: OrderedMap)
      requires Valid() && !frozen
      modifies this
      ensures Valid() && !frozen
      ensures entries == MergeEntries(old(entries), old(m.entries))
    {
      var src := m.entries;
      ghost var start := entries;
      var i := 0;
      while i < |src|
        invariant 0 <= i <= |src|
        invariant Valid() && !frozen
        invariant entries == MergeEntries(start, src[..i])
      {
        assert src[..i + 1][..i] == src[..i];
        var _ := Put(src[i].key, src[i].value);
        i := i + 1;
      }
      assert src[..i] == src;
    }

    /** Remove: afterwards `k` has no association; answers the previous value; a frozen map refuses. */
    method Remove(k: Value) returns (prev: Option<Value>)
      requires Valid() && !frozen
      modifies this
      ensures Valid() && !frozen
      ensures entries == RemoveEntry(old(entries), k)
      ensures prev == Lookup(old(entries), k)
    {
      RemoveEntryAt(entries, k);
      RemoveEntryKeys(entries, k);
      var i := Find(k);
      if i < 0 {
        prev := None;
      } else {
        prev := Some(entries[i].value);
        entries := entries[..i] + entries[i + 1..];
      }
    }

    /** RemoveAll: afterwards none of the keys has an association; a frozen map refuses. */
    method RemoveAll(ks: seq<Value>)
      requires Valid() && !frozen
      modifies this
      ensures Valid() && !frozen
      ensures entries == RemoveAllEntries(old(entries), ks)
    {
      ghost var start := entries;
      var i := 0;
      while i < |ks|
        invariant 0 <= i <= |ks|
        invariant Valid() && !frozen
        invariant entries == RemoveAllEntries(start, ks[..i])
      {
        assert ks[..i + 1][..i] == ks[..i];
        var _ := Remove(ks[i]);
        i := i + 1;
      }
      assert ks[..i] == ks;
    }

    /**
     * Copy: a frozen copy of a frozen map is the map itself; otherwise a new
     * map with the same entries whose frozen state is the argument.
     */
    method Copy(frozen: bool) returns (m: OrderedMap)
      requires Valid()
      ensures this.frozen && frozen ==> m == this
      ensures !(this.frozen && frozen) ==> fresh(m) && m.entries == entries && m.frozen == frozen
      ensures m.Valid()
    {
      if this.frozen && frozen {
        m := this;
      } else {
        m := new OrderedMap(entries, frozen);
      }
    }

    /** With: a new map with `k` bound to `v`, as frozen as this one. */
    method With(k: Value, v: Value) returns (m: OrderedMap)
      requires Valid()
      ensures fresh(m) && m.Valid() && m.frozen == frozen
      ensures m.entries == PutEntry(entries, k, v)
    {
      m := new OrderedMap(entries, false);
      var _ := m.Put(k, v);
      m.frozen := frozen;
    }

    /** Without: a new map in which `k` has no association. */
    method Without(k: Value) returns (m: OrderedMap)
      requires Valid()
      ensures fresh(m) && m.Valid() && m.frozen == frozen
      ensures m.entries == RemoveEntry(entries, k)
    {
      m := new OrderedMap(entries, false);
      var _ := m.Remove(k);
      m.frozen := frozen;
    }

    /** WithoutAll: a new map in which none of the keys has an association. */
    method WithoutAll(ks: seq<Value>) returns (m: OrderedMap)
      requires Valid()
      ensures fresh(m) && m.Valid() && m.frozen == frozen
      ensures m.entries == RemoveAllEntries(entries, ks)
    {
      m := new OrderedMap(entries, false);
      m.RemoveAll(ks);
      m.frozen := frozen;
    }

    /** Merge: a new map with the entries of both; the argument's values win. */
    method Merge(other: OrderedMap) returns (m: OrderedMap)
      requires Valid()
      ensures fresh(m) && m.Valid() && m.frozen == frozen
      ensures m.entries == MergeEntries(entries, other.entries)
    {
      m := new OrderedMap(entries, false);
      m.PutAll(other);
      m.frozen := frozen;
    }

    /** Map: a new map with the same keys, each value replaced by the mapper's result. */
    method Map(f: Entry -> Value) returns (m: OrderedMap)
      requires Valid()
      ensures fresh(m) && m.Valid() && m.frozen == frozen
      ensures m.entries == MapValues(entries, f)
    {
      var es := entries;
      var out: seq<Entry> := [];
      var i := 0;
      while i < |es|
        invariant 0 <= i <= |es|
        invariant out == MapValues(es[..i], f)
      {
        out := out + [Entry(es[i].key, f(es[i]))];
        i := i + 1;
      }
      assert es[..i] == es;
      assert DistinctKeys(out) by {
        forall a, b | 0 <= a < b < |out| ensures out[a].key != out[b].key {
          assert out[a].key == es[a].key && out[b].key == es[b].key;
        }
      }
      m := new OrderedMap(out, frozen);
    }

    /** All: the predicate holds for every entry. */
    method All(p: Entry -> bool) returns (r: bool)
      ensures r <==> forall i :: 0 <= i < |entries| ==> p(entries[i])
    {
      var i := 0;
      while i < |entries|
        invariant 0 <= i <= |entries|
        invariant forall j :: 0 <= j < i ==> p(entries[j])
      {
        if !p(entries[i]) {
          return false;
        }
        i := i + 1;
      }
      return true;
    }

    /** Any: the predicate holds for some entry. */
    method Any(p: Entry -> bool) returns (r: bool)
      ensures r <==> exists i :: 0 <= i < |entries| && p(entries[i])
    {
      var i := 0;
      while i < |entries|
        invariant 0 <= i <= |entries|
        invariant forall j :: 0 <= j < i ==> !p(entries[j])
      {
        if p(entries[i]) {
          return true;
        }
        i := i + 1;
      }
      return false;
    }
  }
}
