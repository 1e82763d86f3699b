/**
 The `BTreeMap<String, Vec<u8>>` behind the mock database, as a list of entries
 kept in strictly ascending key order. `Get` is its view as a finite map; the
 operations are `BTreeMap::insert`, `BTreeMap::remove` and the in-order traversal
 of a range or of any key filter.
 */
module OrderedMap {
  import opened Wrappers
  import opened Strings

  type Bytes = seq<bv8>

  datatype Entry = Entry(key: string, value: Bytes)

  /** Keys strictly ascend, so no key occurs twice. */
  predicate Sorted(es: seq<Entry>)
  {
    forall i, j :: 0 <= i < j < |es| ==> Below(es[i].key, es[j].key)
  }

  predicate HasKey(es: seq<Entry>, k: string)
  {
    exists i :: 0 <= i < |es| && es[i].key == k
  }

  /** Every key of `es` sorts strictly after `lo`. */
  predicate AllAbove(lo: string, es: seq<Entry>)
  {
    forall i :: 0 <= i < |es| ==> Below(lo, es[i].key)
  }

  /** The value stored under `k`, if any: `BTreeMap::get`. */
  function Get(es: seq<Entry>, k: string): (r: Option<Bytes>)
    ensures r.Some? <==> HasKey(es, k)
    ensures r.Some? ==> exists i :: 0 <= i < |es| && es[i] == Entry(k, r.value)
  {
    if |es| == 0 then None
    else if es[0].key == k then Some(es[0].value)
    else
      var r := Get(es[1..], k);
      assert r.Some? ==> exists i :: 0 <= i < |es| - 1 && es[1..][i] == Entry(k, r.value);
      r
  }

  lemma SortedTail(es: seq<Entry>)
    requires Sorted(es) && |es| > 0
    ensures Sorted(es[1..]) && AllAbove(es[0].key, es[1..])
  {
    assert forall i :: 0 <= i < |es| - 1 ==> es[1..][i] == es[i + 1];
  }

  lemma SortedCons(e: Entry, es: seq<Entry>)
    requires Sorted(es) && AllAbove(e.key, es)
    ensures Sorted([e] + es)
  {
    var s := [e] + es;
    forall i, j | 0 <= i < j < |s|
      ensures Below(s[i].key, s[j].key)
    {
      assert s[j] == es[j - 1];
      if i > 0 {
        assert s[i] == es[i - 1];
      }
    }
  }

  /** In a sorted list a key found at the head occurs nowhere else. */
  lemma {:induction false} GetHead(es: seq<Entry>, k: string)
    requires Sorted(es) && |es| > 0
    ensures Get(es, k) == if es[0].key == k then Some(es[0].value) else Get(es[1..], k)
    ensures es[0].key == k ==> Get(es[1..], k) == None
  {
    SortedTail(es);
    if es[0].key == k && HasKey(es[1..], k) {
      var i :| 0 <= i < |es[1..]| && es[1..][i].key == k;
      BelowIrreflexive(k);
    }
  }

  /** In a sorted list every entry is what `Get` finds under its key. */
  lemma GetAt(es: seq<Entry>, i: int)
    requires Sorted(es) && 0 <= i < |es|
    ensures Get(es, es[i].key) == Some(es[i].value)
  {
    var k := es[i].key;
    assert HasKey(es, k);
    var j :| 0 <= j < |es| && es[j] == Entry(k, Get(es, k).value);
    if j != i {
      BelowIrreflexive(k);
    }
  }

  /**
   Stores `v` under `k` and returns the value it replaced, as `BTreeMap::insert`
   does; no other key changes.
   */
  function Insert(es: seq<Entry>, k: string, v: Bytes): (r: (seq<Entry>, Option<Bytes>))
    requires Sorted(es)
    ensures Sorted(r.0)
    ensures r.1 == Get(es, k)
    ensures Get(r.0, k) == Some(v)
    ensures forall k' :: k' != k ==> Get(r.0, k') == Get(es, k')
    ensures |r.0| == if r.1.Some? then |es| else |es| + 1
  {
    if |es| == 0 then
      ([Entry(k, v)], None)
    else
      SortedTail(es);
      GetHead(es, k);
      if es[0].key == k then
        SortedCons(Entry(k, v), es[1..]);
        ([Entry(k, v)] + es[1..], Some(es[0].value))
      else if Below(k, es[0].key) then
        AllAboveWeaken(k, es[0].key, es[1..]);
        SortedCons(Entry(k, v), es);
        NotBelowHead(es, k);
        ([Entry(k, v)] + es, None)
      else
        BelowTotal(k, es[0].key);
        var rest := Insert(es[1..], k, v);
        AllAboveFromGet(es[0].key, rest.0, es[1..], k);
        SortedCons(es[0], rest.0);
        ([es[0]] + rest.0, rest.1)
  }

  /** A key sorting before the head of a sorted list is not in it. */
  lemma NotBelowHead(es: seq<Entry>, k: string)
    requires Sorted(es) && |es| > 0 && Below(k, es[0].key)
    ensures !HasKey(es, k)
  {
    if HasKey(es, k) {
      var i :| 0 <= i < |es| && es[i].key == k;
      if i > 0 {
        BelowAsymmetric(es[0].key, es[i].key);
      }
      BelowIrreflexive(k);
    }
  }

  /**
   A list that agrees with `ys` on every key but `k` has all its keys above `lo`
   when `ys` does, provided `k` is above `lo` or absent.
   */
  lemma AllAboveFromGet(lo: string, xs: seq<Entry>, ys: seq<Entry>, k: string)
    requires AllAbove(lo, ys) && (Below(lo, k) || !HasKey(xs, k))
    requires forall k' :: k' != k ==> Get(xs, k') == Get(ys, k')
    ensures AllAbove(lo, xs)
  {
    forall i | 0 <= i < |xs|
      ensures Below(lo, xs[i].key)
    {
      var key := xs[i].key;
      assert HasKey(xs, key);
      if key != k {
        assert Get(ys, key).Some?;
        var j :| 0 <= j < |ys| && ys[j].key == key;
      }
    }
  }

  lemma AllAboveWeaken(lo: string, mid: string, es: seq<Entry>)
    requires Below(lo, mid) && AllAbove(mid, es)
    ensures AllAbove(lo, es)
  {
    forall i | 0 <= i < |es|
      ensures Below(lo, es[i].key)
    {
      BelowTransitive(lo, mid, es[i].key);
    }
  }

  /**
   Deletes `k` and returns the value it held, as `BTreeMap::remove` does; no other
   key changes.
   */
  function Remove(es: seq<Entry>, k: string): (r: (seq<Entry>, Option<Bytes>))
    requires Sorted(es)
    ensures Sorted(r.0)
    ensures r.1 == Get(es, k)
    ensures Get(r.0, k) == None
    ensures forall k' :: k' != k ==> Get(r.0, k') == Get(es, k')
    ensures |r.0| == if r.1.Some? then |es| - 1 else |es|
  {
    if |es| == 0 then
      (es, None)
    else
      SortedTail(es);
      GetHead(es, k);
      if es[0].key == k then
        (es[1..], Some(es[0].value))
      else
        var rest := Remove(es[1..], k);
        AllAboveFromGet(es[0].key, rest.0, es[1..], k);
        SortedCons(es[0], rest.0);
        ([es[0]] + rest.0, rest.1)
  }

  /**
   The entries whose key satisfies `keep`, in the original order: what an in-order
   traversal restricted to those keys visits.
   */
  function Select(es: seq<Entry>, keep: string -> bool): (r: seq<Entry>)
    requires Sorted(es)
    ensures Sorted(r)
    ensures forall i :: 0 <= i < |r| ==> keep(r[i].key)
    ensures forall k :: Get(r, k) == if keep(k) then Get(es, k) else None
    ensures forall lo :: AllAbove(lo, es) ==> AllAbove(lo, r)
  {
    if |es| == 0 then []
    else
      SortedTail(es);
      var rest := Select(es[1..], keep);
      assert forall k :: Get(es, k) == if es[0].key == k then Some(es[0].value) else Get(es[1..], k) by {
        forall k { GetHead(es, k); }
      }
      assert forall lo :: AllAbove(lo, es) ==> AllAbove(lo, es[1..]);
      if keep(es[0].key) then
        SortedCons(es[0], rest);
        var r := [es[0]] + rest;
        assert r[1..] == rest;
        assert forall k :: Get(r, k) == if r[0].key == k then Some(r[0].value) else Get(rest, k) by {
          forall k { GetHead(r, k); }
        }
        r
      else
        rest
  }

  predicate InRange(lo: string, hi: string, k: string)
  {
    AtMost(lo, k) && Below(k, hi)
  }

  /**
   The entries with `lo <= key < hi` in ascending order: `BTreeMap::range` with an
   included lower and an excluded upper bound. For reversed bounds (`hi < lo`)
   this gives `[]`, where the standard library panics; that panic is modelled by
   the caller, `Blocks.ReadLastBlock`.
   */
  function Range(es: seq<Entry>, lo: string, hi: string): (r: seq<Entry>)
    requires Sorted(es)
    ensures Sorted(r)
    ensures forall i :: 0 <= i < |r| ==> InRange(lo, hi, r[i].key)
    ensures forall k :: Get(r, k) == if InRange(lo, hi, k) then Get(es, k) else None
  {
    Select(es, k => InRange(lo, hi, k))
  }

  /** Two sorted lists that store the same value under every key are the same list. */
  lemma {:induction false} SortedUnique(a: seq<Entry>, b: seq<Entry>)
    requires Sorted(a) && Sorted(b)
    requires forall k :: Get(a, k) == Get(b, k)
    ensures a == b
    decreases |a|
  {
    if |a| > 0 {
      assert HasKey(a, a[0].key);
      assert Get(b, a[0].key).Some?;
    }
    if |b| > 0 {
      assert HasKey(b, b[0].key);
      assert Get(a, b[0].key).Some?;
    }
    if |a| > 0 {
      SortedTail(a);
      SortedTail(b);
      var ka, kb := a[0].key, b[0].key;
      if ka != kb {
        assert Get(b, ka).Some?;
        var j :| 0 <= j < |b| && b[j].key == ka;
        assert Get(a, kb).Some?;
        var i :| 0 <= i < |a| && a[i].key == kb;
        assert j > 0 && i > 0;
        BelowAsymmetric(kb, ka);
      }
      GetHead(a, ka);
      GetHead(b, ka);
      assert a[0] == b[0];
      forall k
        ensures Get(a[1..], k) == Get(b[1..], k)
      {
        GetHead(a, k);
        GetHead(b, k);
      }
      SortedUnique(a[1..], b[1..]);
      assert a == [a[0]] + a[1..] && b == [b[0]] + b[1..];
    }
  }
}
