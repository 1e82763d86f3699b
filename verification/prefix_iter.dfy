/**
 Prefix iteration over user values. `IterPrefix` snapshots the database and
 wraps an entry iterator that yields the entries whose key starts with
 `subspace/<prefix>`; the outer iterator strips the `subspace/` namespace from
 each key and prices each pair as the length of the stripped key plus the length
 of the value, both in bytes.
 */
module PrefixIter {
  import opened Wrappers
  import opened Strings
  import opened OrderedMap
  import opened MockDb

  /** The entry iterator: a key prefix and the entries of the snapshot not yet visited. */
  datatype MockIterator = MockIterator(prefix: string, rest: seq<Entry>)

  /** The outer iterator: an entry iterator and the namespace it strips from keys. */
  datatype PrefixIterator = PrefixIterator(iter: MockIterator, dbPrefix: string)

  /** What the outer iterator yields: a stripped key, its value, and the gas to charge. */
  datatype Item = Item(key: string, value: Bytes, gas: nat)

  /** Starts an iteration over the user keys that start with `prefix`, on a copy of the state. */
  function IterPrefix(db: Db, prefix: string): PrefixIterator
  {
    PrefixIterator(MockIterator(SubspaceKey(prefix), db), SubspacePrefix)
  }

  /** How many leading entries of `es` do not start with `prefix`. */
  function Skipped(es: seq<Entry>, prefix: string): (n: nat)
    ensures n <= |es|
    ensures forall i :: 0 <= i < n ==> !StartsWith(es[i].key, prefix)
    ensures n < |es| ==> StartsWith(es[n].key, prefix)
  {
    if |es| == 0 || StartsWith(es[0].key, prefix) then 0
    else
      var n := Skipped(es[1..], prefix);
      assert forall i :: 0 < i <= n ==> es[i] == es[1..][i - 1];
      1 + n
  }

  /**
   Consumes entries until one starts with the prefix and yields it; when none
   does, the iterator ends up exhausted.
   */
  function MockNext(it: MockIterator): (r: (Option<Entry>, MockIterator))
    ensures var n := Skipped(it.rest, it.prefix);
      && r.0 == (if n < |it.rest| then Some(it.rest[n]) else None)
      && r.1 == MockIterator(it.prefix, if n < |it.rest| then it.rest[n + 1..] else [])
    decreases |it.rest|
  {
    if |it.rest| == 0 then
      (None, it)
    else if StartsWith(it.rest[0].key, it.prefix) then
      (Some(it.rest[0]), MockIterator(it.prefix, it.rest[1..]))
    else
      var rest := it.rest[1..];
      assert Skipped(it.rest, it.prefix) == 1 + Skipped(rest, it.prefix);
      assert Skipped(rest, it.prefix) < |rest| ==>
        rest[Skipped(rest, it.prefix) + 1..] == it.rest[Skipped(it.rest, it.prefix) + 1..];
      MockNext(MockIterator(it.prefix, rest))
  }

  /** The pair yielded for a stripped key and its value: the gas is both lengths in bytes. */
  function Yield(key: string, value: Bytes): (x: Item)
    ensures x.gas >= |key| + |value|
  {
    Item(key, value, Utf8Len(key) + |value|)
  }

  /** An entry the outer iterator yields: its key starts with the search prefix and the namespace. */
  predicate Yieldable(e: Entry, prefix: string, dbPrefix: string)
  {
    StartsWith(e.key, prefix) && StartsWith(e.key, dbPrefix)
  }

  /** How many leading entries of `es` the outer iterator does not yield. */
  function Unyielded(es: seq<Entry>, prefix: string, dbPrefix: string): (n: nat)
    ensures n <= |es|
    ensures forall i :: 0 <= i < n ==> !Yieldable(es[i], prefix, dbPrefix)
    ensures n < |es| ==> Yieldable(es[n], prefix, dbPrefix)
  {
    if |es| == 0 || Yieldable(es[0], prefix, dbPrefix) then 0
    else
      var n := Unyielded(es[1..], prefix, dbPrefix);
      assert forall i :: 0 < i <= n ==> es[i] == es[1..][i - 1];
      1 + n
  }

  /**
   The reference step: the first entry of `es` under both the search prefix and
   the namespace, and the entries after it; nothing and no entries when there is none.
   */
  function FirstUnder(es: seq<Entry>, prefix: string, dbPrefix: string): (r: (Option<Entry>, seq<Entry>))
    ensures var n := Unyielded(es, prefix, dbPrefix);
      r == if n < |es| then (Some(es[n]), es[n + 1..]) else (None, [])
  {
    if |es| == 0 then (None, [])
    else if Yieldable(es[0], prefix, dbPrefix) then (Some(es[0]), es[1..])
    else
      var rest := es[1..];
      assert Unyielded(es, prefix, dbPrefix) == 1 + Unyielded(rest, prefix, dbPrefix);
      assert Unyielded(rest, prefix, dbPrefix) < |rest| ==>
        rest[Unyielded(rest, prefix, dbPrefix) + 1..] == es[Unyielded(es, prefix, dbPrefix) + 1..];
      FirstUnder(rest, prefix, dbPrefix)
  }

  /**
   The next pair: the next entry of the inner iterator with the namespace
   stripped from its key. An entry outside the namespace is passed over.
   */
  function PrefixNext(it: PrefixIterator): (r: (Option<Item>, PrefixIterator))
    ensures r.1.dbPrefix == it.dbPrefix && r.1.iter.prefix == it.iter.prefix
    ensures |r.1.iter.rest| <= |it.iter.rest|
    ensures r.0.Some? ==> |r.1.iter.rest| < |it.iter.rest|
    ensures r.0.None? ==> r.1.iter.rest == []
    ensures r.0.Some? ==>
      && StartsWith(it.dbPrefix + r.0.value.key, it.iter.prefix)
      && r.0.value.gas == Utf8Len(r.0.value.key) + |r.0.value.value|
    decreases |it.iter.rest|
  {
    var (next, iter) := MockNext(it.iter);
    match next
    case None => (None, PrefixIterator(iter, it.dbPrefix))
    case Some(e) =>
      match StripPrefix(e.key, it.dbPrefix)
      case Some(k) => (Some(Yield(k, e.value)), PrefixIterator(iter, it.dbPrefix))
      case None => PrefixNext(PrefixIterator(iter, it.dbPrefix))
  }

  /**
   Every step of the outer iterator is the reference step: it yields the first
   remaining entry under both the search prefix and the namespace, with the
   namespace stripped, and resumes just after it.
   */
  lemma {:induction false} PrefixNextYieldsFirst(es: seq<Entry>, prefix: string, dbPrefix: string)
    ensures var r := PrefixNext(PrefixIterator(MockIterator(prefix, es), dbPrefix));
      var (first, after) := FirstUnder(es, prefix, dbPrefix);
      && (r.0.Some? <==> first.Some?)
      && (r.0.Some? ==> first.value == Entry(dbPrefix + r.0.value.key, r.0.value.value))
      && r.1.iter.rest == after
    decreases |es|
  {
    if |es| > 0 {
      var it := PrefixIterator(MockIterator(prefix, es), dbPrefix);
      var it' := PrefixIterator(MockIterator(prefix, es[1..]), dbPrefix);
      if !StartsWith(es[0].key, prefix) {
        assert MockNext(it.iter) == MockNext(it'.iter);
        assert PrefixNext(it) == PrefixNext(it');
        PrefixNextYieldsFirst(es[1..], prefix, dbPrefix);
      } else if !StartsWith(es[0].key, dbPrefix) {
        assert MockNext(it.iter) == (Some(es[0]), it'.iter);
        assert PrefixNext(it) == PrefixNext(it');
        PrefixNextYieldsFirst(es[1..], prefix, dbPrefix);
      } else {
        assert MockNext(it.iter) == (Some(es[0]), it'.iter);
        StartsWithUnder(dbPrefix, es[0].key[|dbPrefix|..], "");
      }
    }
  }

  /** Everything the outer iterator yields, in order, until it returns nothing. */
  function Drain(it: PrefixIterator): (items: seq<Item>)
    ensures |items| <= |it.iter.rest|
    decreases |it.iter.rest|
  {
    var (next, it') := PrefixNext(it);
    match next
    case None => []
    case Some(x) => [x] + Drain(it')
  }

  /**
   The reference listing: the entries whose key starts with both the search
   prefix and the namespace, in key order, each with the namespace stripped.
   */
  function Listing(es: seq<Entry>, prefix: string, dbPrefix: string): seq<Item>
    requires Sorted(es)
  {
    Yields(Select(es, k => StartsWith(k, prefix) && StartsWith(k, dbPrefix)), dbPrefix)
  }

  /** Each entry stripped of the namespace it starts with, as a yielded pair. */
  function Yields(es: seq<Entry>, dbPrefix: string): (items: seq<Item>)
    requires forall i :: 0 <= i < |es| ==> StartsWith(es[i].key, dbPrefix)
    ensures |items| == |es|
    ensures forall i :: 0 <= i < |es| ==> es[i].key == dbPrefix + items[i].key && items[i].value == es[i].value
    ensures forall i :: 0 <= i < |es| ==> items[i].gas == Utf8Len(items[i].key) + |items[i].value|
  {
    if |es| == 0 then []
    else
      assert forall i :: 0 < i < |es| ==> es[i] == es[1..][i - 1];
      assert StartsWith(es[0].key, dbPrefix);
      [Yield(StripPrefix(es[0].key, dbPrefix).value, es[0].value)] + Yields(es[1..], dbPrefix)
  }

  /** Draining an iterator over a sorted snapshot yields exactly the reference listing. */
  lemma {:induction false} DrainIsListing(es: seq<Entry>, prefix: string, dbPrefix: string)
    requires Sorted(es)
    ensures Drain(PrefixIterator(MockIterator(prefix, es), dbPrefix)) == Listing(es, prefix, dbPrefix)
    decreases |es|
  {
    var keep := k => StartsWith(k, prefix) && StartsWith(k, dbPrefix);
    if |es| > 0 {
      SortedTail(es);
      var it := PrefixIterator(MockIterator(prefix, es), dbPrefix);
      var it' := PrefixIterator(MockIterator(prefix, es[1..]), dbPrefix);
      DrainIsListing(es[1..], prefix, dbPrefix);
      var tail := Select(es[1..], keep);
      if !StartsWith(es[0].key, prefix) {
        assert MockNext(it.iter) == MockNext(it'.iter);
        assert PrefixNext(it) == PrefixNext(it');
        assert Select(es, keep) == tail;
      } else if !StartsWith(es[0].key, dbPrefix) {
        assert MockNext(it.iter) == (Some(es[0]), it'.iter);
        assert PrefixNext(it) == PrefixNext(it');
        assert Select(es, keep) == tail;
      } else {
        assert MockNext(it.iter) == (Some(es[0]), it'.iter);
        assert PrefixNext(it) == (Some(Yield(StripPrefix(es[0].key, dbPrefix).value, es[0].value)), it');
        assert Select(es, keep) == [es[0]] + tail;
        assert ([es[0]] + tail)[1..] == tail;
      }
    }
  }

  /**
   An iteration started by `IterPrefix` yields exactly the reference listing of
   the snapshot: the entries under `subspace/<prefix>`, in key order, each with
   `subspace/` stripped.
   */
  lemma IterPrefixIsListing(db: Db, prefix: string)
    ensures Drain(IterPrefix(db, prefix)) == Listing(db, SubspaceKey(prefix), SubspacePrefix)
  {
    DrainIsListing(db, SubspaceKey(prefix), SubspacePrefix);
  }

  /**
   Every pair an iteration yields is a user key under the prefix, holding its
   stored value, priced at the byte lengths of key and value.
   */
  lemma IterPrefixSound(db: Db, prefix: string)
    ensures var items := Drain(IterPrefix(db, prefix));
      forall i :: 0 <= i < |items| ==>
        && StartsWith(items[i].key, prefix)
        && ReadSubspaceVal(db, items[i].key) == Some(items[i].value)
        && items[i].gas == Utf8Len(items[i].key) + |items[i].value|
  {
    var d, q := SubspacePrefix, SubspaceKey(prefix);
    DrainIsListing(db, q, d);
    var keep := k => StartsWith(k, q) && StartsWith(k, d);
    var sel := Select(db, keep);
    var items := Yields(sel, d);
    forall i | 0 <= i < |items|
      ensures StartsWith(items[i].key, prefix)
      ensures ReadSubspaceVal(db, items[i].key) == Some(items[i].value)
    {
      StartsWithUnder(d, items[i].key, prefix);
      GetAt(sel, i);
    }
  }

  /** An iteration yields its keys in strictly ascending order, so each at most once. */
  lemma IterPrefixAscending(db: Db, prefix: string)
    ensures var items := Drain(IterPrefix(db, prefix));
      forall i, j :: 0 <= i < j < |items| ==> Below(items[i].key, items[j].key)
  {
    var d, q := SubspacePrefix, SubspaceKey(prefix);
    DrainIsListing(db, q, d);
    var keep := k => StartsWith(k, q) && StartsWith(k, d);
    var sel := Select(db, keep);
    var items := Yields(sel, d);
    forall i, j | 0 <= i < j < |items|
      ensures Below(items[i].key, items[j].key)
    {
      BelowCommonPrefix(d, items[i].key, items[j].key);
    }
  }

  /** Every user key under the prefix that holds a value is yielded. */
  lemma IterPrefixComplete(db: Db, prefix: string, key: string)
    requires StartsWith(key, prefix) && ReadSubspaceVal(db, key).Some?
    ensures var items := Drain(IterPrefix(db, prefix));
      exists i :: 0 <= i < |items| && items[i].key == key
  {
    var d, q := SubspacePrefix, SubspaceKey(prefix);
    DrainIsListing(db, q, d);
    var keep := k => StartsWith(k, q) && StartsWith(k, d);
    var sel := Select(db, keep);
    var items := Yields(sel, d);
    StartsWithUnder(d, key, prefix);
    assert keep(d + key);
    assert Get(sel, d + key).Some?;
    var i :| 0 <= i < |sel| && sel[i].key == d + key;
    StartsWithUnder(d, items[i].key, "");
    assert d + items[i].key == d + key;
    assert items[i].key == (d + key)[|d|..];
    StartsWithUnder(d, key, "");
  }

  /**
   An entry iterator over the `subspace/` namespace never yields a key outside
   it, whatever entries remain, so the outer iterator's pass-over branch is
   never taken: each step of an iteration consumes the entries up to and
   including the next one under the prefix.
   */
  lemma IterPrefixStripsEveryEntry(prefix: string, rest: seq<Entry>)
    ensures var (next, _) := MockNext(MockIterator(SubspaceKey(prefix), rest));
      next.Some? ==> StripPrefix(next.value.key, SubspacePrefix).Some?
  {
    var (next, _) := MockNext(MockIterator(SubspaceKey(prefix), rest));
    if next.Some? {
      var k := next.value.key;
      var d := SubspacePrefix;
      assert StartsWith(k, d + prefix);
      assert k[..|d|] == (d + prefix)[..|d|];
    }
  }
}
