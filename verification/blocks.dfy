/**
 The block-state layout of the mock database. `WriteBlock` stores a block's
 fields under keys `<height>/<field path>` plus three global keys; `ReadLastBlock`
 reads the global keys, then scans the key range `[<height>/, <height + 1>/)` in
 string order and dispatches on each key's path segments to rebuild the state.

 Serialisation is a parameter: a `Codec` pairs an encoder with a decoder that
 may fail. Block heights have their own codec because the read uses the height
 as a number; every other field shares one abstract value type `V`.
 */
module Blocks {
  import opened Wrappers
  import opened Strings
  import opened OrderedMap
  import opened MockDb

  datatype Codec<!T> = Codec(encode: T -> Bytes, decode: Bytes -> Option<T>)

  /** Decoding is the left inverse of encoding. */
  ghost predicate RoundTrips<T(!new)>(c: Codec<T>)
  {
    forall x :: c.decode(c.encode(x)) == Some(x)
  }

  datatype Codecs<!V> = Codecs(height: Codec<nat>, value: Codec<V>)

  datatype BlockState<V> = BlockState(
    root: V,
    store: V,
    hash: V,
    height: nat,
    epoch: V,
    predEpochs: V,
    nextEpochMinStartHeight: nat,
    nextEpochMinStartTime: V,
    addressGen: V)

  /** The six fields stored per height. */
  datatype Field = Root | Store | Hash | Epoch | PredEpochs | AddressGen

  function FieldValue<V>(st: BlockState<V>, f: Field): V
  {
    match f
    case Root => st.root
    case Store => st.store
    case Hash => st.hash
    case Epoch => st.epoch
    case PredEpochs => st.predEpochs
    case AddressGen => st.addressGen
  }

  const HeightKey: string := "height"
  const NextEpochMinStartHeightKey: string := "next_epoch_min_start_height"
  const NextEpochMinStartTimeKey: string := "next_epoch_min_start_time"

  /** The message of the error for a height whose fields are incomplete. */
  const EssentialDataMissing: string := "Essential data couldn't be read from the DB"

  /** Where a field lives below its height's key segment. */
  function FieldPath(f: Field): string
  {
    match f
    case Root => "tree/root"
    case Store => "tree/store"
    case Hash => "hash"
    case Epoch => "epoch"
    case PredEpochs => "pred_epochs"
    case AddressGen => "address_gen"
  }

  /** The database key of a field of the block at `height`. */
  function BlockKey(height: nat, f: Field): string
  {
    Decimal(height) + [Separator] + FieldPath(f)
  }

  /** The third segment of a `tree` key names one of the Merkle tree's two fields. */
  const TreeFields: seq<(string, Field)> := [("root", Root), ("store", Store)]

  /** Otherwise the second segment names the field. */
  const OtherFields: seq<(string, Field)> :=
    [("hash", Hash), ("epoch", Epoch), ("pred_epochs", PredEpochs), ("address_gen", AddressGen)]

  /** The field a segment names in a table of segment names, if any. */
  function Lookup(table: seq<(string, Field)>, name: string): Option<Field>
  {
    if |table| == 0 then None
    else if table[0].0 == name then Some(table[0].1)
    else Lookup(table[1..], name)
  }

  /**
   The field a key inside a height's range holds, read off its path segments.
   `None` is an unknown key.
   */
  function FieldOf(path: string): Option<Field>
  {
    FieldOfSegments(Split(path))
  }

  /**
   The second segment names the field, except that a `tree` key needs a third
   segment `root` or `store`.
   */
  function FieldOfSegments(segments: seq<string>): Option<Field>
  {
    if |segments| < 2 then None
    else if segments[1] == "tree" then
      if |segments| < 3 then None else Lookup(TreeFields, segments[2])
    else Lookup(OtherFields, segments[1])
  }

  /**
   A key is unknown exactly when it has no second segment, when its second
   segment is `tree` and its third is missing or neither `root` nor `store`, or
   when its second segment names none of the other four fields.
   */
  lemma {:induction false} UnknownSegments(segments: seq<string>)
    ensures FieldOfSegments(segments).None? <==>
      || |segments| < 2
      || (segments[1] == "tree" && (|segments| < 3 || (segments[2] != "root" && segments[2] != "store")))
      || (segments[1] != "tree" && segments[1] != "hash" && segments[1] != "epoch"
          && segments[1] != "pred_epochs" && segments[1] != "address_gen")
  {
    if |segments| >= 2 {
      if segments[1] == "tree" {
        if |segments| >= 3 {
          LookupFinds(TreeFields, segments[2]);
        }
      } else {
        LookupFinds(OtherFields, segments[1]);
      }
    }
  }

  /** A table lookup finds a field exactly when some row has the name. */
  lemma {:induction false} LookupFinds(table: seq<(string, Field)>, name: string)
    ensures Lookup(table, name).Some? <==> exists i :: 0 <= i < |table| && table[i].0 == name
  {
    if |table| > 0 && table[0].0 != name {
      LookupFinds(table[1..], name);
      assert forall i :: 0 < i < |table| ==> table[i] == table[1..][i - 1];
    }
  }

  /** The dispatch on path segments finds the field that `BlockKey` laid out. */
  lemma FieldOfBlockKey(height: nat, f: Field)
    ensures FieldOf(BlockKey(height, f)) == Some(f)
  {
    DecimalNoSeparator(height);
    SplitAfterSegment(Decimal(height), FieldPath(f));
    FieldOfPath(Decimal(height), f);
  }

  /** Whatever the first segment, the remaining segments of a field path name the field. */
  lemma FieldOfPath(first: string, f: Field)
    ensures FieldOfSegments([first] + Split(FieldPath(f))) == Some(f)
  {
    if f == Root || f == Store {
      FieldOfTreePath(first, f);
    } else {
      FieldOfOtherPath(first, f);
    }
  }

  lemma FieldOfTreePath(first: string, f: Field)
    requires f == Root || f == Store
    ensures FieldOfSegments([first] + Split(FieldPath(f))) == Some(f)
  {
    FieldPathSegments(f);
    FieldNames();
    if f == Root {
      assert [first] + Split(FieldPath(f)) == [first, "tree", "root"];
    } else {
      assert [first] + Split(FieldPath(f)) == [first, "tree", "store"];
    }
  }

  lemma FieldOfOtherPath(first: string, f: Field)
    requires f != Root && f != Store
    ensures FieldOfSegments([first] + Split(FieldPath(f))) == Some(f)
  {
    FieldPathSegments(f);
    FieldNames();
    assert [first] + Split(FieldPath(f)) == [first, FieldPath(f)];
  }

  /** The segment names the tables hold. */
  lemma FieldNames()
    ensures Lookup(TreeFields, "root") == Some(Root) && Lookup(TreeFields, "store") == Some(Store)
    ensures Lookup(OtherFields, "hash") == Some(Hash) && Lookup(OtherFields, "epoch") == Some(Epoch)
    ensures Lookup(OtherFields, "pred_epochs") == Some(PredEpochs)
    ensures Lookup(OtherFields, "address_gen") == Some(AddressGen)
    ensures "hash" != "tree" && "epoch" != "tree" && "pred_epochs" != "tree" && "address_gen" != "tree"
  {
  }

  /** The segments of each field path. */
  lemma FieldPathSegments(f: Field)
    ensures f == Root ==> Split(FieldPath(f)) == ["tree", "root"]
    ensures f == Store ==> Split(FieldPath(f)) == ["tree", "store"]
    ensures f != Root && f != Store ==> Split(FieldPath(f)) == [FieldPath(f)]
  {
    match f {
      case Root =>
        assert FieldPath(f) == "tree" + [Separator] + "root";
        TreePathSegments("root");
      case Store =>
        assert FieldPath(f) == "tree" + [Separator] + "store";
        TreePathSegments("store");
      case _ =>
        assert Separator !in FieldPath(f);
        SplitWhole(FieldPath(f));
    }
  }

  lemma TreePathSegments(leaf: string)
    requires Separator !in leaf
    ensures Split("tree" + [Separator] + leaf) == ["tree", leaf]
  {
    assert Separator !in "tree";
    SplitAfterSegment("tree", leaf);
    SplitWhole(leaf);
  }

  lemma BlockKeyInjective(height: nat, f: Field, g: Field)
    requires BlockKey(height, f) == BlockKey(height, g)
    ensures f == g
  {
    FieldOfBlockKey(height, f);
    FieldOfBlockKey(height, g);
  }

  /** Block keys start with a digit, so they never clash with the three global keys. */
  lemma BlockKeyNotGlobal(height: nat, f: Field)
    ensures BlockKey(height, f)[0] == Decimal(height)[0]
    ensures BlockKey(height, f) != HeightKey
    ensures BlockKey(height, f) != NextEpochMinStartHeightKey
    ensures BlockKey(height, f) != NextEpochMinStartTimeKey
  {
    var k := BlockKey(height, f);
    assert k[0] == Decimal(height)[0];
    assert HeightKey[0] == 'h';
    assert NextEpochMinStartHeightKey[0] == 'n' && NextEpochMinStartTimeKey[0] == 'n';
  }

  lemma BlockKeysNotGlobal(height: nat)
    ensures forall f :: BlockKey(height, f) != HeightKey
    ensures forall f :: BlockKey(height, f) != NextEpochMinStartHeightKey
    ensures forall f :: BlockKey(height, f) != NextEpochMinStartTimeKey
  {
    forall f
      ensures BlockKey(height, f) != HeightKey
      ensures BlockKey(height, f) != NextEpochMinStartHeightKey
      ensures BlockKey(height, f) != NextEpochMinStartTimeKey
    {
      BlockKeyNotGlobal(height, f);
    }
  }

  // ---------------------------------------------------------------------------
  // Writing a block
  // ---------------------------------------------------------------------------

  /** The order in which `WriteBlock` stores the per-height fields. */
  const WriteOrder: seq<Field> := [Root, Store, Hash, Epoch, PredEpochs, AddressGen]

  lemma WriteOrderComplete()
    ensures forall f :: f in WriteOrder
  {
    forall f ensures f in WriteOrder {
      match f
      case Root => assert WriteOrder[0] == f;
      case Store => assert WriteOrder[1] == f;
      case Hash => assert WriteOrder[2] == f;
      case Epoch => assert WriteOrder[3] == f;
      case PredEpochs => assert WriteOrder[4] == f;
      case AddressGen => assert WriteOrder[5] == f;
    }
  }

  /** Whether `WriteBlock` stores anything under `k` for a block at `height`. */
  predicate WrittenKey(height: nat, k: string)
  {
    k == HeightKey || k == NextEpochMinStartHeightKey || k == NextEpochMinStartTimeKey
    || IsBlockKey(height, k)
  }

  predicate IsBlockKey(height: nat, k: string)
  {
    exists f :: k == BlockKey(height, f)
  }

  /** Stores the given fields of `st` under their keys at its height, in order. */
  function WriteFields<V>(c: Codec<V>, db: Db, st: BlockState<V>, fields: seq<Field>): (r: Db)
    ensures forall f :: f in fields ==> Get(r, BlockKey(st.height, f)) == Some(c.encode(FieldValue(st, f)))
    ensures forall k :: (forall f :: f in fields ==> k != BlockKey(st.height, f)) ==> Get(r, k) == Get(db, k)
    decreases |fields|
  {
    if |fields| == 0 then db
    else
      var f := fields[|fields| - 1];
      var front := fields[..|fields| - 1];
      var before := WriteFields(c, db, st, front);
      forall g | g in fields && g != f
        ensures g in front && BlockKey(st.height, g) != BlockKey(st.height, f)
      {
        if BlockKey(st.height, g) == BlockKey(st.height, f) {
          BlockKeyInjective(st.height, g, f);
        }
      }
      Insert(before, BlockKey(st.height, f), c.encode(FieldValue(st, f))).0
  }

  /**
   Stores the two epoch keys, the six per-height keys and finally the height;
   every other key keeps its value.
   */
  function WriteBlock<V>(c: Codecs<V>, db: Db, st: BlockState<V>): (r: Db)
    ensures Get(r, HeightKey) == Some(c.height.encode(st.height))
    ensures Get(r, NextEpochMinStartHeightKey) == Some(c.height.encode(st.nextEpochMinStartHeight))
    ensures Get(r, NextEpochMinStartTimeKey) == Some(c.value.encode(st.nextEpochMinStartTime))
    ensures forall f :: Get(r, BlockKey(st.height, f)) == Some(c.value.encode(FieldValue(st, f)))
    ensures forall k :: !WrittenKey(st.height, k) ==> Get(r, k) == Get(db, k)
  {
    var db1 := Insert(db, NextEpochMinStartHeightKey, c.height.encode(st.nextEpochMinStartHeight)).0;
    var db2 := Insert(db1, NextEpochMinStartTimeKey, c.value.encode(st.nextEpochMinStartTime)).0;
    var db3 := WriteFields(c.value, db2, st, WriteOrder);
    BlockKeysNotGlobal(st.height);
    WriteOrderComplete();
    assert Get(db3, NextEpochMinStartHeightKey) == Get(db2, NextEpochMinStartHeightKey);
    assert Get(db3, NextEpochMinStartTimeKey) == Get(db2, NextEpochMinStartTimeKey);
    assert forall k :: !WrittenKey(st.height, k) ==> Get(db3, k) == Get(db2, k);
    Insert(db3, HeightKey, c.height.encode(st.height)).0
  }

  // ---------------------------------------------------------------------------
  // Reading the last block
  // ---------------------------------------------------------------------------

  /** What the three global keys say: the height and the next epoch's earliest start. */
  datatype Header<V> = Header(height: nat, nextEpochMinStartHeight: nat, nextEpochMinStartTime: V)

  predicate Decodes<T>(c: Codec<T>, db: Db, key: string)
  {
    Get(db, key).Some? && c.decode(Get(db, key).value).Some?
  }

  /** The global keys are read in order; the first one absent ends the read with nothing. */
  predicate HeaderAbsent<V>(c: Codecs<V>, db: Db)
  {
    || Get(db, HeightKey).None?
    || (Decodes(c.height, db, HeightKey) && Get(db, NextEpochMinStartHeightKey).None?)
    || (Decodes(c.height, db, HeightKey) && Decodes(c.height, db, NextEpochMinStartHeightKey)
        && Get(db, NextEpochMinStartTimeKey).None?)
  }

  /**
   Reads one global key: nothing when it is absent, a coding error when it is
   present but does not decode.
   */
  function ReadKey<T>(c: Codec<T>, db: Db, key: string): (r: Result<Option<T>, Error>)
    ensures r == Ok(None) <==> Get(db, key).None?
    ensures r.Err? <==> Get(db, key).Some? && !Decodes(c, db, key)
    ensures r.Err? ==> r.error == CodingError
    ensures r.Ok? && r.value.Some? ==> Decodes(c, db, key) && c.decode(Get(db, key).value) == Some(r.value.value)
  {
    match Get(db, key)
    case None => Ok(None)
    case Some(bytes) =>
      match c.decode(bytes)
      case None => Err(CodingError)
      case Some(v) => Ok(Some(v))
  }

  /**
   Reads the height, then the next epoch's minimum start height, then its minimum
   start time. A missing key means there is no block; a present key that does not
   decode is a coding error.
   */
  function ReadHeader<V>(c: Codecs<V>, db: Db): (r: Result<Option<Header<V>>, Error>)
    ensures r == Ok(None) <==> HeaderAbsent(c, db)
    ensures r.Err? ==> r.error == CodingError
    ensures r.Ok? && r.value.Some? <==>
      Decodes(c.height, db, HeightKey) && Decodes(c.height, db, NextEpochMinStartHeightKey)
      && Decodes(c.value, db, NextEpochMinStartTimeKey)
    ensures r.Ok? && r.value.Some? ==>
      && c.height.decode(Get(db, HeightKey).value) == Some(r.value.value.height)
      && c.height.decode(Get(db, NextEpochMinStartHeightKey).value) == Some(r.value.value.nextEpochMinStartHeight)
      && c.value.decode(Get(db, NextEpochMinStartTimeKey).value) == Some(r.value.value.nextEpochMinStartTime)
  {
    match ReadKey(c.height, db, HeightKey)
    case Err(e) => Err(e)
    case Ok(None) => Ok(None)
    case Ok(Some(height)) =>
      match ReadKey(c.height, db, NextEpochMinStartHeightKey)
      case Err(e) => Err(e)
      case Ok(None) => Ok(None)
      case Ok(Some(startHeight)) =>
        match ReadKey(c.value, db, NextEpochMinStartTimeKey)
        case Err(e) => Err(e)
        case Ok(None) => Ok(None)
        case Ok(Some(startTime)) => Ok(Some(Header(height, startHeight, startTime)))
  }

  /** A scanned entry can be loaded: its key names a field and its value decodes. */
  predicate Loadable<V>(c: Codec<V>, e: Entry)
  {
    FieldOf(e.key).Some? && c.decode(e.value).Some?
  }

  predicate AllLoadable<V>(c: Codec<V>, es: seq<Entry>)
  {
    forall i :: 0 <= i < |es| ==> Loadable(c, es[i])
  }

  /** The error an entry that cannot be loaded ends the scan with. */
  function LoadError<V>(c: Codec<V>, e: Entry): Error
  {
    if FieldOf(e.key).None? then UnknownKey(e.key) else CodingError
  }

  /** The value of the last entry of `es` that holds field `f`. */
  function LastFor(es: seq<Entry>, f: Field): Option<Bytes>
  {
    if |es| == 0 then None
    else if FieldOf(es[|es| - 1].key) == Some(f) then Some(es[|es| - 1].value)
    else LastFor(es[..|es| - 1], f)
  }

  /** Every field has an entry. */
  predicate AllHeld(es: seq<Entry>)
  {
    forall f :: LastFor(es, f).Some?
  }

  lemma {:induction false} LastForHead(es: seq<Entry>, f: Field)
    requires |es| > 0
    ensures LastFor(es, f) ==
      if LastFor(es[1..], f).Some? then LastFor(es[1..], f)
      else if FieldOf(es[0].key) == Some(f) then Some(es[0].value)
      else None
    decreases |es|
  {
    if |es| == 1 {
      assert es[..0] == [] && es[1..] == [];
    } else {
      var last := es[|es| - 1];
      assert es[1..][..|es| - 2] == es[..|es| - 1][1..];
      assert es[1..][|es| - 2] == last;
      if FieldOf(last.key) != Some(f) {
        LastForHead(es[..|es| - 1], f);
      }
    }
  }

  /** Loads one scanned entry into the fields found so far. */
  function Load<V>(c: Codec<V>, found: map<Field, V>, e: Entry): (r: Result<map<Field, V>, Error>)
    ensures r.Ok? <==> Loadable(c, e)
    ensures r.Err? ==> r.error == LoadError(c, e)
    ensures r.Ok? ==>
      var f := FieldOf(e.key).value;
      && r.value.Keys == found.Keys + {f}
      && c.decode(e.value) == Some(r.value[f])
      && forall g :: g in found && g != f ==> r.value[g] == found[g]
  {
    match FieldOf(e.key)
    case None => Err(UnknownKey(e.key))
    case Some(f) =>
      match c.decode(e.value)
      case None => Err(CodingError)
      case Some(v) => Ok(found[f := v])
  }

  /**
   Loads the scanned entries in order, stopping at the first that cannot be
   loaded. A later entry for a field overrides an earlier one.
   */
  function Scan<V>(c: Codec<V>, found: map<Field, V>, es: seq<Entry>): (r: Result<map<Field, V>, Error>)
    ensures r.Ok? <==> AllLoadable(c, es)
    decreases |es|
  {
    if |es| == 0 then
      Ok(found)
    else
      match Load(c, found, es[0])
      case Err(e) => Err(e)
      case Ok(found') =>
        assert forall i :: 0 <= i < |es| - 1 ==> es[1..][i] == es[i + 1];
        Scan(c, found', es[1..])
  }

  /** A failed scan fails with the error of its first entry that cannot be loaded. */
  lemma {:induction false} ScanError<V>(c: Codec<V>, found: map<Field, V>, es: seq<Entry>)
    requires Scan(c, found, es).Err?
    ensures exists i :: FirstUnloadable(c, es, i) && Scan(c, found, es).error == LoadError(c, es[i])
    decreases |es|
  {
    if !Loadable(c, es[0]) {
      assert FirstUnloadable(c, es, 0);
    } else {
      var found' := Load(c, found, es[0]).value;
      ScanError(c, found', es[1..]);
      var i :| FirstUnloadable(c, es[1..], i) && Scan(c, found', es[1..]).error == LoadError(c, es[1..][i]);
      assert forall j :: 0 <= j < |es| - 1 ==> es[1..][j] == es[j + 1];
      assert FirstUnloadable(c, es, i + 1);
    }
  }

  /** Entry `i` is the first of `es` that cannot be loaded. */
  predicate FirstUnloadable<V>(c: Codec<V>, es: seq<Entry>, i: int)
  {
    0 <= i < |es| && !Loadable(c, es[i]) && forall j :: 0 <= j < i ==> Loadable(c, es[j])
  }

  /**
   A successful scan has found a field exactly when it was found before or some
   entry holds it; the value is the decoding of the last entry that holds it.
   */
  lemma {:induction false} ScanFound<V>(c: Codec<V>, found: map<Field, V>, es: seq<Entry>, f: Field)
    requires Scan(c, found, es).Ok?
    ensures var m := Scan(c, found, es).value;
      && (f in m <==> f in found || LastFor(es, f).Some?)
      && (LastFor(es, f).Some? ==> c.decode(LastFor(es, f).value) == Some(m[f]))
      && (LastFor(es, f).None? && f in found ==> m[f] == found[f])
    decreases |es|
  {
    if |es| > 0 {
      var found' := Load(c, found, es[0]).value;
      ScanFound(c, found', es[1..], f);
      LastForHead(es, f);
    }
  }

  /** A scan from nothing finds a field exactly when some entry holds it. */
  lemma ScanFoundAll<V>(c: Codec<V>, es: seq<Entry>)
    requires Scan(c, map[], es).Ok?
    ensures forall f :: f in Scan(c, map[], es).value <==> LastFor(es, f).Some?
    ensures forall f :: LastFor(es, f).Some? ==>
      f in Scan(c, map[], es).value && c.decode(LastFor(es, f).value) == Some(Scan(c, map[], es).value[f])
  {
    forall f
      ensures (f in Scan(c, map[], es).value <==> LastFor(es, f).Some?)
      ensures LastFor(es, f).Some? ==> c.decode(LastFor(es, f).value) == Some(Scan(c, map[], es).value[f])
    {
      ScanFound(c, map[], es, f);
    }
  }

  /** A map over fields is total exactly when it has each of the six. */
  lemma AllFieldsIn<V>(m: map<Field, V>)
    ensures (forall f :: f in m) <==>
      Root in m && Store in m && Hash in m && Epoch in m && PredEpochs in m && AddressGen in m
  {
    if Root in m && Store in m && Hash in m && Epoch in m && PredEpochs in m && AddressGen in m {
      forall f ensures f in m {
        match f
        case Root =>
        case Store =>
        case Hash =>
        case Epoch =>
        case PredEpochs =>
        case AddressGen =>
      }
    }
  }

  /** The fields found by the scan, completed into a block state if all six are there. */
  function Assemble<V>(hd: Header<V>, found: map<Field, V>): (r: Result<Option<BlockState<V>>, Error>)
    ensures r.Ok? <==> forall f :: f in found
    ensures r.Err? ==> r.error == Temporary(EssentialDataMissing)
    ensures r.Ok? ==>
      && r.value.Some?
      && r.value.value.height == hd.height
      && r.value.value.nextEpochMinStartHeight == hd.nextEpochMinStartHeight
      && r.value.value.nextEpochMinStartTime == hd.nextEpochMinStartTime
      && forall f :: FieldValue(r.value.value, f) == found[f]
  {
    AllFieldsIn(found);
    if Root in found && Store in found && Hash in found && Epoch in found
      && PredEpochs in found && AddressGen in found
    then
      Ok(Some(BlockState(
        found[Root], found[Store], found[Hash], hd.height, found[Epoch],
        found[PredEpochs], hd.nextEpochMinStartHeight, hd.nextEpochMinStartTime,
        found[AddressGen])))
    else
      Err(Temporary(EssentialDataMissing))
  }

  /**
   Rebuilds the block at the header's height from the scanned entries: the first
   entry that cannot be loaded decides the error; a field with no entry makes the
   read fail as temporary; otherwise every field is the decoding of the last entry
   that holds it.
   */
  function LoadBlock<V>(c: Codec<V>, hd: Header<V>, es: seq<Entry>): (r: Result<Option<BlockState<V>>, Error>)
    ensures r.Ok? ==> r.value.Some?
    ensures r.Ok? <==> AllLoadable(c, es) && AllHeld(es)
    ensures r == Err(Temporary(EssentialDataMissing)) <==> AllLoadable(c, es) && !AllHeld(es)
    ensures !AllLoadable(c, es) ==> exists i :: FirstUnloadable(c, es, i) && r == Err(LoadError(c, es[i]))
    ensures r.Ok? ==>
      && r.value.value.height == hd.height
      && r.value.value.nextEpochMinStartHeight == hd.nextEpochMinStartHeight
      && r.value.value.nextEpochMinStartTime == hd.nextEpochMinStartTime
      && forall f :: c.decode(LastFor(es, f).value) == Some(FieldValue(r.value.value, f))
  {
    match Scan(c, map[], es)
    case Err(e) =>
      ScanError(c, map[], es);
      Err(e)
    case Ok(found) =>
      ScanFoundAll(c, es);
      assert Assemble(hd, found).Ok? <==> AllHeld(es) by {
        if AllHeld(es) {
          assert forall f :: f in found;
        }
      }
      Assemble(hd, found)
  }

  /** What a call can do besides returning: panic. */
  datatype Run<T> = Returned(value: T) | Panicked

  /** The inclusive lower bound of the scan at `height`. */
  function ScanStart(height: nat): string
  {
    Decimal(height) + [Separator]
  }

  /** The exclusive upper bound of the scan at `height`: the next height's prefix. */
  function ScanEnd(height: nat): string
  {
    Decimal(height + 1) + [Separator]
  }

  /**
   The scan's bounds are out of order exactly when the next height has one digit
   more: `9/` sorts after `10/`, `99/` after `100/`, and so on.
   */
  lemma ScanBoundsReversed(height: nat)
    ensures Below(ScanEnd(height), ScanStart(height)) <==> |Decimal(height + 1)| > |Decimal(height)|
    ensures |Decimal(height + 1)| == |Decimal(height)| ==> Below(ScanStart(height), ScanEnd(height))
  {
    DecimalSuccessor(height);
    var a, b := Decimal(height), Decimal(height + 1);
    if |b| == |a| {
      DiffersExtends(a, b, [Separator], [Separator]);
      BelowAsymmetric(ScanStart(height), ScanEnd(height));
    } else {
      assert Differs(b, a);
      DiffersExtends(b, a, [Separator], [Separator]);
    }
  }

  /**
   When the next height has as many digits, every key below the height's own
   prefix lies in the scanned range.
   */
  lemma OwnKeysInScanRange(height: nat, path: string)
    requires |Decimal(height + 1)| == |Decimal(height)|
    ensures InRange(ScanStart(height), ScanEnd(height), ScanStart(height) + path)
  {
    var k := ScanStart(height) + path;
    assert k[..|ScanStart(height)|] == ScanStart(height);
    PrefixAtMost(k, ScanStart(height));
    DecimalSuccessor(height);
    DiffersExtends(Decimal(height), Decimal(height + 1), [Separator] + path, [Separator]);
    assert Decimal(height) + ([Separator] + path) == k;
  }

  /**
   `read_last_block` as written: the header, then a string-ordered range scan
   from `<height>/` up to `<height + 1>/`. The standard library's range query
   panics when its start sorts after its end.
   */
  function ReadLastBlock<V>(c: Codecs<V>, db: Db): (r: Run<Result<Option<BlockState<V>>, Error>>)
    ensures HeaderAbsent(c, db) ==> r == Returned(Ok(None))
    ensures ReadHeader(c, db).Err? ==> r == Returned(Err(CodingError))
    ensures r.Panicked? <==> (
      && ReadHeader(c, db).Ok? && ReadHeader(c, db).value.Some?
      && |Decimal(ReadHeader(c, db).value.value.height + 1)| > |Decimal(ReadHeader(c, db).value.value.height)|)
    ensures r.Returned? && ReadHeader(c, db).Ok? && ReadHeader(c, db).value.Some? ==>
      var hd := ReadHeader(c, db).value.value;
      r.value == LoadBlock(c.value, hd, Range(db, ScanStart(hd.height), ScanEnd(hd.height)))
  {
    match ReadHeader(c, db)
    case Err(e) => Returned(Err(e))
    case Ok(None) => Returned(Ok(None))
    case Ok(Some(hd)) =>
      var lo, hi := ScanStart(hd.height), ScanEnd(hd.height);
      ScanBoundsReversed(hd.height);
      if Below(hi, lo) then Panicked
      else Returned(LoadBlock(c.value, hd, Range(db, lo, hi)))
  }

  /**
   When the read does not panic, the first scanned entry that cannot be loaded
   decides its error: `UnknownKey` with the entry's path when the path names no
   field, `CodingError` when its value does not decode.
   */
  lemma ReadLastBlockFailsAtFirstBadEntry<V>(c: Codecs<V>, db: Db)
    ensures ReadHeader(c, db).Ok? && ReadHeader(c, db).value.Some? && ReadLastBlock(c, db).Returned? ==>
      var hd := ReadHeader(c, db).value.value;
      var es := Range(db, ScanStart(hd.height), ScanEnd(hd.height));
      !AllLoadable(c.value, es) ==>
        exists i :: FirstUnloadable(c.value, es, i) && ReadLastBlock(c, db) == Returned(Err(
          if FieldOf(es[i].key).None? then UnknownKey(es[i].key) else CodingError))
  {
  }

  /**
   The evidently intended read: the same header, then only the keys whose first
   segment is the height, which never panics and never picks up longer heights.
   */
  function ReadLastBlockByPrefix<V>(c: Codecs<V>, db: Db): (r: Result<Option<BlockState<V>>, Error>)
    ensures HeaderAbsent(c, db) ==> r == Ok(None)
    ensures ReadHeader(c, db).Err? ==> r == Err(CodingError)
    ensures ReadHeader(c, db).Ok? && ReadHeader(c, db).value.Some? ==>
      var hd := ReadHeader(c, db).value.value;
      r == LoadBlock(c.value, hd, Select(db, k => StartsWith(k, ScanStart(hd.height))))
  {
    match ReadHeader(c, db)
    case Err(e) => Err(e)
    case Ok(None) => Ok(None)
    case Ok(Some(hd)) =>
      LoadBlock(c.value, hd, Select(db, k => StartsWith(k, ScanStart(hd.height))))
  }

  // ---------------------------------------------------------------------------
  // Round trips
  // ---------------------------------------------------------------------------

  /**
   The scanned entries after writing `st` are exactly its six fields: every
   entry is a field's key holding that field's encoding, and every field has one.
   */
  predicate ScannedAreFields<V>(c: Codec<V>, st: BlockState<V>, es: seq<Entry>)
  {
    && Sorted(es)
    && (forall i :: 0 <= i < |es| ==> IsFieldEntry(c, st, es[i]))
    && (forall f :: HasKey(es, BlockKey(st.height, f)))
  }

  /** An entry is some field's key holding that field's encoding. */
  predicate IsFieldEntry<V>(c: Codec<V>, st: BlockState<V>, e: Entry)
  {
    exists g :: e == Entry(BlockKey(st.height, g), c.encode(FieldValue(st, g)))
  }

  /** The last entry holding `f` is the one at `i` when no later entry holds it. */
  lemma {:induction false} LastForAt(es: seq<Entry>, f: Field, i: int)
    requires 0 <= i < |es| && FieldOf(es[i].key) == Some(f)
    requires forall j :: i < j < |es| ==> FieldOf(es[j].key) != Some(f)
    ensures LastFor(es, f) == Some(es[i].value)
    decreases |es|
  {
    var n := |es|;
    if i < n - 1 {
      var front := es[..n - 1];
      assert forall j :: 0 <= j < n - 1 ==> front[j] == es[j];
      LastForAt(front, f, i);
    }
  }

  /** A field's entry is the only one that holds that field. */
  lemma LastForOnlyEntry<V>(c: Codec<V>, st: BlockState<V>, es: seq<Entry>, f: Field)
    requires ScannedAreFields(c, st, es)
    ensures LastFor(es, f) == Some(c.encode(FieldValue(st, f)))
  {
    var h := st.height;
    assert HasKey(es, BlockKey(h, f));
    var i :| 0 <= i < |es| && es[i].key == BlockKey(h, f);
    assert IsFieldEntry(c, st, es[i]);
    var g :| es[i] == Entry(BlockKey(h, g), c.encode(FieldValue(st, g)));
    BlockKeyInjective(h, g, f);
    FieldOfBlockKey(h, f);
    forall j | i < j < |es|
      ensures FieldOf(es[j].key) != Some(f)
    {
      assert IsFieldEntry(c, st, es[j]);
      var g' :| es[j] == Entry(BlockKey(h, g'), c.encode(FieldValue(st, g')));
      FieldOfBlockKey(h, g');
      if g' == f {
        BelowIrreflexive(es[i].key);
      }
    }
    LastForAt(es, f, i);
  }

  /** Scanning exactly the written fields rebuilds the written block. */
  lemma LoadWrittenFields<V(!new)>(c: Codec<V>, st: BlockState<V>, es: seq<Entry>)
    requires RoundTrips(c)
    requires ScannedAreFields(c, st, es)
    ensures LoadBlock(c, Header(st.height, st.nextEpochMinStartHeight, st.nextEpochMinStartTime), es) == Ok(Some(st))
  {
    WrittenFieldsLoadable(c, st, es);
    WrittenFieldsHeld(c, st, es);
  }

  lemma WrittenFieldsLoadable<V(!new)>(c: Codec<V>, st: BlockState<V>, es: seq<Entry>)
    requires RoundTrips(c)
    requires ScannedAreFields(c, st, es)
    ensures AllLoadable(c, es)
  {
    forall i | 0 <= i < |es|
      ensures Loadable(c, es[i])
    {
      var g :| es[i] == Entry(BlockKey(st.height, g), c.encode(FieldValue(st, g)));
      FieldOfBlockKey(st.height, g);
    }
  }

  lemma WrittenFieldsHeld<V>(c: Codec<V>, st: BlockState<V>, es: seq<Entry>)
    requires ScannedAreFields(c, st, es)
    ensures forall f :: LastFor(es, f) == Some(c.encode(FieldValue(st, f)))
  {
    forall f
      ensures LastFor(es, f) == Some(c.encode(FieldValue(st, f)))
    {
      LastForOnlyEntry(c, st, es, f);
    }
  }

  /** The conditions under which a key filter picks out exactly the fields written at `height`. */
  predicate PicksFields(db: Db, height: nat, inScan: string -> bool)
  {
    && (forall f :: inScan(BlockKey(height, f)))
    && !inScan(HeightKey) && !inScan(NextEpochMinStartHeightKey) && !inScan(NextEpochMinStartTimeKey)
    && (forall i :: 0 <= i < |db| && inScan(db[i].key) ==> IsBlockKey(height, db[i].key))
  }

  /** Each entry the filter keeps after `WriteBlock` is a field's key holding that field's encoding. */
  lemma KeptEntryIsField<V>(c: Codecs<V>, db: Db, st: BlockState<V>, inScan: string -> bool, i: int)
    requires PicksFields(db, st.height, inScan)
    requires 0 <= i < |Select(WriteBlock(c, db, st), inScan)|
    ensures IsFieldEntry(c.value, st, Select(WriteBlock(c, db, st), inScan)[i])
  {
    var db' := WriteBlock(c, db, st);
    var es := Select(db', inScan);
    var k := es[i].key;
    GetAt(es, i);
    assert inScan(k) && Get(db', k) == Some(es[i].value);
    if !WrittenKey(st.height, k) {
      assert false;
    }
    var g :| k == BlockKey(st.height, g);
    assert es[i] == Entry(BlockKey(st.height, g), c.value.encode(FieldValue(st, g)));
  }

  /**
   Selecting the keys that `inScan` keeps after `WriteBlock` gives exactly the
   written fields, when `inScan` keeps every field key and no global key, and
   keeps no key of the database before that is not a field key.
   */
  lemma ScanAfterWrite<V>(c: Codecs<V>, db: Db, st: BlockState<V>, inScan: string -> bool)
    requires PicksFields(db, st.height, inScan)
    ensures ScannedAreFields(c.value, st, Select(WriteBlock(c, db, st), inScan))
  {
    var es := Select(WriteBlock(c, db, st), inScan);
    forall i | 0 <= i < |es|
      ensures IsFieldEntry(c.value, st, es[i])
    {
      KeptEntryIsField(c, db, st, inScan, i);
    }
    KeptFields(c, db, st, inScan);
  }

  /** Every field's key survives the filter after `WriteBlock`. */
  lemma KeptFields<V>(c: Codecs<V>, db: Db, st: BlockState<V>, inScan: string -> bool)
    requires PicksFields(db, st.height, inScan)
    ensures forall f :: HasKey(Select(WriteBlock(c, db, st), inScan), BlockKey(st.height, f))
  {
    var es := Select(WriteBlock(c, db, st), inScan);
    forall f
      ensures HasKey(es, BlockKey(st.height, f))
    {
      assert Get(es, BlockKey(st.height, f)).Some?;
    }
  }

  /**
   Reading back a written block, as written: if decoding undoes encoding, the
   next height has as many digits, and no other key of the database falls in the
   scanned range, `ReadLastBlock` returns exactly the block that was written.
   */
  lemma ReadBlockAfterWrite<V(!new)>(c: Codecs<V>, db: Db, st: BlockState<V>)
    requires RoundTrips(c.height) && RoundTrips(c.value)
    requires |Decimal(st.height + 1)| == |Decimal(st.height)|
    requires forall i :: 0 <= i < |db| && InRange(ScanStart(st.height), ScanEnd(st.height), db[i].key) ==>
      IsBlockKey(st.height, db[i].key)
    ensures ReadLastBlock(c, WriteBlock(c, db, st)) == Returned(Ok(Some(st)))
  {
    var h := st.height;
    var lo, hi := ScanStart(h), ScanEnd(h);
    var db' := WriteBlock(c, db, st);
    var hd := Header(h, st.nextEpochMinStartHeight, st.nextEpochMinStartTime);
    HeaderAfterWrite(c, db, st);
    ScanBoundsReversed(h);
    assert ReadLastBlock(c, db') == Returned(LoadBlock(c.value, hd, Range(db', lo, hi)));
    RangePicksFields(db, h);
    ScanAfterWrite(c, db, st, k => InRange(lo, hi, k));
    LoadWrittenFields(c.value, st, Range(db', lo, hi));
  }

  /** The range scan at a height whose successor has as many digits picks out that height's fields. */
  lemma RangePicksFields(db: Db, height: nat)
    requires |Decimal(height + 1)| == |Decimal(height)|
    requires forall i :: 0 <= i < |db| && InRange(ScanStart(height), ScanEnd(height), db[i].key) ==>
      IsBlockKey(height, db[i].key)
    ensures PicksFields(db, height, k => InRange(ScanStart(height), ScanEnd(height), k))
  {
    forall f ensures InRange(ScanStart(height), ScanEnd(height), BlockKey(height, f)) {
      OwnKeysInScanRange(height, FieldPath(f));
    }
    GlobalKeysOutsideScan(height);
  }

  /** The corrected read returns the written block under the same conditions, at every height. */
  lemma ReadByPrefixAfterWrite<V(!new)>(c: Codecs<V>, db: Db, st: BlockState<V>)
    requires RoundTrips(c.height) && RoundTrips(c.value)
    requires forall i :: 0 <= i < |db| && StartsWith(db[i].key, ScanStart(st.height)) ==>
      IsBlockKey(st.height, db[i].key)
    ensures ReadLastBlockByPrefix(c, WriteBlock(c, db, st)) == Ok(Some(st))
  {
    var h := st.height;
    var p := ScanStart(h);
    HeaderAfterWrite(c, db, st);
    forall f ensures StartsWith(BlockKey(h, f), p) {
      assert BlockKey(h, f)[..|p|] == p;
    }
    GlobalKeysOutsideScan(h);
    ScanAfterWrite(c, db, st, k => StartsWith(k, p));
    LoadWrittenFields(c.value, st, Select(WriteBlock(c, db, st), k => StartsWith(k, p)));
  }

  /**
   When the next height gains a digit, reading back a written block panics,
   whatever else the database holds.
   */
  lemma ReadAfterWritePanics<V(!new)>(c: Codecs<V>, db: Db, st: BlockState<V>)
    requires RoundTrips(c.height) && RoundTrips(c.value)
    requires |Decimal(st.height + 1)| > |Decimal(st.height)|
    ensures ReadLastBlock(c, WriteBlock(c, db, st)) == Panicked
  {
    HeaderAfterWrite(c, db, st);
  }

  /** Height 9 is such a height: its scan would run from `9/` down to `10/`. */
  lemma ReadAfterWriteAtNinePanics<V(!new)>(c: Codecs<V>, db: Db, st: BlockState<V>)
    requires RoundTrips(c.height) && RoundTrips(c.value)
    requires st.height == 9
    ensures ReadLastBlock(c, WriteBlock(c, db, st)) == Panicked
  {
    assert Decimal(10) == Decimal(1) + [Digit(0)];
    ReadAfterWritePanics(c, db, st);
  }

  /**
   The range is lexicographic, not numeric: the scan at height 1 also covers the
   keys of heights 10 to 19.
   */
  lemma ScanAtOneCoversTen()
    ensures InRange(ScanStart(1), ScanEnd(1), BlockKey(10, Hash))
  {
    assert Decimal(10) == Decimal(1) + [Digit(0)];
    var k := BlockKey(10, Hash);
    assert k[0] == '1' && k[1] == '0';
    assert ScanStart(1) == ['1', '/'] && ScanEnd(1) == ['2', '/'];
  }

  /** After `WriteBlock` the header reads back as the block's height and epoch start. */
  lemma HeaderAfterWrite<V(!new)>(c: Codecs<V>, db: Db, st: BlockState<V>)
    requires RoundTrips(c.height) && RoundTrips(c.value)
    ensures ReadHeader(c, WriteBlock(c, db, st)) ==
      Ok(Some(Header(st.height, st.nextEpochMinStartHeight, st.nextEpochMinStartTime)))
  {
    var db' := WriteBlock(c, db, st);
    forall f {
      BlockKeyNotGlobal(st.height, f);
    }
    assert Get(db', HeightKey) == Some(c.height.encode(st.height));
    assert Get(db', NextEpochMinStartHeightKey) == Some(c.height.encode(st.nextEpochMinStartHeight));
    assert Get(db', NextEpochMinStartTimeKey) == Some(c.value.encode(st.nextEpochMinStartTime));
  }

  /** The global keys start with a letter, so no height's scan reaches them. */
  lemma GlobalKeysOutsideScan(height: nat)
    ensures !InRange(ScanStart(height), ScanEnd(height), HeightKey)
    ensures !InRange(ScanStart(height), ScanEnd(height), NextEpochMinStartHeightKey)
    ensures !InRange(ScanStart(height), ScanEnd(height), NextEpochMinStartTimeKey)
    ensures !StartsWith(HeightKey, ScanStart(height))
    ensures !StartsWith(NextEpochMinStartHeightKey, ScanStart(height))
    ensures !StartsWith(NextEpochMinStartTimeKey, ScanStart(height))
  {
    var hi := ScanEnd(height);
    assert hi[0] <= '9' && ScanStart(height)[0] <= '9';
    assert HeightKey[0] == 'h';
    assert NextEpochMinStartHeightKey[0] == 'n' && NextEpochMinStartTimeKey[0] == 'n';
  }
}
