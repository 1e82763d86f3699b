/**
 The in-memory database: its state, its errors, and the subspace operations that
 read, write and delete user values under the `subspace/` namespace, directly or
 through the write-batch interface. Each operation is a pure function from the
 state before to the state after together with what the call returns.
 */
module MockDb {
  import opened Wrappers
  import opened Strings
  import opened OrderedMap

  /** The whole state of the database: one ordered map from keys to byte strings. */
  type Db = es: seq<Entry> | Sorted(es) witness []

  /** The database's error kinds that the modelled operations can produce. */
  datatype Error =
    | CodingError
    | UnknownKey(key: string)
    | Temporary(error: string)

  /** The namespace that holds user values. */
  const SubspacePrefix: string := "subspace/"

  /**
   The database key of a user key: the user key joined under the `subspace`
   segment. A user key is represented by its rendering as a string.
   */
  function SubspaceKey(key: string): string
  {
    SubspacePrefix + key
  }

  lemma SubspaceKeyInjective(a: string, b: string)
    requires SubspaceKey(a) == SubspaceKey(b)
    ensures a == b
  {
    assert a == SubspaceKey(a)[|SubspacePrefix|..];
    assert b == SubspaceKey(b)[|SubspacePrefix|..];
  }

  /** The value stored under a user key, if any. */
  function ReadSubspaceVal(db: Db, key: string): (r: Option<Bytes>)
    ensures r.Some? <==> HasKey(db, SubspaceKey(key))
    ensures r.Some? ==> Entry(SubspaceKey(key), r.value) in db
  {
    Get(db, SubspaceKey(key))
  }

  /** The size change a write reports: the new length, less the old one if there was one. */
  function SizeDelta(previous: Option<Bytes>, value: Bytes): int
  {
    match previous
    case Some(p) => |value| - |p|
    case None => |value|
  }

  /**
   Stores `value` under the user key and reports how much the stored size grew.
   The block height argument is accepted and ignored.
   */
  function WriteSubspaceVal(db: Db, height: nat, key: string, value: Bytes): (r: (Db, int))
    ensures Get(r.0, SubspaceKey(key)) == Some(value)
    ensures forall k :: k != SubspaceKey(key) ==> Get(r.0, k) == Get(db, k)
    ensures Get(db, SubspaceKey(key)).None? ==> r.1 == |value|
    ensures Get(db, SubspaceKey(key)).Some? ==> r.1 == |value| - |Get(db, SubspaceKey(key)).value|
  {
    var (db', previous) := Insert(db, SubspaceKey(key), value);
    (db', SizeDelta(previous, value))
  }

  /**
   Removes the user key and reports the length of the value it held, 0 when there
   was none. The block height argument is accepted and ignored.
   */
  function DeleteSubspaceVal(db: Db, height: nat, key: string): (r: (Db, int))
    ensures Get(r.0, SubspaceKey(key)) == None
    ensures forall k :: k != SubspaceKey(key) ==> Get(r.0, k) == Get(db, k)
    ensures Get(db, SubspaceKey(key)).None? ==> r.1 == 0 && r.0 == db
    ensures Get(db, SubspaceKey(key)).Some? ==> r.1 == |Get(db, SubspaceKey(key)).value| && |r.0| == |db| - 1
  {
    var (db', removed) := Remove(db, SubspaceKey(key));
    if removed.None? then
      assert db' == db by { SortedUnique(db', db); }
      (db', 0)
    else
      (db', |removed.value|)
  }

  /**
   A write batch. The mock commits batched writes as they are made, so a batch
   carries nothing.
   */
  datatype WriteBatch = WriteBatch

  /** A fresh, empty batch. */
  function Batch(): WriteBatch
  {
    WriteBatch
  }

  /** Staging a put in a batch records nothing. */
  function Put(batch: WriteBatch, key: string, value: Bytes): WriteBatch
  {
    batch
  }

  /** Staging a delete in a batch records nothing. */
  function Delete(batch: WriteBatch, key: string): WriteBatch
  {
    batch
  }

  /** Executing a batch leaves the state as it is: its writes are already in. */
  function ExecBatch(db: Db, batch: WriteBatch): (r: Result<Db, Error>)
    ensures r == Ok(db)
  {
    Ok(db)
  }

  /**
   The batched write: it stores the value right away, exactly like the
   unbatched write, and reports the same size change.
   */
  function BatchWriteSubspaceVal(db: Db, batch: WriteBatch, height: nat, key: string, value: Bytes): (r: (Db, int))
    ensures Get(r.0, SubspaceKey(key)) == Some(value)
    ensures forall k :: k != SubspaceKey(key) ==> Get(r.0, k) == Get(db, k)
    ensures r.1 == SizeDelta(Get(db, SubspaceKey(key)), value)
  {
    WriteSubspaceVal(db, height, key, value)
  }

  /**
   The batched delete: it removes the key right away, exactly like the unbatched
   delete, and reports the same length.
   */
  function BatchDeleteSubspaceVal(db: Db, batch: WriteBatch, height: nat, key: string): (r: (Db, int))
    ensures Get(r.0, SubspaceKey(key)) == None
    ensures forall k :: k != SubspaceKey(key) ==> Get(r.0, k) == Get(db, k)
    ensures r.1 == match Get(db, SubspaceKey(key)) case Some(p) => |p| case None => 0
  {
    DeleteSubspaceVal(db, height, key)
  }

  /** A read after a write returns the written value; other user keys read as before. */
  lemma ReadAfterWrite(db: Db, height: nat, key: string, value: Bytes, other: string)
    ensures ReadSubspaceVal(WriteSubspaceVal(db, height, key, value).0, key) == Some(value)
    ensures other != key ==>
      ReadSubspaceVal(WriteSubspaceVal(db, height, key, value).0, other) == ReadSubspaceVal(db, other)
  {
    if other != key && SubspaceKey(other) == SubspaceKey(key) {
      SubspaceKeyInjective(other, key);
    }
  }

  /** A read after a delete finds nothing; other user keys read as before. */
  lemma ReadAfterDelete(db: Db, height: nat, key: string, other: string)
    ensures ReadSubspaceVal(DeleteSubspaceVal(db, height, key).0, key) == None
    ensures other != key ==>
      ReadSubspaceVal(DeleteSubspaceVal(db, height, key).0, other) == ReadSubspaceVal(db, other)
  {
    if other != key && SubspaceKey(other) == SubspaceKey(key) {
      SubspaceKeyInjective(other, key);
    }
  }

  /**
   Writing back what was read leaves the state as it was and reports no size
   change; deleting a value and writing it back does too.
   */
  lemma {:induction false} WriteBackIsIdentity(db: Db, height: nat, key: string)
    requires ReadSubspaceVal(db, key).Some?
    ensures WriteSubspaceVal(db, height, key, ReadSubspaceVal(db, key).value) == (db, 0)
    ensures WriteSubspaceVal(DeleteSubspaceVal(db, height, key).0, height, key, ReadSubspaceVal(db, key).value).0 == db
  {
    var v := ReadSubspaceVal(db, key).value;
    SortedUnique(WriteSubspaceVal(db, height, key, v).0, db);
    SortedUnique(WriteSubspaceVal(DeleteSubspaceVal(db, height, key).0, height, key, v).0, db);
  }

  /**
   A delete undoes a write of a key that was absent, and the two reported sizes
   cancel out.
   */
  lemma {:induction false} DeleteUndoesFreshWrite(db: Db, height: nat, key: string, value: Bytes)
    requires ReadSubspaceVal(db, key).None?
    ensures var (db', grown) := WriteSubspaceVal(db, height, key, value);
      DeleteSubspaceVal(db', height, key) == (db, grown)
  {
    var (db', grown) := WriteSubspaceVal(db, height, key, value);
    SortedUnique(DeleteSubspaceVal(db', height, key).0, db);
  }

  /** Batched and unbatched writes and deletes are the same operation. */
  lemma BatchMatchesDirect(db: Db, batch: WriteBatch, height: nat, key: string, value: Bytes)
    ensures BatchWriteSubspaceVal(db, batch, height, key, value) == WriteSubspaceVal(db, height, key, value)
    ensures BatchDeleteSubspaceVal(db, batch, height, key) == DeleteSubspaceVal(db, height, key)
  {
  }

  /** Stages the given puts, then the given deletes, in a batch. */
  function Stage(batch: WriteBatch, puts: seq<(string, Bytes)>, deletes: seq<string>): WriteBatch
    decreases |puts| + |deletes|
  {
    if |puts| > 0 then Stage(Put(batch, puts[0].0, puts[0].1), puts[1..], deletes)
    else if |deletes| > 0 then Stage(Delete(batch, deletes[0]), puts, deletes[1..])
    else batch
  }

  /** Whatever is staged in a batch, executing it changes nothing. */
  lemma StagedBatchIsInert(db: Db, puts: seq<(string, Bytes)>, deletes: seq<string>)
    ensures ExecBatch(db, Stage(Batch(), puts, deletes)) == Ok(db)
  {
  }
}
