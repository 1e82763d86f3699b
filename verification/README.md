# MockDB: a Dafny model of the in-memory ledger database

This project models `MockDB`, the in-memory stand-in for the ledger's storage
backend (`shared/src/ledger/storage/mockdb.rs`). Its whole state is one
`BTreeMap<String, Vec<u8>>`. Three pieces of logic sit on that map:

- **Subspace store.** Reads, writes and deletes of user values under the
  `subspace/` namespace. A write reports the signed size change and a delete
  reports the removed length. The batched variants commit at once, so an
  executed batch changes nothing further.
- **Block-state layout.** `write_block` stores the two epoch-start keys, then
  a block's six per-height fields under `<height>/…` keys, then the global
  `height` key. `read_last_block` reads
  the global keys, scans the string range `[<height>/, <height + 1>/)` and
  dispatches on each key's `/`-separated segments to rebuild the block.
- **Prefix iteration.** `iter_prefix` copies the map and returns an iterator.
  It yields the entries under `subspace/<prefix>` in key order, strips
  `subspace/` from each key, and charges gas equal to key length plus value
  length, both in bytes.

The modules follow that structure:

| file | module | contents |
|---|---|---|
| `wrappers.dfy` | `Wrappers` | `Option`, `Result` |
| `strings.dfy` | `Strings` | key order, prefixes, `split('/')`, decimal heights, UTF-8 length |
| `ordered_map.dfy` | `OrderedMap` | the `BTreeMap` as a strictly sorted entry list, with `Get`, `Insert`, `Remove`, `Select`, `Range` |
| `mock_db.dfy` | `MockDb` | the state type, the error type, the subspace operations and the write batch |
| `blocks.dfy` | `Blocks` | `write_block`, `read_last_block`, and the corrected read by prefix |
| `prefix_iter.dfy` | `PrefixIter` | `iter_prefix`, `MockIterator::next`, `PrefixIterator::next` |

Modelling choices:

- **The map.** It is a list of entries with strictly ascending keys (`MockDb.Db`). `Get` is its view as a finite map.
- **Key order.** Keys compare character by character by code point. Rust compares `String`s by their UTF-8 bytes, and UTF-8 preserves code-point order, so the two orders agree.
- **Operations.** Each operation is a pure function from the state before to the state after, plus the returned value.
- **Serialisation.** Borsh is a parameter: a `Codec` pairs an encoder with a decoder that may fail. The round-trip properties assume `RoundTrips`, i.e. decoding undoes encoding.
- **Panics.** A call that may panic returns `Run<T>`, which is `Returned(value)` or `Panicked`.
- **Header order.** The three global keys are read in order. An absent key gives `Ok(None)` only when no earlier key failed to decode; an earlier decode failure is returned as a coding error first. `Blocks.ReadHeader` states that order.

## Model

| member | source | states |
|---|---|---|
| `MockDb.ReadSubspaceVal` | shared/src/ledger/storage/mockdb.rs:248-253 | a read finds a value exactly when the map holds the key `subspace/<key>`, and the value it finds is the one stored under that key |
| `MockDb.WriteSubspaceVal` | shared/src/ledger/storage/mockdb.rs:255-276 | the value is stored under `subspace/<key>` and every other key keeps its value; the result is the value's length, minus the previous value's length when the key held one |
| `MockDb.DeleteSubspaceVal` | shared/src/ledger/storage/mockdb.rs:278-290 | afterwards `subspace/<key>` is absent and every other key keeps its value; the result is the removed value's length and the map shrinks by one, or, when the key was absent, the result is 0 and the state is unchanged |
| `MockDb.ReadAfterWrite` | shared/src/ledger/storage/mockdb.rs:248-276 | after a write, reading the same user key returns the written value, and reading any other user key returns what it returned before |
| `MockDb.ReadAfterDelete` | shared/src/ledger/storage/mockdb.rs:248-290 | after a delete, reading the key returns nothing, and every other user key reads as before |
| `MockDb.WriteBackIsIdentity` | shared/src/ledger/storage/mockdb.rs:255-290 | writing back the value just read leaves the state identical and reports a size change of 0; deleting a key and writing its value back also restores the state |
| `MockDb.DeleteUndoesFreshWrite` | shared/src/ledger/storage/mockdb.rs:255-290 | deleting a key that a write has just created restores the earlier state, and the reported lengths cancel |
| `MockDb.BatchWriteSubspaceVal` | shared/src/ledger/storage/mockdb.rs:302-324 | the batched write takes effect at once: same stored value, same untouched keys, same size change as the unbatched write |
| `MockDb.BatchDeleteSubspaceVal` | shared/src/ledger/storage/mockdb.rs:326-339 | the batched delete takes effect at once: the key is gone, other keys are kept, and the removed length (or 0) is reported |
| `MockDb.BatchMatchesDirect` | shared/src/ledger/storage/mockdb.rs:302-339 | batched and unbatched writes and deletes give the same state and the same result |
| `MockDb.ExecBatch` | shared/src/ledger/storage/mockdb.rs:296-300 | executing a batch succeeds and leaves the state as it is |
| `MockDb.Batch` | shared/src/ledger/storage/mockdb.rs:292-294 | a fresh batch; a batch has a single value, so this carries no contract, and `MockDb.StagedBatchIsInert` states what executing it does |
| `MockDb.StagedBatchIsInert` | shared/src/ledger/storage/mockdb.rs:402-416 | whatever puts and deletes are staged in a batch, executing it succeeds without changing the state |
| `MockDb.Put` | shared/src/ledger/storage/mockdb.rs:403-410 | staging a put records nothing, since the batched write has already committed it; a batch has a single value, so this carries no contract, and `MockDb.StagedBatchIsInert` states the consequence |
| `MockDb.Delete` | shared/src/ledger/storage/mockdb.rs:412-415 | staging a delete records nothing, since the batched delete has already committed it; a batch has a single value, so this carries no contract, and `MockDb.StagedBatchIsInert` states the consequence |
| `OrderedMap.Get` | shared/src/ledger/storage/mockdb.rs:248-253 | `BTreeMap::get`: it finds a value exactly when some entry has the key, and the value it finds is that entry's |
| `OrderedMap.Insert` | shared/src/ledger/storage/mockdb.rs:266-272 | `BTreeMap::insert`: keys stay sorted, the previous value is returned, the key then maps to the new value, no other key changes, and the map grows by one exactly when the key was new |
| `OrderedMap.Remove` | shared/src/ledger/storage/mockdb.rs:285-288 | `BTreeMap::remove`: keys stay sorted, the removed value is returned, the key is then absent, no other key changes, and the map shrinks by one exactly when the key was present |
| `OrderedMap.Range` | shared/src/ledger/storage/mockdb.rs:78-83 | `BTreeMap::range` with an included start and an excluded end: the entries with `start <= key < end`, sorted, with the same values as in the map |
| `OrderedMap.SortedUnique` | shared/src/ledger/storage/mockdb.rs:17-21 | two sorted entry lists that agree on every key are the same list, so a map state is determined by its contents |
| `Strings.SplitJoin` | shared/src/ledger/storage/mockdb.rs:84-85 | `split('/')` loses nothing: no piece holds a separator, and joining the pieces with `/` gives back the key |
| `Strings.DecimalSuccessor` | shared/src/ledger/storage/mockdb.rs:71-72 | the decimal rendering of `h + 1` is never shorter than that of `h`; with as many digits it sorts after `h` at a digit; with one digit more, `h` starts with 9 and `h + 1` with 1 |
| `Strings.Utf8Len` | shared/src/ledger/storage/mockdb.rs:391 | `str::len` counts UTF-8 bytes: between one and four per character, exactly one per character for ASCII text |
| `Strings.StripPrefix` | shared/src/ledger/storage/mockdb.rs:389 | `str::strip_prefix` succeeds exactly when the key starts with the prefix, and the prefix followed by the rest is the key |
| `Blocks.WriteFields` | shared/src/ledger/storage/mockdb.rs:180-236 | each listed field's `<height>/<path>` key holds that field's encoding, and every other key keeps its value |
| `Blocks.WriteBlock` | shared/src/ledger/storage/mockdb.rs:157-246 | after the write, the three global keys hold the encoded height and epoch start, each of the six field keys holds its field's encoding, and every other key keeps its value |
| `Blocks.FieldOfSegments` | shared/src/ledger/storage/mockdb.rs:84-129 | the dispatch on a key's `/`-separated segments; it carries no contract of its own: `Blocks.UnknownSegments` states exactly which segment lists it rejects and `Blocks.FieldOfBlockKey` that it recovers each written field |
| `Blocks.FieldOfBlockKey` | shared/src/ledger/storage/mockdb.rs:84-128 | the segment dispatch of the read finds, in every key the write lays out, exactly the field written there |
| `Blocks.UnknownSegments` | shared/src/ledger/storage/mockdb.rs:84-128 | a key is unknown exactly when it has no second segment, when its second segment is `tree` and the third is missing or neither `root` nor `store`, or when its second segment names none of `hash`, `epoch`, `pred_epochs`, `address_gen` |
| `Blocks.ReadKey` | shared/src/ledger/storage/mockdb.rs:46-52 | reading one global key returns nothing exactly when the key is absent, fails with a coding error exactly when the key is present but does not decode, and otherwise returns the decoded value |
| `Blocks.ReadHeader` | shared/src/ledger/storage/mockdb.rs:44-68 | the header read returns nothing exactly when the first absent key comes before any key that fails to decode; its only error is a coding error; it returns a header exactly when all three keys decode, and the header holds the decoded values |
| `Blocks.LoadError` | shared/src/ledger/storage/mockdb.rs:418-422 | `unknown_key_error` and the decode failure as one error: `UnknownKey` carrying the path when the path names no field, `CodingError` otherwise; it carries no contract of its own, and `Blocks.Load`, `Blocks.ScanError` and `Blocks.LoadBlock` state when it is the result |
| `Blocks.Load` | shared/src/ledger/storage/mockdb.rs:84-129 | one pass of the loop body: it succeeds exactly when the path names a field and the value decodes, fails with that entry's `LoadError` otherwise, and on success sets only the named field, to a value the entry's bytes decode to, keeping every other field found so far |
| `Blocks.Scan` | shared/src/ledger/storage/mockdb.rs:78-130 | the scan loop completes exactly when every scanned entry has a known path and a value that decodes |
| `Blocks.ScanError` | shared/src/ledger/storage/mockdb.rs:84-130 | a failed scan fails with the error of its first bad entry: `UnknownKey(path)` for an unknown path, otherwise a coding error |
| `Blocks.ScanFound` | shared/src/ledger/storage/mockdb.rs:84-130 | after a completed scan, a field is set exactly when some entry holds it (or it was set before); its value is the decoding of the last entry that holds it |
| `Blocks.Assemble` | shared/src/ledger/storage/mockdb.rs:131-154 | the final match builds a block exactly when all six fields were found, taking the height and epoch start from the header; otherwise it fails as `Temporary` with the missing-data message |
| `Blocks.LoadBlock` | shared/src/ledger/storage/mockdb.rs:70-154 | loading the scanned entries succeeds exactly when every entry loads and every field has an entry; a missing field gives `Temporary`; when some entry cannot be loaded, the result is exactly the error of the first such entry, `UnknownKey(path)` when its path names no field and `CodingError` when its value does not decode; each field is the decoding of the last entry that holds it |
| `Blocks.ReadLastBlock` | shared/src/ledger/storage/mockdb.rs:44-155 | a missing header key gives `Ok(None)` and a bad one gives a coding error; the read panics exactly when `h + 1` has more digits than `h`; otherwise it loads the entries of the string range `[h/, (h+1)/)` |
| `Blocks.ReadLastBlockFailsAtFirstBadEntry` | shared/src/ledger/storage/mockdb.rs:70-130 | when the header is present and the read does not panic, a scanned entry that cannot be loaded makes the read return the error of the first such entry: `UnknownKey(path)` for a path that names no field, `CodingError` for a value that does not decode |
| `Blocks.ScanBoundsReversed` | shared/src/ledger/storage/mockdb.rs:71-82 | the range's start sorts after its end exactly when `h + 1` has more digits than `h` (`9/` against `10/`); otherwise the start sorts first |
| `Blocks.ScanAtOneCoversTen` | shared/src/ledger/storage/mockdb.rs:71-82 | the range is by string order, not numeric: the scan at height 1 covers the keys of height 10 |
| `Blocks.HeaderAfterWrite` | shared/src/ledger/storage/mockdb.rs:44-68 | after `write_block`, and when decoding undoes encoding, the header reads back as the block's height and epoch start |
| `Blocks.ReadBlockAfterWrite` | shared/src/ledger/storage/mockdb.rs:44-246 | when decoding undoes encoding, `h + 1` has as many digits as `h`, and no other key lies in the scanned range, a read after `write_block` returns exactly the written block |
| `Blocks.ReadAfterWritePanics` | shared/src/ledger/storage/mockdb.rs:71-82 | when `h + 1` has more digits than `h`, a read after `write_block` panics, whatever else the map holds |
| `Blocks.ReadAfterWriteAtNinePanics` | shared/src/ledger/storage/mockdb.rs:71-82 | writing a block at height 9 and reading it back panics |
| `Blocks.ReadLastBlockByPrefix` | shared/src/ledger/storage/mockdb.rs:70-82 | the corrected read: the same header cases, then it loads only the keys that start with `h/` |
| `Blocks.ReadByPrefixAfterWrite` | shared/src/ledger/storage/mockdb.rs:44-246 | at every height, when decoding undoes encoding and no foreign key starts with `h/`, the corrected read after `write_block` returns exactly the written block |
| `PrefixIter.IterPrefix` | shared/src/ledger/storage/mockdb.rs:345-350 | starts an iteration on a snapshot of the whole map under the key prefix `subspace/<prefix>`, stripping `subspace/`; what it then yields is stated by `PrefixIter.IterPrefixIsListing` |
| `PrefixIter.IterPrefixIsListing` | shared/src/ledger/storage/mockdb.rs:345-400 | the iterator `iter_prefix` starts, drained, yields exactly the reference listing of the map: the entries under `subspace/<prefix>` in key order with `subspace/` stripped |
| `PrefixIter.MockNext` | shared/src/ledger/storage/mockdb.rs:364-378 | the entry iterator yields the first remaining entry under its prefix and consumes everything up to and including it; when no entry matches, it yields nothing and is exhausted |
| `PrefixIter.PrefixNext` | shared/src/ledger/storage/mockdb.rs:380-400 | each yielded pair is, once the namespace is put back, a key under the prefix; its gas is the key's UTF-8 length plus the value's length; a yield consumes at least one entry; yielding nothing leaves the iterator exhausted |
| `PrefixIter.FirstUnder` | shared/src/ledger/storage/mockdb.rs:364-400 | the reference step: the first entry whose key is under both the search prefix and the namespace, no entry before it being under both, and the entries after it; nothing and no entries when no entry is under both |
| `PrefixIter.PrefixNextYieldsFirst` | shared/src/ledger/storage/mockdb.rs:364-400 | every step of the outer iterator, over any remaining entries, is the reference step: it yields something exactly when some remaining entry is under both prefixes, the pair it yields is the first such entry with the namespace stripped from its key and the same value, and the iterator resumes right after that entry |
| `PrefixIter.DrainIsListing` | shared/src/ledger/storage/mockdb.rs:345-399 | draining an iterator yields exactly the reference listing: the entries under both the prefix and the namespace, in key order, with the namespace stripped |
| `PrefixIter.IterPrefixSound` | shared/src/ledger/storage/mockdb.rs:345-399 | each yielded key starts with the prefix, reading it returns the yielded value, and its gas is key length plus value length in bytes |
| `PrefixIter.IterPrefixAscending` | shared/src/ledger/storage/mockdb.rs:345-378 | yielded keys strictly ascend, so none is yielded twice |
| `PrefixIter.IterPrefixComplete` | shared/src/ledger/storage/mockdb.rs:345-378 | every user key under the prefix that holds a value is yielded |
| `PrefixIter.IterPrefixStripsEveryEntry` | shared/src/ledger/storage/mockdb.rs:345-399 | at every step of an `iter_prefix` iteration, whatever entries remain, the entry the inner iterator yields lies in the `subspace/` namespace, so stripping it always succeeds |

## Left out

- `RefCell` interior mutability and the `unsafe impl Sync`: they serve cross-thread read sharing. The state here is a plain value.
- `open` and `flush`: they take a path or do nothing, and hold no logic.
- Borsh `encode`/`decode`: they are not part of this model and are parameters instead. The error a failed decode carries is dropped, so a coding error is one value.
- Payload types: the Merkle root, store, block hash, epoch, predecessor epochs, epoch start time and address generator have different types in the source. Here they share one type parameter with one codec.
- `Key::parse`, `push`, `join`, `to_string` and `BlockHeight::raw`, `to_db_key`, `next_height` are not part of this model. A user key is its string rendering, the subspace key is `subspace/` followed by it, and a height is a natural number rendered in decimal.
- `KeyError`: the only calls wrapped in `map_err(Error::KeyError)?` are `Key::parse` and `push`, and both take constant segments (`subspace`, `tree`, `root`, `store`, `hash`, `epoch`, `pred_epochs`, `address_gen`), so this error cannot arise and is not modelled.
- `BlockHeight` is a `u64`: heights are unbounded here, so the overflow of `next_height` at `u64::MAX` is not modelled.
- The `as i64` size casts are exact for real vectors, whose lengths are at most `isize::MAX`, and the `as u64` gas cast widens. Lengths are therefore plain integers.
- `PrefixIterator::next` converts key bytes back to a `String` and panics on invalid UTF-8. Keys are strings here, and the bytes came from a `String`, so that panic is not modelled.
- `PrefixIterator::new` is defined outside the core. The iterator is built directly from its two parts.
- `iter_prefix` clones the map. The iterator here holds the entry list itself, a value that later writes cannot reach, so no lemma says so separately.
- `Blocks.ReadBlockAfterWrite`: it needs `h + 1` to have as many digits as `h`, because at the other heights the read panics (`Blocks.ReadAfterWritePanics`). It also needs the scanned range to hold no key besides the block's own; under string order that range also covers longer heights such as `10/…` when `h` is 1.

## Findings

| source | as written | input that shows it | evidently intended | confidence | as-written member | corrected member |
|---|---|---|---|---|---|---|
| shared/src/ledger/storage/mockdb.rs:71-82 | the scan range runs from `"<h>/"` to `"<h+1>/"` in string order; when `h + 1` has one digit more, the start sorts after the end, and `BTreeMap::range` panics on such a range | write a block at height 9, then read the last block: the range runs from `"9/"` to `"10/"`, and `"10/"` sorts first | scan the keys of height `h`, i.e. the keys that start with `"<h>/"` | not executed | `Blocks.ReadAfterWriteAtNinePanics` | `Blocks.ReadByPrefixAfterWrite` |
