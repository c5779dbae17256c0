/** The TSM file: data blocks from offset 5 upward, series index blocks from offset 504
    downward, an eight-byte footer holding the offset of the newest index block.
    The writers of engine/tsm/tsm.cpp and the loader of engine/tsm/iterator.cpp. */
module TsmFile {
  import opened Bytes
  import Columns

  const DATA_BLOCK_MARGIN := 512
  const HEADER_SIZE := 5
  const FOOTER_SIZE := 8
  const ENTRY_SIZE := 28

  /** DataBlock::Type, stored as a four-byte enumerator. */
  datatype ColumnType = Integer | String | Float

  function TypeCode(t: ColumnType): int32 {
    match t
    case Integer => 0
    case String => 1
    case Float => 2
  }

  /** Snappy is known only through its inverse law; padding is what the compiler leaves in
      the three trailing bytes of the eight-byte Header object. */
  datatype Env = Env(compress: Bytes -> Bytes, uncompress: Bytes -> Bytes, padding: Bytes) {
    ghost predicate Valid() {
      && (forall x :: uncompress(compress(x)) == x)
      && |padding| == 3
    }
  }

  datatype IndexEntry = IndexEntry(maxTime: int64, minTime: int64, offset: int64, size: int32)

  /** A data block as it waits in the queue.  typ is the enumerator the block carries. */
  datatype DataBlock = DataBlock(
    field: string, key: Bytes, typ: int32, num: int32,
    timestamps: seq<int64>, values: seq<Bytes>, maxTime: int64, minTime: int64)

  /** What reading a data block back gives. */
  datatype StoredBlock = StoredBlock(typ: int32, num: int32, timestamps: seq<int>, values: seq<Bytes>)

  /** What is handed to the index writer. */
  datatype IndexBlock = IndexBlock(field: string, key: Bytes, typ: ColumnType, entries: seq<IndexEntry>)

  /** What the loader builds. */
  datatype SeriesIndexBlock = SeriesIndexBlock(
    keySize: nat, key: Bytes, typ: int32, count: nat, entries: seq<IndexEntry>)

  // ---------- data blocks ----------

  /** Blocks the codecs can carry: timestamps whose differences fit 64 bits, short strings. */
  ghost predicate Storable(b: DataBlock) {
    && Columns.NoOverflow(b.timestamps)
    && Columns.ShortStrings(b.values)
  }

  lemma DifferencesFit(ts: seq<int64>)
    requires Columns.NoOverflow(ts)
    ensures forall k :: 0 <= k < |ts| ==> Columns.InI64(Columns.Differences(ts)[k])
  {
    forall k | 0 <= k < |ts|
      ensures Columns.InI64(Columns.Differences(ts)[k])
    {
      Columns.DifferenceAt(ts, k);
    }
  }

  function CompressedTimestamps(env: Env, b: DataBlock): Bytes
    requires Storable(b)
  {
    DifferencesFit(b.timestamps);
    env.compress(Columns.EncodeDifferences(Columns.Differences(b.timestamps)))
  }

  function CompressedValues(env: Env, b: DataBlock): Bytes
  {
    env.compress(Columns.EncodeStrings(b.values))
  }

  /** predict_size of the flush loop. */
  function PredictSize(env: Env, b: DataBlock): (n: nat)
    requires Storable(b)
    ensures n >= 16
  {
    16 + |CompressedTimestamps(env, b)| + |CompressedValues(env, b)|
  }

  function EncodeData(typ: int32, num: int32, ct: Bytes, cv: Bytes): (s: Bytes)
    ensures |s| == 16 + |ct| + |cv|
  {
    I32(typ) + I32(num) + I32(Trunc32(|ct|)) + I32(Trunc32(|cv|)) + ct + cv
  }

  function EncodeBlock(env: Env, b: DataBlock): (s: Bytes)
    requires Storable(b)
    ensures |s| == PredictSize(env, b)
  {
    EncodeData(b.typ, b.num, CompressedTimestamps(env, b), CompressedValues(env, b))
  }

  function Stored(b: DataBlock): StoredBlock {
    StoredBlock(b.typ, b.num, b.timestamps, b.values)
  }

  /** read_data_from_file; None when a read leaves the file or a column does not decode. */
  function ReadBlock(env: Env, f: Bytes, offset: int): Option<StoredBlock>
  {
    if offset < 0 || offset + 16 > |f| then None
    else
      var nt, nv := GetI32(Slice(f, offset + 8, 4)), GetI32(Slice(f, offset + 12, 4));
      if nt < 0 || nv < 0 || offset + 16 + nt + nv > |f| then None
      else
        var ct := Slice(f, offset + 16, nt);
        var cv := Slice(f, offset + 16 + nt, nv);
        match (Columns.DecodeDifferences(env.uncompress(ct)), Columns.DecodeStrings(env.uncompress(cv)))
        case (Ok(ds), Ok(vs)) =>
          Some(StoredBlock(GetI32(Slice(f, offset, 4)), GetI32(Slice(f, offset + 4, 4)), Columns.Restore(ds), vs))
        case _ => None
  }

  lemma DataFields(f: Bytes, pos: int, typ: int32, num: int32, ct: Bytes, cv: Bytes)
    requires At(f, pos, EncodeData(typ, num, ct, cv))
    ensures At(f, pos, I32(typ)) && At(f, pos + 4, I32(num))
    ensures At(f, pos + 8, I32(Trunc32(|ct|))) && At(f, pos + 12, I32(Trunc32(|cv|)))
    ensures At(f, pos + 16, ct) && At(f, pos + 16 + |ct|, cv)
  {
    var a, b, c, d := I32(typ), I32(num), I32(Trunc32(|ct|)), I32(Trunc32(|cv|));
    AtSplit(f, pos, a + b + c + d + ct, cv);
    AtSplit(f, pos, a + b + c + d, ct);
    AtSplit(f, pos, a + b + c, d);
    AtSplit(f, pos, a + b, c);
    AtSplit(f, pos, a, b);
  }

  lemma DataHeader(f: Bytes, pos: int, typ: int32, num: int32, ct: Bytes, cv: Bytes)
    requires At(f, pos, EncodeData(typ, num, ct, cv))
    requires |ct| < 0x8000_0000 && |cv| < 0x8000_0000
    ensures GetI32(Slice(f, pos, 4)) == typ && GetI32(Slice(f, pos + 4, 4)) == num
    ensures GetI32(Slice(f, pos + 8, 4)) == |ct| && GetI32(Slice(f, pos + 12, 4)) == |cv|
  {
    hide I32, GetI32, Slice, EncodeData;
    DataFields(f, pos, typ, num, ct, cv);
    I32RoundTrip(typ);
    I32RoundTrip(num);
    I32RoundTrip(|ct|);
    I32RoundTrip(|cv|);
  }

  lemma ColumnsDecode(env: Env, b: DataBlock)
    requires env.Valid() && Storable(b)
    ensures var ds := Columns.DecodeDifferences(env.uncompress(CompressedTimestamps(env, b)));
            ds.Ok? && Columns.Restore(ds.value) == b.timestamps
    ensures Columns.DecodeStrings(env.uncompress(CompressedValues(env, b))) == Columns.Ok(b.values)
  {
    DifferencesFit(b.timestamps);
    Columns.DifferencesRoundTrip(Columns.Differences(b.timestamps));
    Columns.StringsRoundTrip(b.values);
    Columns.RestoreDifferences(b.timestamps);
  }

  /** ReadBlock once the four header words are known. */
  lemma ReadBlockParts(env: Env, f: Bytes, pos: int, typ: int32, num: int32, ct: Bytes, cv: Bytes,
                       ds: Columns.Decoded<seq<int64>>, vs: Columns.Decoded<seq<Bytes>>)
    requires At(f, pos, EncodeData(typ, num, ct, cv)) && |f| < 0x8000_0000
    requires ds == Columns.DecodeDifferences(env.uncompress(ct)) && ds.Ok?
    requires vs == Columns.DecodeStrings(env.uncompress(cv)) && vs.Ok?
    ensures ReadBlock(env, f, pos) == Some(StoredBlock(typ, num, Columns.Restore(ds.value), vs.value))
  {
    DataHeader(f, pos, typ, num, ct, cv);
    DataFields(f, pos, typ, num, ct, cv);
  }

  /** A block found in the file reads back as the block that was stored. */
  lemma ReadStored(env: Env, f: Bytes, pos: int, b: DataBlock)
    requires env.Valid() && Storable(b)
    requires At(f, pos, EncodeBlock(env, b)) && |f| < 0x8000_0000
    ensures ReadBlock(env, f, pos) == Some(Stored(b))
  {
    var ct, cv := CompressedTimestamps(env, b), CompressedValues(env, b);
    ColumnsDecode(env, b);
    ReadBlockParts(env, f, pos, b.typ, b.num, ct, cv,
                   Columns.DecodeDifferences(env.uncompress(ct)), Columns.DecodeStrings(env.uncompress(cv)));
  }

  // ---------- series index blocks ----------

  function EncodeMeta(key: Bytes, typ: ColumnType, count: nat): Bytes
  {
    U16(|key|) + key[..|key| % 0x1_0000] + I32(TypeCode(typ)) + U16(count)
  }

  function EncodeEntry(e: IndexEntry): (s: Bytes)
    ensures |s| == ENTRY_SIZE
  {
    I64(e.maxTime) + I64(e.minTime) + I64(e.offset) + I32(e.size)
  }

  function EncodeEntries(es: seq<IndexEntry>): (s: Bytes)
    ensures |s| == ENTRY_SIZE * |es|
  {
    if es == [] then [] else EncodeEntry(es[0]) + EncodeEntries(es[1..])
  }

  function EncodeIndex(b: IndexBlock): Bytes {
    EncodeMeta(b.key, b.typ, |b.entries|) + EncodeEntries(b.entries)
  }

  /** The size the flush loop takes off the tail: 28 an entry, 8 and the key for the meta. */
  function IndexSize(b: IndexBlock): nat {
    ENTRY_SIZE * |b.entries| + 8 + |b.key|
  }

  lemma IndexSizeIsLength(b: IndexBlock)
    requires |b.key| < 0x1_0000
    ensures |EncodeIndex(b)| == IndexSize(b)
  {
  }

  function EncodeIndexes(bs: seq<IndexBlock>): Bytes {
    if bs == [] then [] else EncodeIndex(bs[0]) + EncodeIndexes(bs[1..])
  }

  /** write_series_index_block_to_file: meta, entries, then the footer in the last eight bytes. */
  function WithIndexBlock(f: Bytes, tail: int64, b: IndexBlock): Bytes {
    var f1 := Overwrite(f, tail, EncodeIndex(b));
    Overwrite(f1, |f1| - FOOTER_SIZE, I64(tail))
  }

  function ParseEntry(s: Bytes): IndexEntry
    requires |s| == ENTRY_SIZE
  {
    IndexEntry(GetI64(s[..8]), GetI64(s[8..16]), GetI64(s[16..24]), GetI32(s[24..28]))
  }

  lemma EntryRoundTrip(e: IndexEntry)
    ensures ParseEntry(EncodeEntry(e)) == e
  {
    hide I64, I32, GetI64, GetI32;
    var s := EncodeEntry(e);
    assert s == I64(e.maxTime) + I64(e.minTime) + I64(e.offset) + I32(e.size);
    assert s[..8] == I64(e.maxTime) && s[8..16] == I64(e.minTime);
    assert s[16..24] == I64(e.offset) && s[24..28] == I32(e.size);
    I64RoundTrip(e.maxTime);
    I64RoundTrip(e.minTime);
    I64RoundTrip(e.offset);
    I32RoundTrip(e.size);
  }

  /** In an entry the greatest time comes first, then the least, the offset and the size. */
  lemma EntryFields(e: IndexEntry)
    ensures var s := EncodeEntry(e);
            && s[..8] == I64(e.maxTime) && s[8..16] == I64(e.minTime)
            && s[16..24] == I64(e.offset) && s[24..] == I32(e.size)
  {
    hide I64, I32;
    var s := EncodeEntry(e);
    assert s == I64(e.maxTime) + I64(e.minTime) + I64(e.offset) + I32(e.size);
  }

  /** The n entries that start at pos; None when the file ends first. */
  function ParseEntries(f: Bytes, pos: nat, n: nat): Option<seq<IndexEntry>>
    decreases n
  {
    if n == 0 then Some([])
    else if pos + ENTRY_SIZE > |f| then None
    else
      match ParseEntries(f, pos + ENTRY_SIZE, n - 1)
      case None => None
      case Some(rest) => Some([ParseEntry(Slice(f, pos, ENTRY_SIZE))] + rest)
  }

  /** One series index block at pos, with the position after it. */
  function ParseIndex(f: Bytes, pos: nat): (r: Option<(SeriesIndexBlock, nat)>)
    ensures r.Some? ==> pos + 8 <= r.value.1 <= |f|
  {
    if pos + 2 > |f| then None
    else
      var n := GetU16(Slice(f, pos, 2));
      if pos + 2 + n + 6 > |f| then None
      else
        var typ := GetI32(Slice(f, pos + 2 + n, 4));
        var count := GetU16(Slice(f, pos + 6 + n, 2));
        match ParseEntries(f, pos + 8 + n, count)
        case None => None
        case Some(es) =>
          ParseEntriesInside(f, pos + 8 + n, count);
          var key := CString(Slice(f, pos + 2, n), 0);
          Some((SeriesIndexBlock(n, key, typ, count, es), pos + 8 + n + ENTRY_SIZE * count))
  }

  lemma {:induction false} ParseEntriesInside(f: Bytes, pos: nat, n: nat)
    requires ParseEntries(f, pos, n).Some? && pos <= |f|
    ensures pos + ENTRY_SIZE * n <= |f| && |ParseEntries(f, pos, n).value| == n
    decreases n
  {
    if n > 0 {
      ParseEntriesInside(f, pos + ENTRY_SIZE, n - 1);
    }
  }

  /** An index block loads if and only if the file holds all of it. */
  lemma ParsesWhatIsThere(f: Bytes, pos: nat)
    ensures ParseIndex(f, pos).Some? <==>
            && pos + 2 <= |f|
            && var n := GetU16(Slice(f, pos, 2));
               && pos + n + 8 <= |f|
               && pos + n + 8 + 28 * GetU16(Slice(f, pos + n + 6, 2)) <= |f|
  {
    hide GetU16, GetI32, CString, ParseEntry;
    if pos + 2 <= |f| {
      var n := GetU16(Slice(f, pos, 2));
      if pos + n + 8 <= |f| {
        EntriesThere(f, pos + n + 8, GetU16(Slice(f, pos + n + 6, 2)));
      }
    }
  }

  lemma {:induction false} EntriesThere(f: Bytes, pos: nat, n: nat)
    requires pos <= |f|
    ensures ParseEntries(f, pos, n).Some? <==> pos + 28 * n <= |f|
    decreases n
  {
    if n > 0 && pos + 28 <= |f| {
      EntriesThere(f, pos + 28, n - 1);
    }
  }

  /** All blocks from pos up to the footer at tail. */
  function ParseIndexes(f: Bytes, pos: nat, tail: int): Option<seq<SeriesIndexBlock>>
    requires tail <= |f|
    decreases tail - pos
  {
    if pos >= tail then Some([])
    else
      match ParseIndex(f, pos)
      case None => None
      case Some((b, next)) =>
        match ParseIndexes(f, next, tail)
        case None => None
        case Some(rest) => Some([b] + rest)
  }

  /** load_tsm_index_entry on one file: follow the footer, then parse up to it.
      None stands for the reads of the source that run off the end of the file. */
  function LoadIndex(f: Bytes): Option<seq<SeriesIndexBlock>>
  {
    if |f| < FOOTER_SIZE then None
    else
      var offset := GetI64(Slice(f, |f| - FOOTER_SIZE, 8));
      if offset < 0 then None
      else ParseIndexes(f, offset, |f| - FOOTER_SIZE)
  }

  /** What the loader makes of a block the writer wrote. */
  function Loaded(b: IndexBlock): SeriesIndexBlock {
    SeriesIndexBlock(|b.key|, CString(b.key, 0), TypeCode(b.typ), |b.entries|, b.entries)
  }

  function LoadedAll(bs: seq<IndexBlock>): (r: seq<SeriesIndexBlock>)
    ensures |r| == |bs|
    ensures forall k :: 0 <= k < |bs| ==> r[k] == Loaded(bs[k])
  {
    seq(|bs|, k requires 0 <= k < |bs| => Loaded(bs[k]))
  }

  /** Of what type a column is stands in the index as 0 for integers, 1 for strings, 2 for floats,
      four bytes behind the key, and the loader finds it there. */
  lemma TypesLoad(f: Bytes, pos: nat, b: IndexBlock)
    requires Encodable(b) && At(f, pos, EncodeIndex(b))
    ensures var code := match b.typ case Integer => 0 case String => 1 case Float => 2;
            At(f, pos + 2 + |b.key|, [code, 0, 0, 0]) && Loaded(b).typ == code
  {
    hide At, EncodeIndex;
    MetaFields(f, pos, b);
    I32Bytes(TypeCode(b.typ));
  }

  lemma {:induction false} ParseEncodedEntries(f: Bytes, pos: nat, es: seq<IndexEntry>)
    requires At(f, pos, EncodeEntries(es))
    ensures ParseEntries(f, pos, |es|) == Some(es)
    decreases |es|
  {
    if es != [] {
      AtSplit(f, pos, EncodeEntry(es[0]), EncodeEntries(es[1..]));
      EntryRoundTrip(es[0]);
      ParseEncodedEntries(f, pos + ENTRY_SIZE, es[1..]);
      assert [es[0]] + es[1..] == es;
    }
  }

  ghost predicate Encodable(b: IndexBlock) {
    |b.key| < 0x1_0000 && |b.entries| < 0x1_0000
  }

  lemma MetaFields(f: Bytes, pos: int, b: IndexBlock)
    requires Encodable(b) && At(f, pos, EncodeIndex(b))
    ensures At(f, pos, U16(|b.key|)) && At(f, pos + 2, b.key)
    ensures At(f, pos + 2 + |b.key|, I32(TypeCode(b.typ))) && At(f, pos + 6 + |b.key|, U16(|b.entries|))
    ensures At(f, pos + 8 + |b.key|, EncodeEntries(b.entries))
  {
    hide U16, I32, At, EncodeEntries;
    var n, k, t, c := U16(|b.key|), b.key[..|b.key| % 0x1_0000], I32(TypeCode(b.typ)), U16(|b.entries|);
    assert k == b.key;
    AtSplit(f, pos, EncodeMeta(b.key, b.typ, |b.entries|), EncodeEntries(b.entries));
    AtSplit(f, pos, n + k + t, c);
    AtSplit(f, pos, n + k, t);
    AtSplit(f, pos, n, k);
  }

  lemma MetaValues(f: Bytes, pos: nat, b: IndexBlock)
    requires Encodable(b) && At(f, pos, EncodeIndex(b))
    ensures pos + 8 + |b.key| <= |f| && GetU16(Slice(f, pos, 2)) == |b.key|
    ensures Slice(f, pos + 2, |b.key|) == b.key
    ensures GetI32(Slice(f, pos + 2 + |b.key|, 4)) == TypeCode(b.typ)
    ensures GetU16(Slice(f, pos + 6 + |b.key|, 2)) == |b.entries|
  {
    hide Slice, U16, GetU16, I32, GetI32, EncodeIndex, EncodeEntries;
    MetaFields(f, pos, b);
    U16RoundTrip(|b.key|);
    U16RoundTrip(|b.entries|);
    I32RoundTrip(TypeCode(b.typ));
  }

  lemma ParseIndexParts(f: Bytes, pos: nat, key: Bytes, typ: int32, es: seq<IndexEntry>)
    requires pos + 8 + |key| <= |f| && GetU16(Slice(f, pos, 2)) == |key|
    requires Slice(f, pos + 2, |key|) == key
    requires GetI32(Slice(f, pos + 2 + |key|, 4)) == typ
    requires GetU16(Slice(f, pos + 6 + |key|, 2)) == |es|
    requires ParseEntries(f, pos + 8 + |key|, |es|) == Some(es)
    ensures ParseIndex(f, pos) ==
            Some((SeriesIndexBlock(|key|, CString(key, 0), typ, |es|, es), pos + 8 + |key| + ENTRY_SIZE * |es|))
  {
    hide GetU16, GetI32, ParseEntries, CString;
  }

  lemma ParseEncodedIndex(f: Bytes, pos: nat, b: IndexBlock)
    requires Encodable(b) && At(f, pos, EncodeIndex(b))
    ensures ParseIndex(f, pos) == Some((Loaded(b), pos + |EncodeIndex(b)|))
  {
    hide GetU16, GetI32, ParseEntries, CString, U16, I32, EncodeEntries, ParseIndex;
    MetaValues(f, pos, b);
    MetaFields(f, pos, b);
    ParseEncodedEntries(f, pos + 8 + |b.key|, b.entries);
    ParseIndexParts(f, pos, b.key, TypeCode(b.typ), b.entries);
  }

  lemma ParseIndexesCons(f: Bytes, pos: nat, tail: int, b: SeriesIndexBlock, next: nat, rest: seq<SeriesIndexBlock>)
    requires pos < tail <= |f|
    requires ParseIndex(f, pos) == Some((b, next)) && ParseIndexes(f, next, tail) == Some(rest)
    ensures ParseIndexes(f, pos, tail) == Some([b] + rest)
  {
  }

  lemma {:induction false} ParseEncodedIndexes(f: Bytes, pos: nat, tail: int, bs: seq<IndexBlock>)
    requires forall b :: b in bs ==> Encodable(b)
    requires At(f, pos, EncodeIndexes(bs)) && tail == pos + |EncodeIndexes(bs)|
    ensures ParseIndexes(f, pos, tail) == Some(LoadedAll(bs))
    decreases |bs|
  {
    hide Slice, ParseIndex, EncodeIndex, Loaded;
    if bs != [] {
      var next := pos + |EncodeIndex(bs[0])|;
      AtSplit(f, pos, EncodeIndex(bs[0]), EncodeIndexes(bs[1..]));
      ParseEncodedIndex(f, pos, bs[0]);
      ParseEncodedIndexes(f, next, tail, bs[1..]);
      ParseIndexesCons(f, pos, tail, Loaded(bs[0]), next, LoadedAll(bs[1..]));
      assert LoadedAll(bs) == [Loaded(bs[0])] + LoadedAll(bs[1..]);
    }
  }

  /** With the index region in place and the footer pointing at it, loading is exact. */
  lemma LoadWritten(f: Bytes, tail: int64, bs: seq<IndexBlock>)
    requires forall b :: b in bs ==> Encodable(b)
    requires tail >= 0 && tail + |EncodeIndexes(bs)| == |f| - FOOTER_SIZE
    requires At(f, tail, EncodeIndexes(bs)) && At(f, |f| - FOOTER_SIZE, I64(tail))
    ensures LoadIndex(f) == Some(LoadedAll(bs))
  {
    hide Slice, I64, GetI64, EncodeIndexes, ParseIndexes;
    I64RoundTrip(tail);
    ParseEncodedIndexes(f, tail, |f| - FOOTER_SIZE, bs);
  }

  // ---------- what a query looks up ----------

  /** m_tsm_index of one shard: the blocks of every key, file after file. */
  type Index = map<Bytes, seq<SeriesIndexBlock>>

  function Under(index: Index, key: Bytes): seq<SeriesIndexBlock> {
    if key in index then index[key] else []
  }

  /** Each block is pushed behind those of its key. */
  function Grouped(index: Index, bs: seq<SeriesIndexBlock>): Index
    decreases |bs|
  {
    if bs == [] then index else Grouped(index[bs[0].key := Under(index, bs[0].key) + [bs[0]]], bs[1..])
  }

  function OfKey(bs: seq<SeriesIndexBlock>, key: Bytes): seq<SeriesIndexBlock> {
    if bs == [] then [] else (if bs[0].key == key then [bs[0]] else []) + OfKey(bs[1..], key)
  }

  /** Under a key stand exactly its blocks, in the order they were loaded. */
  lemma {:induction false} GroupedLooks(index: Index, bs: seq<SeriesIndexBlock>, key: Bytes)
    ensures Under(Grouped(index, bs), key) == Under(index, key) + OfKey(bs, key)
    decreases |bs|
  {
    if bs != [] {
      var b, later := bs[0], OfKey(bs[1..], key);
      var next := index[b.key := Under(index, b.key) + [b]];
      GroupedLooks(next, bs[1..], key);
      if b.key == key {
        assert Under(next, key) + later == Under(index, key) + ([b] + later);
      } else {
        assert Under(next, key) == Under(index, key) && [] + later == later;
      }
    }
  }

  lemma {:induction false} GroupedSnoc(index: Index, bs: seq<SeriesIndexBlock>, b: SeriesIndexBlock)
    ensures Grouped(index, bs + [b]) ==
            Grouped(index, bs)[b.key := Under(Grouped(index, bs), b.key) + [b]]
    decreases |bs|
  {
    if bs == [] {
      assert Grouped(index[b.key := Under(index, b.key) + [b]], []) == index[b.key := Under(index, b.key) + [b]];
      assert ([b])[1..] == [];
    } else {
      assert (bs + [b])[1..] == bs[1..] + [b];
      GroupedSnoc(index[bs[0].key := Under(index, bs[0].key) + [bs[0]]], bs[1..], b);
    }
  }

  // ---------- the file object ----------

  /** An open TSM file; bytes is its content on disk. */
  class File {
    var bytes: Bytes

    /** create_file leaves an empty file behind. */
    constructor ()
      ensures bytes == []
    {
      bytes := [];
    }

    method WriteAt(off: int, d: Bytes)
      modifies this
      ensures bytes == Overwrite(old(bytes), off, d)
    {
      bytes := Overwrite(bytes, off, d);
    }

    /** write_header_to_file: the eight bytes of a Header(1, 1) object. */
    method WriteHeader(magic: int32, version: byte, padding: Bytes)
      modifies this
      ensures bytes == Overwrite(old(bytes), 0, I32(magic) + [version] + padding)
    {
      WriteAt(0, I32(magic) + [version] + padding);
    }

    method WriteFooter(footer: int64, tail: int)
      modifies this
      ensures bytes == Overwrite(old(bytes), tail - FOOTER_SIZE, I64(footer))
    {
      WriteAt(tail - FOOTER_SIZE, I64(footer));
    }

    method WriteData(typ: int32, num: int32, ct: Bytes, cv: Bytes, offset: nat) returns (size: nat)
      modifies this
      ensures bytes == Overwrite(old(bytes), offset, EncodeData(typ, num, ct, cv))
      ensures size == 16 + |ct| + |cv|
    {
      hide Overwrite, I32, Trunc32;
      ghost var f := bytes;
      var a, b, c, d := I32(typ), I32(num), I32(Trunc32(|ct|)), I32(Trunc32(|cv|));
      WriteAt(offset, a);
      WriteAt(offset + 4, b);
      OverwriteConcat(f, offset, a, b);
      WriteAt(offset + 8, c);
      OverwriteConcat(f, offset, a + b, c);
      WriteAt(offset + 12, d);
      OverwriteConcat(f, offset, a + b + c, d);
      WriteAt(offset + 16, ct);
      OverwriteConcat(f, offset, a + b + c + d, ct);
      WriteAt(offset + 16 + |ct|, cv);
      OverwriteConcat(f, offset, a + b + c + d + ct, cv);
      size := 16 + |ct| + |cv|;
    }

    method ReadData(env: Env, offset: int) returns (r: Option<StoredBlock>)
      ensures r == ReadBlock(env, bytes, offset)
    {
      if offset < 0 || offset + 16 > |bytes| {
        return None;
      }
      var typ, num := GetI32(Slice(bytes, offset, 4)), GetI32(Slice(bytes, offset + 4, 4));
      var nt, nv := GetI32(Slice(bytes, offset + 8, 4)), GetI32(Slice(bytes, offset + 12, 4));
      if nt < 0 || nv < 0 || offset + 16 + nt + nv > |bytes| {
        return None;
      }
      var ds := Columns.DecodeDifferences(env.uncompress(Slice(bytes, offset + 16, nt)));
      var vs := Columns.DecodeStrings(env.uncompress(Slice(bytes, offset + 16 + nt, nv)));
      if ds.Corrupt? || vs.Corrupt? {
        return None;
      }
      return Some(StoredBlock(typ, num, Columns.Restore(ds.value), vs.value));
    }

    method WriteIndexMeta(key: Bytes, typ: ColumnType, count: nat, offset: nat) returns (size: nat)
      modifies this
      ensures bytes == Overwrite(old(bytes), offset, EncodeMeta(key, typ, count))
      ensures size == |EncodeMeta(key, typ, count)|
    {
      hide Overwrite, I32, U16;
      ghost var f := bytes;
      var length := |key| % 0x1_0000;
      var n, k, t, c := U16(|key|), key[..length], I32(TypeCode(typ)), U16(count);
      WriteAt(offset, n);
      WriteAt(offset + 2, k);
      OverwriteConcat(f, offset, n, k);
      WriteAt(offset + 2 + length, t);
      OverwriteConcat(f, offset, n + k, t);
      WriteAt(offset + 6 + length, c);
      OverwriteConcat(f, offset, n + k + t, c);
      size := 8 + length;
    }

    method WriteIndexEntry(e: IndexEntry, offset: nat)
      modifies this
      ensures bytes == Overwrite(old(bytes), offset, EncodeEntry(e))
    {
      hide Overwrite, I32, I64;
      ghost var f := bytes;
      var a, b, c, d := I64(e.maxTime), I64(e.minTime), I64(e.offset), I32(e.size);
      WriteAt(offset, a);
      WriteAt(offset + 8, b);
      OverwriteConcat(f, offset, a, b);
      WriteAt(offset + 16, c);
      OverwriteConcat(f, offset, a + b, c);
      WriteAt(offset + 24, d);
      OverwriteConcat(f, offset, a + b + c, d);
    }

    method WriteSeriesIndexBlock(b: IndexBlock, tail: int64) returns (ok: bool)
      requires 0 <= tail
      modifies this
      ensures ok == (b.entries != [])
      ensures bytes == if ok then WithIndexBlock(old(bytes), tail, b) else old(bytes)
    {
      hide Overwrite, EncodeEntry, I64;
      if b.entries == [] {
        return false;
      }
      ghost var f := bytes;
      var metaSize := WriteIndexMeta(b.key, b.typ, |b.entries|, tail);
      ghost var meta := EncodeMeta(b.key, b.typ, |b.entries|);
      var pos := tail + metaSize;
      assert meta + EncodeEntries(b.entries[..0]) == meta;
      for i := 0 to |b.entries|
        invariant pos == tail + metaSize + ENTRY_SIZE * i
        invariant bytes == Overwrite(f, tail, meta + EncodeEntries(b.entries[..i]))
      {
        WriteIndexEntry(b.entries[i], pos);
        OverwriteConcat(f, tail, meta + EncodeEntries(b.entries[..i]), EncodeEntry(b.entries[i]));
        EncodeEntriesSnoc(b.entries[..i], b.entries[i]);
        assert b.entries[..i] + [b.entries[i]] == b.entries[..i + 1];
        assert meta + EncodeEntries(b.entries[..i]) + EncodeEntry(b.entries[i]) ==
               meta + EncodeEntries(b.entries[..i + 1]);
        pos := pos + ENTRY_SIZE;
      }
      assert b.entries[..|b.entries|] == b.entries;
      WriteAt(|bytes| - FOOTER_SIZE, I64(tail));
      return true;
    }

    method LoadTsmIndexEntry() returns (r: Option<seq<SeriesIndexBlock>>)
      ensures r == LoadIndex(bytes)
    {
      hide GetI64, ParseIndex, Slice;
      if |bytes| < FOOTER_SIZE {
        return None;
      }
      var tail := |bytes| - FOOTER_SIZE;
      var offset := GetI64(Slice(bytes, tail, 8));
      if offset < 0 {
        return None;
      }
      var blocks: seq<SeriesIndexBlock> := [];
      var pos: nat := offset;
      assert forall rest: seq<SeriesIndexBlock> :: blocks + rest == rest;
      while pos < tail
        invariant ParseIndexes(bytes, offset, tail) ==
                  match ParseIndexes(bytes, pos, tail) case None => None case Some(rest) => Some(blocks + rest)
        decreases tail - pos
      {
        var parsed := ReadIndexBlock(pos);
        if parsed.None? {
          return None;
        }
        assert forall rest: seq<SeriesIndexBlock> ::
            blocks + ([parsed.value.0] + rest) == (blocks + [parsed.value.0]) + rest;
        blocks := blocks + [parsed.value.0];
        pos := parsed.value.1;
      }
      assert blocks + [] == blocks;
      return Some(blocks);
    }

    method ReadIndexBlock(pos: nat) returns (r: Option<(SeriesIndexBlock, nat)>)
      ensures r == ParseIndex(bytes, pos)
    {
      if pos + 2 > |bytes| {
        return None;
      }
      var n := GetU16(Slice(bytes, pos, 2));
      if pos + 2 + n + 6 > |bytes| {
        return None;
      }
      var typ := GetI32(Slice(bytes, pos + 2 + n, 4));
      var count := GetU16(Slice(bytes, pos + 6 + n, 2));
      var first := pos + 8 + n;
      var entries := ReadEntries(first, count);
      if entries.None? {
        return None;
      }
      var key := CString(Slice(bytes, pos + 2, n), 0);
      return Some((SeriesIndexBlock(n, key, typ, count, entries.value), first + ENTRY_SIZE * count));
    }

    method ReadEntries(first: nat, count: nat) returns (r: Option<seq<IndexEntry>>)
      ensures r == ParseEntries(bytes, first, count)
    {
      var entries: seq<IndexEntry> := [];
      assert forall rest: seq<IndexEntry> :: entries + rest == rest;
      for i := 0 to count
        invariant ParseEntries(bytes, first, count) ==
                  match ParseEntries(bytes, first + ENTRY_SIZE * i, count - i)
                  case None => None
                  case Some(rest) => Some(entries + rest)
      {
        var at := first + ENTRY_SIZE * i;
        if at + ENTRY_SIZE > |bytes| {
          return None;
        }
        var e := ParseEntry(Slice(bytes, at, ENTRY_SIZE));
        assert forall rest: seq<IndexEntry> :: entries + ([e] + rest) == (entries + [e]) + rest;
        entries := entries + [e];
      }
      assert entries + [] == entries;
      return Some(entries);
    }
  }

  lemma {:induction false} EncodeEntriesSnoc(es: seq<IndexEntry>, e: IndexEntry)
    ensures EncodeEntries(es + [e]) == EncodeEntries(es) + EncodeEntry(e)
  {
    if es == [] {
      assert EncodeEntries([e]) == EncodeEntry(e) + EncodeEntries([]);
    } else {
      assert (es + [e])[1..] == es[1..] + [e];
      EncodeEntriesSnoc(es[1..], e);
    }
  }

  /** The blocks of all files of a shard, in the order of the files; None where one does not
      load. */
  function LoadFiles(contents: seq<Bytes>): Option<seq<SeriesIndexBlock>> {
    if contents == [] then Some([])
    else
      match (LoadFiles(contents[..|contents| - 1]), LoadIndex(contents[|contents| - 1]))
      case (Some(before), Some(last)) => Some(before + last)
      case _ => None
  }

  ghost function ContentsOf(files: seq<File>): (r: seq<Bytes>)
    reads files
    ensures |r| == |files| && forall k :: 0 <= k < |r| ==> r[k] == files[k].bytes
  {
    if files == [] then [] else ContentsOf(files[..|files| - 1]) + [files[|files| - 1].bytes]
  }

  /** load_tsm_index_entry over the files of a shard. */
  method LoadShard(files: seq<File>) returns (index: Option<Index>)
    ensures var all := LoadFiles(ContentsOf(files));
            index == if all.Some? then Some(Grouped(map[], all.value)) else None
  {
    hide LoadIndex, LoadFiles, Grouped;
    ghost var contents := ContentsOf(files);
    ghost var all: seq<SeriesIndexBlock> := [];
    var built: Index := map[];
    NothingLoaded();
    for i := 0 to |files|
      invariant LoadFiles(contents[..i]) == Some(all) && built == Grouped(map[], all)
    {
      LoadFilesStep(contents, i);
      var blocks := files[i].LoadTsmIndexEntry();
      if blocks.None? {
        LoadFilesFails(contents, i);
        return None;
      }
      built := GroupBlocks(built, all, blocks.value);
      all := all + blocks.value;
    }
    assert contents[..|files|] == contents;
    return Some(built);
  }

  /** Each block is pushed behind those of its key. */
  method GroupBlocks(index: Index, ghost before: seq<SeriesIndexBlock>, blocks: seq<SeriesIndexBlock>)
    returns (built: Index)
    requires index == Grouped(map[], before)
    ensures built == Grouped(map[], before + blocks)
  {
    hide Grouped;
    built := index;
    assert before + blocks[..0] == before;
    for j := 0 to |blocks|
      invariant built == Grouped(map[], before + blocks[..j])
    {
      var b := blocks[j];
      GroupedSnoc(map[], before + blocks[..j], b);
      assert before + blocks[..j + 1] == before + blocks[..j] + [b];
      built := built[b.key := (if b.key in built then built[b.key] else []) + [b]];
    }
    assert blocks[..|blocks|] == blocks;
  }

  lemma NothingLoaded()
    ensures LoadFiles([]) == Some([]) && Grouped(map[], []) == map[]
  {
  }

  lemma LoadFilesStep(contents: seq<Bytes>, i: nat)
    requires i < |contents|
    ensures LoadFiles(contents[..i]).Some? && LoadIndex(contents[i]).Some? ==>
              LoadFiles(contents[..i + 1]) == Some(LoadFiles(contents[..i]).value + LoadIndex(contents[i]).value)
  {
    hide LoadIndex;
    assert contents[..i + 1][..i] == contents[..i];
  }

  lemma {:induction false} LoadFilesFails(contents: seq<Bytes>, i: nat)
    requires i < |contents| && LoadIndex(contents[i]).None?
    ensures LoadFiles(contents).None?
  {
    hide LoadIndex;
    var n := |contents| - 1;
    if i < n {
      assert contents[..n][i] == contents[i];
      LoadFilesFails(contents[..n], i);
    }
  }
}
