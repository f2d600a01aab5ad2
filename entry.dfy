/**
  One archive member and its fixed-layout header record:
    path NUL, packing_method, original_size, reserved, timestamp, data_size
  with each field a little-endian uint32. The record codec is stated on the
  value `Record`; the class `Entry` holds the mutable fields the source
  updates in place, and its named constructor `Header` builds the
  Version-tagged entry that carries the property block.
 */
module Entries {
  import opened Constants
  import opened Utilities
  import opened HeaderProperties

  type NulFree = s: Bytes | 0 !in s

  /** path.join and path.basename are library behaviour; they are left uninterpreted, and a joined path holds no NUL. */
  const Join: (Bytes, Bytes) -> NulFree
  const Basename: Bytes -> Bytes

  /** What lstat and readdir report about a path that exists (mtime already in whole seconds). */
  datatype Stat = Stat(size: nat, mtime: int, isFile: bool, isDir: bool, listing: seq<DirEntry>)
  /**
    A name readdir lists, with the stat of the joined path, or None when
    existsSync rejects it (a dangling link, or a file removed in between).
   */
  datatype DirEntry = DirEntry(name: Bytes, stat: Option<Stat>)

  const DOT: Bytes := [0x2e]
  const DOTDOT: Bytes := [0x2e, 0x2e]

  /** readdir's names with '.' and '..' filtered out, in listing order. */
  function Listed(ls: seq<DirEntry>): (r: seq<DirEntry>)
    ensures |r| <= |ls|
    ensures forall d :: d in r ==> d in ls && d.name != DOT && d.name != DOTDOT
    ensures forall d :: d in ls && d.name != DOT && d.name != DOTDOT ==> d in r
  {
    if |ls| == 0 then []
    else
      var d := ls[|ls| - 1];
      Listed(ls[..|ls| - 1]) + (if d.name == DOT || d.name == DOTDOT then [] else [d])
  }

  /** filter keeps the listing's order: listing two parts gives the two parts' listings one after the other. */
  lemma {:induction false} ListedAppend(a: seq<DirEntry>, b: seq<DirEntry>)
    ensures Listed(a + b) == Listed(a) + Listed(b)
    decreases |b|
  {
    if |b| == 0 {
      assert a + b == a;
    } else {
      var init := b[..|b| - 1];
      assert (a + b)[..|a + b| - 1] == a + init;
      assert (a + b)[|a + b| - 1] == b[|b| - 1];
      ListedAppend(a, init);
    }
  }

  /** A single name is kept, once, exactly when it is neither '.' nor '..'. */
  lemma ListedSingle(d: DirEntry)
    ensures Listed([d]) == if d.name == DOT || d.name == DOTDOT then [] else [d]
  {
    assert [d][..0] == [];
  }

  // ---------------------------------------------------------------------------
  // The header record as a value

  datatype Record = Record(path: Bytes, packingMethod: int, originalSize: int, reserved: int, timestamp: int, dataSize: int)

  predicate FieldsFit(r: Record) {
    IsUint32(r.packingMethod) && IsUint32(r.originalSize) && IsUint32(r.reserved) &&
    IsUint32(r.timestamp) && IsUint32(r.dataSize)
  }

  /** The values getHeaderData converts, in order. */
  function RecordValues(r: Record): seq<JsValue> {
    [ StringValue(r.path), NumberValue(r.packingMethod), NumberValue(r.originalSize),
      NumberValue(r.reserved), NumberValue(r.timestamp), NumberValue(r.dataSize) ]
  }

  /** Buffer.concat of convertToBuffer applied to each value; an undefined conversion is refused. */
  function ConcatBuffers(vs: seq<JsValue>): Result<Bytes> {
    if |vs| == 0 then Ok([])
    else
      match ConcatBuffers(vs[..|vs| - 1])
      case Err(e) => Err(e)
      case Ok(init) =>
        match ConvertToBuffer(vs[|vs| - 1], true)
        case Err(e) => Err(e)
        case Ok(None) => Err(InvalidArgument)
        case Ok(Some(b)) => Ok(init + b)
  }

  /** The record layout spelled out. */
  function RecordBytes(r: Record): (b: Bytes)
    requires FieldsFit(r)
  {
    r.path + NULL_TERM + Uint32ToLE(r.packingMethod) + Uint32ToLE(r.originalSize) +
    Uint32ToLE(r.reserved) + Uint32ToLE(r.timestamp) + Uint32ToLE(r.dataSize)
  }

  /**
    getHeaderData on a record: the path bytes and a NUL, then the five fields
    as 4-byte little-endian values in order, |path| + 21 bytes in all; it
    throws exactly when some field is not a uint32.
   */
  function EncodeRecord(r: Record): (res: Result<Bytes>)
    ensures res.Ok? <==> FieldsFit(r)
    ensures res.Ok? ==> res.value == RecordBytes(r)
    ensures res.Ok? ==> |res.value| == |r.path| + HEADER_ENTRY_DEFAULT_SIZE
    ensures res.Err? ==> res.error == OutOfRange
  {
    var v1 := [StringValue(r.path)];
    var v2 := v1 + [NumberValue(r.packingMethod)];
    var v3 := v2 + [NumberValue(r.originalSize)];
    var v4 := v3 + [NumberValue(r.reserved)];
    var v5 := v4 + [NumberValue(r.timestamp)];
    var v6 := v5 + [NumberValue(r.dataSize)];
    assert v1[..0] == [] && v1[|v1| - 1] == StringValue(r.path);
    assert ConcatBuffers(v1[..0]) == Ok([]);
    assert v2[..1] == v1 && v3[..2] == v2 && v4[..3] == v3 && v5[..4] == v4 && v6[..5] == v5;
    var b1 := r.path + NULL_TERM;
    assert [] + b1 == b1;
    assert ConcatBuffers(v1) == Ok(b1);
    var f2 := IsUint32(r.packingMethod);
    var b2 := if f2 then b1 + Uint32ToLE(r.packingMethod) else [];
    assert ConcatBuffers(v2) == if f2 then Ok(b2) else Err(OutOfRange);
    var f3 := f2 && IsUint32(r.originalSize);
    var b3 := if f3 then b2 + Uint32ToLE(r.originalSize) else [];
    assert ConcatBuffers(v3) == if f3 then Ok(b3) else Err(OutOfRange);
    var f4 := f3 && IsUint32(r.reserved);
    var b4 := if f4 then b3 + Uint32ToLE(r.reserved) else [];
    assert ConcatBuffers(v4) == if f4 then Ok(b4) else Err(OutOfRange);
    var f5 := f4 && IsUint32(r.timestamp);
    var b5 := if f5 then b4 + Uint32ToLE(r.timestamp) else [];
    assert ConcatBuffers(v5) == if f5 then Ok(b5) else Err(OutOfRange);
    var f6 := f5 && IsUint32(r.dataSize);
    var b6 := if f6 then b5 + Uint32ToLE(r.dataSize) else [];
    assert ConcatBuffers(v6) == if f6 then Ok(b6) else Err(OutOfRange);
    assert v6 == RecordValues(r);
    ConcatBuffers(RecordValues(r))
  }

  datatype Decoded = Decoded(record: Record, buffer: Bytes, bytesRead: nat, cursor: nat)

  function ReadUint32LE(b: Bytes, offset: nat): nat
    requires offset + UINT32_LENGTH <= |b|
  {
    LEToUint32(b[offset..offset + UINT32_LENGTH])
  }

  /**
    readHeaderData on a record: the path is the bytes before the first NUL at
    or after the cursor, the five fields come from the 20 bytes after it;
    fails when there is no NUL or fewer than 20 bytes follow it.
   */
  function DecodeRecord(input: Bytes, cursor: nat): Result<Decoded> {
    match FirstIndexFrom(input, cursor, 0)
    case None => Err(ReadFailed)
    case Some(p) =>
      if p + HEADER_ENTRY_DEFAULT_SIZE > |input| then Err(ReadFailed)
      else
        var full := input[cursor..p + HEADER_ENTRY_DEFAULT_SIZE];
        Ok(Decoded(FieldsAt(input[cursor..p], full, p + 1 - cursor), full, |full|, p + HEADER_ENTRY_DEFAULT_SIZE))
  }

  /** The record with the given path whose five fields are read from `b` at k, k + 4, ..., k + 16. */
  function FieldsAt(path: Bytes, b: Bytes, k: nat): Record
    requires k + 5 * UINT32_LENGTH <= |b|
  {
    Record(path, ReadUint32LE(b, k), ReadUint32LE(b, k + 4), ReadUint32LE(b, k + 8),
           ReadUint32LE(b, k + 12), ReadUint32LE(b, k + 16))
  }

  lemma SliceOfSlice(s: Bytes, a: nat, b: nat, i: nat, j: nat)
    requires a <= b <= |s| && i <= j <= b - a
    ensures s[a..b][i..j] == s[a + i..a + j]
  {
    assert |s[a..b][i..j]| == j - i == |s[a + i..a + j]|;
    forall t | 0 <= t < j - i ensures s[a..b][i..j][t] == s[a + i..a + j][t] {
      assert s[a..b][i..j][t] == s[a..b][i + t] == s[a + i + t];
    }
  }

  /** input[p] is the first NUL at or after the cursor. */
  predicate FirstNul(input: Bytes, cursor: nat, p: int) {
    cursor <= p < |input| && input[p] == 0 && forall j :: cursor <= j < p ==> input[j] != 0
  }

  /** In the bytes scanned up to and including the first NUL at p, IndexOf finds that NUL last. */
  lemma ScanEndsAtFirstNul(input: Bytes, cursor: nat, p: nat)
    requires FirstIndexFrom(input, cursor, 0) == Some(p)
    ensures IndexOf(input[cursor..p + 1], 0) == p - cursor
    ensures input[cursor..p + 1][..p - cursor] == input[cursor..p]
  {
    FirstIndexFromSpec(input, cursor, 0);
    var b := input[cursor..p + 1];
    IndexOfSpec(b, 0);
    assert b[p - cursor] == 0;
    assert forall j :: 0 <= j < p - cursor ==> b[j] == input[cursor + j];
  }

  /**
    After readUntilMatch(cursor, NULL_TERM) has read `index` bytes, the last
    of them is the first NUL at or after the cursor and the path is the
    bytes before it.
   */
  /**
    The scan at the start of readHeaderData: the bytes from the cursor up to
    and including the first NUL, or ReadFailed when no NUL follows.
   */
  method ScanPath(input: Bytes, cursor: nat) returns (r: Result<Bytes>)
    ensures r.Err? <==> FirstIndexFrom(input, cursor, 0).None?
    ensures r.Err? ==> r.error == ReadFailed
    ensures r.Ok? ==> |r.value| > 0 && cursor + |r.value| <= |input| && r.value == input[cursor..cursor + |r.value|]
    ensures r.Ok? ==> FirstIndexFrom(input, cursor, 0) == Some(cursor + |r.value| - 1) && IndexOf(r.value, 0) == |r.value| - 1
  {
    var scanned := ReadUntilMatch(input, cursor, NULL_TERM);
    if scanned.Err? {
      assert NULL_TERM == [0];
      NoMatchByte(input, cursor, 0);
      return Err(scanned.error);
    }
    ScannedPath(input, cursor, scanned.value.index);
    return Ok(scanned.value.buffer);
  }

  /** The parse of a record whose path is `path`, stated with the path and what readHeaderData returns for it. */
  lemma DecodeAt(input: Bytes, cursor: nat, path: Bytes, info: ReadInfo, rec: Record)
    requires FirstIndexFrom(input, cursor, 0) == Some(cursor + |path|)
    requires cursor + |path| + HEADER_ENTRY_DEFAULT_SIZE <= |input|
    requires path == input[cursor..cursor + |path|] && info.buffer == input[cursor..cursor + |path| + HEADER_ENTRY_DEFAULT_SIZE]
    requires info.bytesRead == |info.buffer| && info.cursor == cursor + info.bytesRead
    requires rec == FieldsAt(path, info.buffer, |path| + 1)
    ensures DecodeRecord(input, cursor) == Ok(Decoded(rec, info.buffer, info.bytesRead, info.cursor))
  {
  }

  lemma ScannedPath(input: Bytes, cursor: nat, index: nat)
    requires ShortestMatch(input, cursor, NULL_TERM, index)
    ensures cursor + index <= |input|
    ensures FirstIndexFrom(input, cursor, 0) == Some(cursor + index - 1)
    ensures IndexOf(input[cursor..cursor + index], 0) == index - 1
    ensures input[cursor..cursor + index][..index - 1] == input[cursor..cursor + index - 1]
  {
    assert NULL_TERM == [0];
    ShortestMatchByte(input, cursor, 0, index);
    ScanEndsAtFirstNul(input, cursor, cursor + index - 1);
  }

  /** Reading the fields from a slice is reading them from the whole sequence, shifted by the slice's start. */
  lemma FieldsAtSlice(path: Bytes, s: Bytes, a: nat, b: nat, k: nat)
    requires a <= b <= |s| && k + 5 * UINT32_LENGTH <= b - a
    ensures FieldsAt(path, s[a..b], k) == FieldsAt(path, s, a + k)
  {
    SliceOfSlice(s, a, b, k, k + 4);
    SliceOfSlice(s, a, b, k + 4, k + 8);
    SliceOfSlice(s, a, b, k + 8, k + 12);
    SliceOfSlice(s, a, b, k + 12, k + 16);
    SliceOfSlice(s, a, b, k + 16, k + 20);
  }

  /** A successful parse stops at the first NUL after the cursor, with 20 bytes after it. */
  lemma DecodedAtFirstNul(input: Bytes, cursor: nat, d: Decoded)
    requires DecodeRecord(input, cursor) == Ok(d)
    ensures var p := cursor + |d.record.path|;
      FirstNul(input, cursor, p) && p + HEADER_ENTRY_DEFAULT_SIZE <= |input|
  {
    FirstIndexFromSpec(input, cursor, 0);
  }

  /** A successful parse reads the five fields from the 20 bytes after the path and its NUL. */
  lemma DecodedFields(input: Bytes, cursor: nat, d: Decoded, p: nat)
    requires DecodeRecord(input, cursor) == Ok(d)
    requires FirstIndexFrom(input, cursor, 0) == Some(p)
    ensures p + HEADER_ENTRY_DEFAULT_SIZE <= |input| &&
      d.record == FieldsAt(input[cursor..p], input, p + 1) &&
      d.cursor == p + HEADER_ENTRY_DEFAULT_SIZE && d.bytesRead == d.cursor - cursor &&
      d.buffer == input[cursor..d.cursor]
  {
    FieldsAtSlice(input[cursor..p], input, cursor, p + HEADER_ENTRY_DEFAULT_SIZE, p + 1 - cursor);
  }

  /**
    A successful parse: the path is the bytes before the first NUL, the five
    fields are read from the 20 bytes after it, and the buffer is everything
    from the cursor to the end of those 20 bytes.
   */
  lemma DecodeRecordOk(input: Bytes, cursor: nat, d: Decoded)
    requires DecodeRecord(input, cursor) == Ok(d)
    ensures
      var p := cursor + |d.record.path|;
      FirstNul(input, cursor, p) && p + HEADER_ENTRY_DEFAULT_SIZE <= |input| &&
      d.record == FieldsAt(input[cursor..p], input, p + 1) &&
      d.cursor == p + HEADER_ENTRY_DEFAULT_SIZE && d.bytesRead == d.cursor - cursor &&
      d.buffer == input[cursor..d.cursor]
  {
    DecodedAtFirstNul(input, cursor, d);
    DecodedFields(input, cursor, d, FirstIndexFrom(input, cursor, 0).value);
  }

  /** The parse fails exactly when no NUL follows the cursor or fewer than 20 bytes follow the first one. */
  lemma DecodeRecordErr(input: Bytes, cursor: nat)
    ensures DecodeRecord(input, cursor).Err? <==>
      (forall j :: cursor <= j < |input| ==> input[j] != 0) ||
      (exists p :: FirstNul(input, cursor, p) && p + HEADER_ENTRY_DEFAULT_SIZE > |input|)
  {
    FirstIndexFromSpec(input, cursor, 0);
    var f := FirstIndexFrom(input, cursor, 0);
    if f.Some? {
      assert FirstNul(input, cursor, f.value);
      forall q | FirstNul(input, cursor, q) ensures q == f.value {
      }
    }
  }

  /** A path, a NUL and five 4-byte words read back as that path and the five words' values, in order. */
  lemma ReadWords(path: Bytes, w1: Bytes, w2: Bytes, w3: Bytes, w4: Bytes, w5: Bytes)
    requires |w1| == |w2| == |w3| == |w4| == |w5| == UINT32_LENGTH
    ensures var s := path + NULL_TERM + w1 + w2 + w3 + w4 + w5;
      |s| == |path| + HEADER_ENTRY_DEFAULT_SIZE && s[..|path|] == path && s[|path|] == 0 &&
      FieldsAt(path, s, |path| + 1) ==
        Record(path, LEToUint32(w1), LEToUint32(w2), LEToUint32(w3), LEToUint32(w4), LEToUint32(w5))
  {
    var s := path + NULL_TERM + w1 + w2 + w3 + w4 + w5;
    var k := |path| + 1;
    assert s[..|path|] == path;
    assert s[k..k + 4] == w1;
    assert s[k + 4..k + 8] == w2;
    assert s[k + 8..k + 12] == w3;
    assert s[k + 12..k + 16] == w4;
    assert s[k + 16..k + 20] == w5;
  }

  /**
    A path without NULs, a NUL and 20 more bytes, placed anywhere, parse back
    as that path with the fields read from those 20 bytes.
   */
  lemma DecodePlaced(path: Bytes, b: Bytes, before: Bytes, after: Bytes)
    requires 0 !in path && |b| == |path| + HEADER_ENTRY_DEFAULT_SIZE
    requires b[..|path|] == path && b[|path|] == 0
    ensures DecodeRecord(before + b + after, |before|) ==
      Ok(Decoded(FieldsAt(path, b, |path| + 1), b, |b|, |before| + |b|))
  {
    var input := before + b + after;
    var c := |before|;
    var n := |path|;
    assert input[c..c + |b|] == b;
    forall j | c <= j < c + n ensures input[j] != 0 {
      assert input[j] == b[j - c] == path[j - c];
    }
    FirstIndexFromAt(input, c, 0, c + n);
    assert input[c..c + n] == path;
  }

  /** Encoding a record and parsing it back at any cursor gives the record, the cursor past it and its length. */
  lemma RecordRoundTrip(r: Record, before: Bytes, after: Bytes)
    requires 0 !in r.path && FieldsFit(r)
    ensures var b := RecordBytes(r);
      DecodeRecord(before + b + after, |before|) == Ok(Decoded(r, b, |b|, |before| + |b|))
  {
    ReadWords(r.path, Uint32ToLE(r.packingMethod), Uint32ToLE(r.originalSize),
              Uint32ToLE(r.reserved), Uint32ToLE(r.timestamp), Uint32ToLE(r.dataSize));
    DecodePlaced(r.path, RecordBytes(r), before, after);
  }

  /** The 21-byte terminator the writer emits parses as an empty path with every field 0 (tag Uncompressed, not Null). */
  lemma TerminatorDecodes(before: Bytes, after: Bytes)
    ensures DecodeRecord(before + Zeros(HEADER_ENTRY_DEFAULT_SIZE) + after, |before|) ==
      Ok(Decoded(Record([], UNCOMPRESSED, 0, 0, 0, 0), Zeros(HEADER_ENTRY_DEFAULT_SIZE),
                 HEADER_ENTRY_DEFAULT_SIZE, |before| + HEADER_ENTRY_DEFAULT_SIZE))
  {
    var r := Record([], UNCOMPRESSED, 0, 0, 0, 0);
    assert RecordBytes(r) == Zeros(HEADER_ENTRY_DEFAULT_SIZE);
    RecordRoundTrip(r, before, after);
  }

  // ---------------------------------------------------------------------------
  // Payload chunking

  function Min(a: int, b: int): int {
    if a < b then a else b
  }

  /** The chunks getData hands to its callback: min(remaining, 4096) bytes at a time. */
  function Chunks(c: Bytes): (cs: seq<Bytes>)
    ensures forall i :: 0 <= i < |cs| ==> 0 < |cs[i]| <= PACKING_BUFFER_SIZE
    decreases |c|
  {
    if |c| == 0 then []
    else
      var n := Min(|c|, PACKING_BUFFER_SIZE);
      [c[..n]] + Chunks(c[n..])
  }

  function Flatten(cs: seq<Bytes>): Bytes {
    if |cs| == 0 then [] else cs[0] + Flatten(cs[1..])
  }

  /** The chunks concatenate back to the contents. */
  lemma {:induction false} ChunksFlatten(c: Bytes)
    ensures Flatten(Chunks(c)) == c
    decreases |c|
  {
    if |c| > 0 {
      var n := Min(|c|, PACKING_BUFFER_SIZE);
      ChunksFlatten(c[n..]);
      assert Chunks(c)[1..] == Chunks(c[n..]);
      assert c == c[..n] + c[n..];
    }
  }

  /** There are ceil(|c| / 4096) chunks, so an empty file yields none, and none is empty. */
  lemma {:induction false} ChunksCount(c: Bytes)
    ensures |Chunks(c)| == (|c| + PACKING_BUFFER_SIZE - 1) / PACKING_BUFFER_SIZE
    ensures forall i :: 0 <= i < |Chunks(c)| ==> 0 < |Chunks(c)[i]| <= PACKING_BUFFER_SIZE
    decreases |c|
  {
    if |c| > 0 {
      var n := Min(|c|, PACKING_BUFFER_SIZE);
      ChunksCount(c[n..]);
      if |c| > PACKING_BUFFER_SIZE {
        assert (|c| + PACKING_BUFFER_SIZE - 1) / PACKING_BUFFER_SIZE ==
          (|c[n..]| + PACKING_BUFFER_SIZE - 1) / PACKING_BUFFER_SIZE + 1;
      }
      assert forall i :: 1 <= i < |Chunks(c)| ==> Chunks(c)[i] == Chunks(c[n..])[i - 1];
    }
  }

  /** Chunk i is the slice starting at i * 4096 of length min(remaining, 4096). */
  lemma {:induction false} ChunksAt(c: Bytes, i: nat)
    requires i < |Chunks(c)|
    ensures var lo := i * PACKING_BUFFER_SIZE;
      lo < |c| && Chunks(c)[i] == c[lo..lo + Min(|c| - lo, PACKING_BUFFER_SIZE)]
    decreases |c|
  {
    var n := Min(|c|, PACKING_BUFFER_SIZE);
    var rest := c[n..];
    assert Chunks(c) == [c[..n]] + Chunks(rest);
    if i > 0 {
      assert Chunks(c)[i] == Chunks(rest)[i - 1];
      ChunksAt(rest, i - 1);
      var lo' := (i - 1) * PACKING_BUFFER_SIZE;
      var m := Min(|rest| - lo', PACKING_BUFFER_SIZE);
      assert n == PACKING_BUFFER_SIZE && i * PACKING_BUFFER_SIZE == lo' + n;
      assert Chunks(rest)[i - 1] == rest[lo'..lo' + m];
      assert rest[lo'..lo' + m] == c[lo' + n..lo' + n + m];
    }
  }

  // ---------------------------------------------------------------------------
  // The entry object

  datatype ReadInfo = ReadInfo(buffer: Bytes, bytesRead: nat, cursor: nat)

  /** Buffer.indexOf for a one-byte needle: the first position holding x, or -1. */
  function IndexOf(b: Bytes, x: byte): (i: int)
    ensures -1 <= i < |b|
  {
    if |b| == 0 then -1
    else if b[0] == x then 0
    else
      var j := IndexOf(b[1..], x);
      if j == -1 then -1 else j + 1
  }

  /** IndexOf finds the first x, and -1 exactly when there is none. */
  lemma {:induction false} IndexOfSpec(b: Bytes, x: byte)
    ensures IndexOf(b, x) == -1 <==> x !in b
    ensures IndexOf(b, x) >= 0 ==> b[IndexOf(b, x)] == x && forall j :: 0 <= j < IndexOf(b, x) ==> b[j] != x
  {
    if |b| > 0 && b[0] != x {
      IndexOfSpec(b[1..], x);
      assert x in b <==> x in b[1..];
    }
  }

  class Entry {
    var file: Bytes
    var root: Bytes
    var packingMethod: nat
    var originalSize: nat
    var reserved: nat
    var timestamp: int
    var dataSize: nat
    var dataOffset: int
    var data: Bytes
    var isFile: bool
    var isDir: bool
    /** The entries of a directory, in listing order; fixed once the entry is built. */
    const children: seq<Entry>
    /** Whether this entry is a Header. */
    const isHeader: bool
    /** A Header's ordered properties; empty for any other entry. */
    var properties: seq<Property>
    /** All descendants of this entry. */
    ghost const Repr: set<Entry>

    /** The children form a tree below this entry: each is in Repr with its own descendants, and none reaches back. */
    ghost predicate Valid()
      decreases Repr
    {
      this !in Repr &&
      forall c :: c in children ==> c in Repr && c.Repr <= Repr && c !in c.Repr && c.Valid()
    }

    /** The field initialisers: what an entry holds when setFile finds no file. */
    predicate HasDefaults()
      reads this
    {
      file == [] && root == [] && packingMethod == NULL && originalSize == 0 && reserved == 0 &&
      timestamp == 0 && dataSize == 0 && dataOffset == -1 && data == [] && !isFile && !isDir
    }

    /** What setFile stores for an existing path: the path, the root, the stat's sizes and time, and Uncompressed. */
    predicate Mirrors(f: Bytes, r: Bytes, s: Stat)
      reads this
    {
      file == f && root == r && dataSize == s.size && originalSize == s.size && timestamp == s.mtime &&
      packingMethod == UNCOMPRESSED && isFile == s.isFile && isDir == s.isDir
    }

    /**
      The entry `new Entry(f, r)` builds when lstat reports `stat` for f (None:
      the path does not exist): defaults unless the path exists, otherwise the
      stat mirrored, and for a directory one child per listed name, itself
      built from the joined path and rooted at f.
     */
    ghost predicate FromStat(f: Bytes, r: Bytes, stat: Option<Stat>)
      reads this, Repr
      requires Valid()
      decreases Repr
    {
      !isHeader && properties == [] && reserved == 0 && dataOffset == -1 && data == [] &&
      if |f| > 0 && stat.Some? then
        var s := stat.value;
        Mirrors(f, r, s) &&
        if s.isDir then
          var ls := Listed(s.listing);
          |children| == |ls| &&
          forall i :: 0 <= i < |ls| ==> children[i].FromStat(Join(f, ls[i].name), f, ls[i].stat)
        else children == []
      else
        HasDefaults() && children == []
    }

    /**
      new Entry(file, root): the field initialisers, then setFile. A
      directory's children are built first, as setFile would build them.
     */
    constructor (file: Bytes, root: Bytes, stat: Option<Stat>)
      ensures Valid() && fresh(Repr)
      ensures FromStat(file, root, stat)
      decreases stat, 3
    {
      var built: seq<Entry> := [];
      ghost var R: set<Entry> := {};
      if |file| > 0 && stat.Some? && stat.value.isDir {
        built, R := NewChildren(file, stat.value);
      }
      this.file := [];
      this.root := [];
      packingMethod := NULL;
      originalSize := 0;
      reserved := 0;
      timestamp := 0;
      dataSize := 0;
      dataOffset := -1;
      data := EMPTY_BUFFER;
      isFile := false;
      isDir := false;
      children := built;
      isHeader := false;
      properties := [];
      Repr := R;
      new;
      SetFile(file, root, stat);
    }

    /**
      The Header: an entry built with no file whose packing method is
      overwritten with Version, and whose properties keep their null default
      unless the matching argument is truthy.
     */
    constructor Header(prefix: Option<Bytes>, product: Option<Bytes>, version: Option<Bytes>)
      ensures Valid() && fresh(Repr) && isHeader
      ensures packingMethod == VERSION
      ensures file == [] && root == [] && originalSize == 0 && reserved == 0 && timestamp == 0 && dataSize == 0
      ensures dataOffset == -1 && data == [] && !isFile && !isDir && children == []
      ensures properties == InitialProperties(prefix, product, version)
      ensures RecordPath() == [] && GetSize() == 0 && GetOriginalSize() == 0 && IsNull()
    {
      this.file := [];
      this.root := [];
      packingMethod := NULL;
      originalSize := 0;
      reserved := 0;
      timestamp := 0;
      dataSize := 0;
      dataOffset := -1;
      data := EMPTY_BUFFER;
      isFile := false;
      isDir := false;
      children := [];
      isHeader := true;
      properties := DEFAULT_PROPERTIES;
      Repr := {};
      new;
      SetFile([], [0x2f], None);
      packingMethod := VERSION;
      if Truthy(prefix) {
        properties := properties[0 := properties[0].(value := prefix)];
      }
      if Truthy(product) {
        properties := properties[1 := properties[1].(value := product)];
      }
      if Truthy(version) {
        properties := properties[2 := properties[2].(value := version)];
      }
    }

    /**
      setFile: for an existing, non-empty path, records the path and root,
      both sizes and the time from the stat and marks the entry Uncompressed;
      otherwise changes nothing.
     */
    method SetFile(file: Bytes, root: Bytes, stat: Option<Stat>)
      modifies this
      ensures |file| > 0 && stat.Some? ==>
        Mirrors(file, root, stat.value) &&
        reserved == old(reserved) && dataOffset == old(dataOffset) && data == old(data) && properties == old(properties)
      ensures !(|file| > 0 && stat.Some?) ==> unchanged(this)
    {
      if |file| > 0 && stat.Some? {
        var s := stat.value;
        this.file := file;
        this.root := root;
        dataSize := s.size;
        originalSize := s.size;
        timestamp := s.mtime;
        packingMethod := UNCOMPRESSED;
        isFile := s.isFile;
        isDir := s.isDir;
      }
    }

    /**
      The children setFile builds for directory `dir`: one new entry per
      listed name (without '.' and '..'), each built from `dir` joined with
      the name and rooted at `dir`.
     */
    static method NewChildren(dir: Bytes, s: Stat) returns (built: seq<Entry>, ghost R: set<Entry>)
      ensures fresh(R)
      ensures forall c :: c in built ==> c in R && c.Repr <= R && c !in c.Repr && c.Valid()
      ensures |built| == |Listed(s.listing)|
      ensures forall k :: 0 <= k < |built| ==>
        built[k].FromStat(Join(dir, Listed(s.listing)[k].name), dir, Listed(s.listing)[k].stat)
      decreases s, 2
    {
      built, R := MapChildren(dir, Listed(s.listing), s);
    }

    /** The map over the filtered names `ls` of directory listing `s.listing`: one new entry per name, in order. */
    static method MapChildren(dir: Bytes, ls: seq<DirEntry>, ghost s: Stat) returns (built: seq<Entry>, ghost R: set<Entry>)
      requires forall d :: d in ls ==> d in s.listing
      ensures fresh(R)
      ensures forall c :: c in built ==> c in R && c.Repr <= R && c !in c.Repr && c.Valid()
      ensures |built| == |ls|
      ensures forall k :: 0 <= k < |built| ==> built[k].FromStat(Join(dir, ls[k].name), dir, ls[k].stat)
      decreases s, 1
    {
      built := [];
      R := {};
      var i := 0;
      while i < |ls|
        invariant 0 <= i <= |ls| && |built| == i && fresh(R)
        invariant forall c :: c in built ==> c in R && c.Repr <= R && c !in c.Repr && c.Valid()
        invariant forall k :: 0 <= k < i ==> built[k].FromStat(Join(dir, ls[k].name), dir, ls[k].stat)
      {
        var child := NewChild(dir, ls[i], s);
        assert forall k :: 0 <= k < i ==> built[k].FromStat(Join(dir, ls[k].name), dir, ls[k].stat);
        assert forall k :: 0 <= k < i ==> (built + [child])[k] == built[k];
        built := built + [child];
        R := R + {child} + child.Repr;
        i := i + 1;
      }
    }

    /** One child of directory `dir`: the entry for a listed name, built from `dir` joined with it and rooted at `dir`. */
    static method NewChild(dir: Bytes, d: DirEntry, ghost s: Stat) returns (child: Entry)
      requires d in s.listing
      ensures fresh(child) && fresh(child.Repr) && child.Valid()
      ensures child.FromStat(Join(dir, d.name), dir, d.stat)
      decreases s, 0
    {
      child := new Entry(Join(dir, d.name), dir, d.stat);
    }

    /** The path written in the record: root joined with the file's base name, or empty when either is empty. */
    function RecordPath(): NulFree
      reads this
    {
      if |file| > 0 && |root| > 0 then Join(root, Basename(file)) else []
    }

    function RecordWith(path: Bytes): Record
      reads this
    {
      Record(path, packingMethod, originalSize, reserved, timestamp, dataSize)
    }

    /** getHeaderData: this entry's record bytes (RecordPath, NUL, five fields); throws when a field is not a uint32. */
    function GetHeaderData(): (r: Result<Bytes>)
      reads this
      ensures r.Ok? ==> |r.value| == |RecordPath()| + HEADER_ENTRY_DEFAULT_SIZE
      ensures r.Ok? ==> r.value[..|RecordPath()|] == RecordPath() && r.value[|RecordPath()|] == 0
      ensures (|file| == 0 || |root| == 0) && r.Ok? ==> r.value[0] == 0
    {
      EncodeRecord(RecordWith(RecordPath()))
    }

    /**
      The bytes getHeaderData produces, placed at any cursor, parse back as
      this entry's record path and five fields, with the cursor moved past them.
     */
    lemma HeaderDataRoundTrip(before: Bytes, after: Bytes)
      requires GetHeaderData().Ok?
      ensures var b := GetHeaderData().value;
        DecodeRecord(before + b + after, |before|) == Ok(Decoded(RecordWith(RecordPath()), b, |b|, |before| + |b|))
    {
      RecordRoundTrip(RecordWith(RecordPath()), before, after);
    }

    /**
      isNull: empty path and zero sizes, reserved and time, whatever the
      packing method. A null entry has no record path and reports size 0.
     */
    predicate IsNull()
      reads this
      ensures IsNull() ==> RecordPath() == [] && GetSize() == 0 && GetOriginalSize() == 0
    {
      |file| == 0 && originalSize == 0 && reserved == 0 && timestamp == 0 && dataSize == 0
    }

    /** getSize: the stored payload size, data_size for Uncompressed and original_size for Compressed, else 0. */
    function GetSize(): (n: nat)
      reads this
      ensures n > 0 ==> packingMethod == UNCOMPRESSED || packingMethod == COMPRESSED
    {
      if packingMethod == UNCOMPRESSED then dataSize
      else if packingMethod == COMPRESSED then originalSize
      else 0
    }

    /** getOriginalSize: original_size for Uncompressed and Compressed, else 0. */
    function GetOriginalSize(): (n: nat)
      reads this
      ensures n > 0 ==> packingMethod == UNCOMPRESSED || packingMethod == COMPRESSED
      ensures n <= originalSize
    {
      if packingMethod == UNCOMPRESSED || packingMethod == COMPRESSED then originalSize else 0
    }

    /**
      The two sizes by packing method: for Uncompressed, getSize is data_size
      and getOriginalSize original_size; for Compressed both are
      original_size; for Version, Encrypted and Null both are 0.
     */
    lemma SizesByMethod()
      ensures packingMethod == UNCOMPRESSED ==> GetSize() == dataSize && GetOriginalSize() == originalSize
      ensures packingMethod == COMPRESSED ==> GetSize() == originalSize && GetOriginalSize() == originalSize
      ensures packingMethod != UNCOMPRESSED ==> GetSize() == GetOriginalSize()
      ensures packingMethod !in {UNCOMPRESSED, COMPRESSED} ==> GetSize() == 0 && GetOriginalSize() == 0
    {
    }

    /**
      A null entry's record is a lone NUL, its packing method and 16 zero
      bytes; a null Uncompressed entry's record is the 21 zero bytes of the
      terminator pack writes after the records.
     */
    lemma NullRecord()
      requires IsNull() && IsUint32(packingMethod)
      ensures GetHeaderData() == Ok(NULL_TERM + Uint32ToLE(packingMethod) + Zeros(16))
      ensures packingMethod == UNCOMPRESSED ==> GetHeaderData() == Ok(Zeros(HEADER_ENTRY_DEFAULT_SIZE))
    {
      var zero := Uint32ToLE(0);
      assert zero == [0, 0, 0, 0];
      assert zero + zero + zero + zero == Zeros(16);
      assert RecordBytes(RecordWith([])) == NULL_TERM + Uint32ToLE(packingMethod) + (zero + zero + zero + zero);
      if packingMethod == UNCOMPRESSED {
        assert NULL_TERM + zero + Zeros(16) == Zeros(HEADER_ENTRY_DEFAULT_SIZE);
      }
    }

    /**
      readHeaderData: scans the path up to its NUL and stores it, then reads
      the 20 fixed bytes after it and stores the five fields. The path is
      stored even when the fixed bytes are then missing.
     */
    method ReadHeaderData(input: Bytes, cursor: nat) returns (r: Result<ReadInfo>)
      modifies this
      ensures root == old(root) && dataOffset == old(dataOffset) && data == old(data) && isFile == old(isFile) &&
        isDir == old(isDir) && properties == old(properties)
      ensures r.Err? ==> r.error == ReadFailed
      ensures r.Err? ==> packingMethod == old(packingMethod) && originalSize == old(originalSize) &&
                         reserved == old(reserved) && timestamp == old(timestamp) && dataSize == old(dataSize)
      ensures r.Err? <==> (FirstIndexFrom(input, cursor, 0).None? ||
                           FirstIndexFrom(input, cursor, 0).value + HEADER_ENTRY_DEFAULT_SIZE > |input|)
      ensures r.Err? ==> file == match FirstIndexFrom(input, cursor, 0) case None => old(file) case Some(p) => input[cursor..p]
      ensures r.Ok? ==> FirstIndexFrom(input, cursor, 0) == Some(cursor + |file|)
      ensures r.Ok? ==> cursor + |file| + HEADER_ENTRY_DEFAULT_SIZE <= |input| && file == input[cursor..cursor + |file|]
      ensures r.Ok? ==> r.value.buffer == input[cursor..cursor + |file| + HEADER_ENTRY_DEFAULT_SIZE]
      ensures r.Ok? ==> r.value.bytesRead == |r.value.buffer| && r.value.cursor == cursor + r.value.bytesRead
      ensures r.Ok? ==> RecordWith(file) == FieldsAt(file, r.value.buffer, |file| + 1)
      ensures r.Err? <==> DecodeRecord(input, cursor).Err?
      ensures r.Ok? ==> DecodeRecord(input, cursor) == Ok(Decoded(RecordWith(file), r.value.buffer, r.value.bytesRead, r.value.cursor))
    {
      var scanned := ScanPath(input, cursor);
      if scanned.Err? {
        return Err(scanned.error);
      }
      var fileBuffer := scanned.value;
      var nul := IndexOf(fileBuffer, 0);
      var path := fileBuffer[..nul];
      file := path;
      assert |path| == |fileBuffer| - 1 && FirstIndexFrom(input, cursor, 0) == Some(cursor + |path|);
      r := ReadFixedPart(input, cursor, fileBuffer);
      if r.Ok? {
        assert input[cursor..cursor + |path|] == path;
        DecodeAt(input, cursor, file, r.value, RecordWith(file));
      }
    }

    /**
      The rest of readHeaderData once the path is read: the 20 bytes after
      the path's NUL are appended to the path buffer, and the five fields are
      stored from them; the cursor returned is past the whole record.
     */
    method ReadFixedPart(input: Bytes, cursor: nat, fileBuffer: Bytes) returns (r: Result<ReadInfo>)
      requires |fileBuffer| > 0 && cursor + |fileBuffer| <= |input| && fileBuffer == input[cursor..cursor + |fileBuffer|]
      modifies this
      ensures file == old(file) && root == old(root) && dataOffset == old(dataOffset) && data == old(data) &&
        isFile == old(isFile) && isDir == old(isDir) && properties == old(properties)
      ensures r.Err? <==> cursor + |fileBuffer| + HEADER_ENTRY_DEFAULT_SIZE - 1 > |input|
      ensures r.Err? ==> r.error == ReadFailed && packingMethod == old(packingMethod) && originalSize == old(originalSize) &&
                         reserved == old(reserved) && timestamp == old(timestamp) && dataSize == old(dataSize)
      ensures r.Ok? ==> r.value.buffer == input[cursor..cursor + |fileBuffer| + HEADER_ENTRY_DEFAULT_SIZE - 1]
      ensures r.Ok? ==> r.value.bytesRead == |r.value.buffer| && r.value.cursor == cursor + r.value.bytesRead
      ensures r.Ok? ==> RecordWith(file) == FieldsAt(file, r.value.buffer, |fileBuffer|)
    {
      var position := |fileBuffer|;
      var extended := ReadAdditional(input, fileBuffer, cursor + position, HEADER_ENTRY_DEFAULT_SIZE - 1);
      if extended.Err? {
        return Err(extended.error);
      }
      var fullBuffer := extended.value;
      SliceConcat(input, cursor, cursor + position, cursor + position + HEADER_ENTRY_DEFAULT_SIZE - 1);
      position := ReadFields(fullBuffer, position);
      r := Ok(ReadInfo(fullBuffer, |fullBuffer|, cursor + position));
    }

    /**
      The five fixed fields of readHeaderData, stored one after the other
      from `buffer` while `position` advances by four bytes after each.
     */
    method ReadFields(buffer: Bytes, start: nat) returns (position: nat)
      requires start + 5 * UINT32_LENGTH <= |buffer|
      modifies this
      ensures file == old(file) && root == old(root) && dataOffset == old(dataOffset) && data == old(data) &&
        isFile == old(isFile) && isDir == old(isDir) && properties == old(properties)
      ensures RecordWith(file) == FieldsAt(file, buffer, start)
      ensures position == start + 5 * UINT32_LENGTH
    {
      position := start;
      packingMethod := ReadUint32LE(buffer, position);
      position := position + UINT32_LENGTH;
      originalSize := ReadUint32LE(buffer, position);
      position := position + UINT32_LENGTH;
      reserved := ReadUint32LE(buffer, position);
      position := position + UINT32_LENGTH;
      timestamp := ReadUint32LE(buffer, position);
      position := position + UINT32_LENGTH;
      dataSize := ReadUint32LE(buffer, position);
      position := position + UINT32_LENGTH;
    }

    /**
      readData: reads exactly getSize() bytes at data_offset (a negative
      offset reads at the handle's current position) and throws on a short
      read; stores them unless the entry is Compressed.
     */
    method ReadData(input: Bytes, current: nat) returns (r: Result<()>)
      modifies this
      ensures file == old(file) && root == old(root) && packingMethod == old(packingMethod) &&
        originalSize == old(originalSize) && reserved == old(reserved) && timestamp == old(timestamp) &&
        dataSize == old(dataSize) && dataOffset == old(dataOffset) && isFile == old(isFile) &&
        isDir == old(isDir) && properties == old(properties)
      ensures
        var from := if dataOffset < 0 then current else dataOffset;
        (r.Ok? <==> GetSize() == 0 || from + GetSize() <= |input|) &&
        (r.Ok? && packingMethod != COMPRESSED ==>
          data == if GetSize() == 0 then [] else input[from..from + GetSize()]) &&
        (r.Err? || packingMethod == COMPRESSED ==> data == old(data))
      ensures r.Err? ==> r.error == SizeMismatch
    {
      var size := GetSize();
      var position: nat := if dataOffset < 0 then current else dataOffset;
      var buffer := ReadAt(input, position, size);
      var bytesRead := |buffer|;
      if bytesRead != size {
        return Err(SizeMismatch);
      }
      if packingMethod == COMPRESSED {
        // Decoding compressed payloads is not implemented: data is left as it was.
      } else {
        data := buffer;
      }
      r := Ok(());
    }

    /**
      getData: for an existing file, reads it min(remaining, 4096) bytes at a
      time and hands each chunk to the callback (here: collects them in
      order); no chunk at all for an empty path, a missing file or an empty file.
     */
    method GetData(contents: Option<Bytes>) returns (chunks: seq<Bytes>)
      ensures |file| == 0 || contents.None? ==> chunks == []
      ensures |file| > 0 && contents.Some? ==> chunks == Chunks(contents.value)
    {
      chunks := [];
      if |file| == 0 || contents.None? {
        return;
      }
      var c := contents.value;
      var fileSize := |c|;
      var totalBytesRead := 0;
      while totalBytesRead < fileSize
        invariant 0 <= totalBytesRead <= fileSize
        invariant chunks + Chunks(c[totalBytesRead..]) == Chunks(c)
        decreases fileSize - totalBytesRead
      {
        var length := if fileSize - totalBytesRead < PACKING_BUFFER_SIZE then fileSize - totalBytesRead else PACKING_BUFFER_SIZE;
        var buffer := ReadAt(c, totalBytesRead, length);
        var bytesRead := |buffer|;
        if bytesRead > 0 {
          assert c[totalBytesRead..][..length] == buffer;
          assert c[totalBytesRead..][length..] == c[totalBytesRead + length..];
          chunks := chunks + [buffer];
          totalBytesRead := totalBytesRead + bytesRead;
        }
      }
    }
  }

  /**
    getSize and getOriginalSize agree with the stat for an entry setFile
    filled in from an existing path, and such an entry is never null.
   */
  lemma SizesFromStat(e: Entry, f: Bytes, r: Bytes, s: Stat)
    requires e.Valid() && |f| > 0 && e.FromStat(f, r, Some(s))
    ensures e.GetSize() == s.size && e.GetOriginalSize() == s.size
    ensures !e.IsNull()
    ensures e.GetHeaderData().Ok? <==> s.size < UINT32_LIMIT && IsUint32(s.mtime)
  {
  }
}
