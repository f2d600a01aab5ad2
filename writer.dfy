/**
  The archive writer. `pack` writes every header record (directories expanded
  depth-first, the Header first with its property block), the 21-byte
  terminator, the payload of every Uncompressed entry (its file in whole
  4096-byte buffers, the last one zero-filled), then a NUL and the
  SHA-1 digest of everything written before it. Every write goes through
  #writeData, which also feeds the hash until the hash has been replaced by
  its digest.

  What a pass writes is specified as a sequence of #writeData calls (`Step`s)
  computed from the entries; `Emit` says which bytes such a sequence leaves
  in the file and which error, if any, stops it.
 */
module Writer {
  import opened Constants
  import opened Utilities
  import opened HeaderProperties
  import opened Entries

  const SHA1_LENGTH: nat := 20

  /** A SHA-1 digest; the hash function itself is a parameter of `Pack`. */
  type Digest = d: Bytes | |d| == SHA1_LENGTH witness Zeros(SHA1_LENGTH)

  // ---------------------------------------------------------------------------
  // Runs of #writeData calls

  /** One #writeData(value, nullTerminated) call, or an error thrown between calls. */
  datatype Step = Write(value: JsValue, nullTerminated: bool) | Raise(error: Error)

  /** The bytes a run of steps leaves in the file, and the error that stopped it, if any. */
  datatype Emission = Emission(bytes: Bytes, error: Option<Error>)

  /**
    One step: a write without a handle, or of a value that converts to
    undefined, writes nothing; a number that is not a uint32 throws before
    anything is written; any other value writes its converted bytes.
   */
  function StepOutcome(s: Step, open: bool): (r: Result<Bytes>)
    ensures s.Raise? ==> r == Err(s.error)
    ensures s.Write? && !open ==> r == Ok([])
    ensures s.Write? && open ==> (r.Err? <==> ConvertToBuffer(s.value, s.nullTerminated).Err?)
    ensures s.Write? && open && r.Ok? ==>
      r.value == match ConvertToBuffer(s.value, s.nullTerminated).value case None => [] case Some(d) => d
  {
    match s
    case Raise(e) => Err(e)
    case Write(v, nt) =>
      if !open then Ok([])
      else
        match ConvertToBuffer(v, nt)
        case Err(e) => Err(e)
        case Ok(None) => Ok([])
        case Ok(Some(d)) => Ok(d)
  }

  /** The steps run in order; the first one that throws ends the run, and what was written before it stays. */
  function Emit(steps: seq<Step>, open: bool): Emission {
    if |steps| == 0 then Emission([], None)
    else
      match StepOutcome(steps[0], open)
      case Err(e) => Emission([], Some(e))
      case Ok(d) =>
        var rest := Emit(steps[1..], open);
        Emission(d + rest.bytes, rest.error)
  }

  /** Running two runs back to back: the second starts only when the first did not throw. */
  lemma {:induction false} EmitAppend(a: seq<Step>, b: seq<Step>, open: bool)
    ensures Emit(a + b, open) ==
      if Emit(a, open).error.Some? then Emit(a, open)
      else Emission(Emit(a, open).bytes + Emit(b, open).bytes, Emit(b, open).error)
  {
    if |a| == 0 {
      assert a + b == b;
    } else {
      assert (a + b)[0] == a[0];
      assert (a + b)[1..] == a[1..] + b;
      EmitAppend(a[1..], b, open);
    }
  }

  /** A step that writes after a run that did not throw: whatever the run was appended to grows by the step's bytes. */
  lemma EmitStep(base: Bytes, done: seq<Step>, s: Step, open: bool)
    requires Emit(done, open).error.None? && StepOutcome(s, open).Ok?
    ensures Emit(done + [s], open) == Emission(Emit(done, open).bytes + StepOutcome(s, open).value, None)
    ensures base + Emit(done + [s], open).bytes == base + Emit(done, open).bytes + StepOutcome(s, open).value
  {
    EmitAppend(done, [s], open);
    assert Emit([s], open) == Emission(StepOutcome(s, open).value + [], None);
    assert StepOutcome(s, open).value + [] == StepOutcome(s, open).value;
  }

  /** A run with no Raise step and only strings and buffers, on an open handle, never throws. */
  predicate Safe(steps: seq<Step>) {
    forall i :: 0 <= i < |steps| ==> steps[i].Write? && (steps[i].value.StringValue? || steps[i].value.BufferValue?)
  }

  // ---------------------------------------------------------------------------
  // The Header's property block

  /**
    The calls #writeHeader makes for a Header's properties, in insertion
    order: the key, then the value only when it is truthy.
   */
  function PropertySteps(ps: seq<Property>): (steps: seq<Step>)
    ensures Safe(steps)
  {
    if |ps| == 0 then []
    else
      var p := ps[|ps| - 1];
      PropertySteps(ps[..|ps| - 1]) + [Write(StringValue(p.key), true)] +
        (if Truthy(p.value) then [Write(StringValue(p.value.value), true)] else [])
  }

  /** The property calls write exactly the property pairs of the block and never throw. */
  lemma {:induction false} PropertyStepsEmit(ps: seq<Property>)
    ensures Emit(PropertySteps(ps), true) == Emission(PropertyPairs(ps), None)
  {
    if |ps| > 0 {
      var p := ps[|ps| - 1];
      var init := ps[..|ps| - 1];
      PropertyStepsEmit(init);
      var key := [Write(StringValue(p.key), true)];
      var value := if Truthy(p.value) then [Write(StringValue(p.value.value), true)] else [];
      EmitAppend(PropertySteps(init), key, true);
      EmitAppend(PropertySteps(init) + key, value, true);
      assert Emit(key, true) == Emission(p.key + NULL_TERM, None);
      if Truthy(p.value) {
        assert Emit(value, true) == Emission(p.value.value + NULL_TERM, None);
      }
    }
  }

  // ---------------------------------------------------------------------------
  // Payload copies as #writeFile makes them

  /**
    The copy #writeFile evidently intends: one write per chunk read from
    the file, of the bytes read.
   */
  function ChunkSteps(cs: seq<Bytes>): (steps: seq<Step>)
    ensures Safe(steps) && |steps| == |cs|
  {
    if |cs| == 0 then [] else [Write(BufferValue(cs[0]), true)] + ChunkSteps(cs[1..])
  }

  /** The chunk writes emit the chunks back to back and never throw. */
  lemma {:induction false} ChunkStepsEmit(cs: seq<Bytes>)
    ensures Emit(ChunkSteps(cs), true) == Emission(Flatten(cs), None)
  {
    if |cs| > 0 {
      ChunkStepsEmit(cs[1..]);
      assert ChunkSteps(cs)[1..] == ChunkSteps(cs[1..]);
    }
  }

  /** The intended copy, in 4096-byte reads, writes exactly the file's contents. */
  lemma FileCopied(c: Bytes)
    ensures Emit(ChunkSteps(Chunks(c)), true) == Emission(c, None)
  {
    ChunkStepsEmit(Chunks(c));
    ChunksFlatten(c);
  }

  /**
    The buffer #writeFile actually hands to #writeData for one chunk:
    Buffer.from(buffer, 0, bytesRead) with a Buffer argument ignores the
    offset and length and copies the whole 4096-byte buffer, so the chunk
    comes with the zero bytes after it.
   */
  function Padded(chunk: Bytes): (b: Bytes)
    requires |chunk| <= PACKING_BUFFER_SIZE
    ensures |b| == PACKING_BUFFER_SIZE && b[..|chunk|] == chunk
  {
    chunk + Zeros(PACKING_BUFFER_SIZE - |chunk|)
  }

  /** The writes of the file copy as the source makes them: one whole buffer per chunk. */
  function PaddedChunkSteps(cs: seq<Bytes>): (steps: seq<Step>)
    requires forall i :: 0 <= i < |cs| ==> |cs[i]| <= PACKING_BUFFER_SIZE
    ensures Safe(steps) && |steps| == |cs|
  {
    if |cs| == 0 then [] else [Write(BufferValue(Padded(cs[0])), true)] + PaddedChunkSteps(cs[1..])
  }

  /**
    The writes of #writeFile as written for a file with contents `c`: each
    read takes up to 4096 bytes, and the whole buffer holding them is written.
   */
  function FileCopySteps(c: Bytes): (steps: seq<Step>)
    ensures Safe(steps)
    decreases |c|
  {
    if |c| == 0 then []
    else
      var got := c[..Min(|c|, PACKING_BUFFER_SIZE)];
      [Write(BufferValue(Padded(got)), true)] + FileCopySteps(c[|got|..])
  }

  /** The read loop writes one padded buffer per chunk of the file. */
  lemma {:induction false} FileCopyStepsAreChunks(c: Bytes)
    ensures FileCopySteps(c) == PaddedChunkSteps(Chunks(c))
    decreases |c|
  {
    if |c| > 0 {
      var n := Min(|c|, PACKING_BUFFER_SIZE);
      FileCopyStepsAreChunks(c[n..]);
      assert Chunks(c) == [c[..n]] + Chunks(c[n..]);
      assert Chunks(c)[1..] == Chunks(c[n..]);
    }
  }

  /**
    A one-byte file is copied as 4096 bytes, although its header record
    announces a data size of 1.
   */
  lemma PaddedCopyOfOneByte()
    ensures var c: Bytes := [0x41];
      Emit(PaddedChunkSteps(Chunks(c)), true).bytes == c + Zeros(PACKING_BUFFER_SIZE - 1) &&
      Emit(ChunkSteps(Chunks(c)), true).bytes == c
  {
    var c: Bytes := [0x41];
    assert Chunks(c) == [c] by {
      assert c[..1] == c && c[1..] == [];
    }
    var w := Write(BufferValue(Padded(c)), true);
    assert PaddedChunkSteps([c]) == [w];
    assert Emit([w], true).bytes == Padded(c) + [];
    FileCopied(c);
  }

  /**
    One read of up to 4096 bytes at `position` takes the first of the chunks
    that remain, and the whole buffer holding it is written.
   */
  lemma ReadChunk(c: Bytes, position: nat)
    requires position < |c|
    ensures var got := ReadAt(c, position, PACKING_BUFFER_SIZE);
      0 < |got| <= PACKING_BUFFER_SIZE && position + |got| <= |c| &&
      FileCopySteps(c[position..]) ==
        [Write(BufferValue(Padded(got)), true)] + FileCopySteps(c[position + |got|..])
  {
    var got := ReadAt(c, position, PACKING_BUFFER_SIZE);
    var d := c[position..];
    var n := Min(|d|, PACKING_BUFFER_SIZE);
    assert d[..n] == got;
    assert d[n..] == c[position + n..];
  }

  /** The number of zero bytes that fill the last 4096-byte buffer of an n-byte file. */
  function PadLength(n: nat): (k: nat)
    ensures k < PACKING_BUFFER_SIZE && (n + k) % PACKING_BUFFER_SIZE == 0
  {
    (PACKING_BUFFER_SIZE - n % PACKING_BUFFER_SIZE) % PACKING_BUFFER_SIZE
  }

  /** What #writeFile writes for a file with contents `c`: the contents, then zeros up to a multiple of 4096. */
  function Payload(c: Bytes): (p: Bytes)
    ensures |p| == |c| + PadLength(|c|) && |p| % PACKING_BUFFER_SIZE == 0 && p[..|c|] == c
  {
    c + Zeros(PadLength(|c|))
  }

  /** A file longer than one buffer needs the same padding as what remains after its first buffer. */
  lemma PadLengthAfterBuffer(n: nat)
    requires n > PACKING_BUFFER_SIZE
    ensures PadLength(n - PACKING_BUFFER_SIZE) == PadLength(n)
  {
    assert (n - PACKING_BUFFER_SIZE) % PACKING_BUFFER_SIZE == n % PACKING_BUFFER_SIZE;
  }

  /** A file of at most one buffer is padded to exactly one buffer. */
  lemma PadLengthOneBuffer(n: nat)
    requires 0 < n <= PACKING_BUFFER_SIZE
    ensures PadLength(n) == PACKING_BUFFER_SIZE - n
  {
  }

  /** The payload of a non-empty file is its first chunk padded, then the payload of the rest. */
  lemma PayloadStep(c: Bytes)
    requires |c| > 0
    ensures var n := Min(|c|, PACKING_BUFFER_SIZE);
      Payload(c) == Padded(c[..n]) + Payload(c[n..])
  {
    var n := Min(|c|, PACKING_BUFFER_SIZE);
    if |c| <= PACKING_BUFFER_SIZE {
      PadLengthOneBuffer(|c|);
      assert c[..n] == c && c[n..] == [];
    } else {
      PadLengthAfterBuffer(|c|);
      assert Padded(c[..n]) == c[..n];
      assert c[..n] + c[n..] == c;
    }
  }

  /**
    Copying a file as the source does writes its contents followed by the
    zeros that fill its last 4096-byte buffer, and never throws.
   */
  lemma {:induction false} FileCopiedAsWritten(c: Bytes)
    ensures Emit(FileCopySteps(c), true) == Emission(Payload(c), None)
    decreases |c|
  {
    if |c| > 0 {
      ReadChunk(c, 0);
      var got := ReadAt(c, 0, PACKING_BUFFER_SIZE);
      var w := Write(BufferValue(Padded(got)), true);
      var rest := c[|got|..];
      assert c[0..] == c;
      FileCopiedAsWritten(rest);
      EmitAppend([w], FileCopySteps(rest), true);
      assert Emit([w], true) == Emission(Padded(got) + [], None);
      PayloadStep(c);
    }
  }

  /** The copy reproduces the file exactly when its size is a multiple of 4096, an empty file included. */
  lemma PayloadExact(c: Bytes)
    ensures Payload(c) == c <==> |c| % PACKING_BUFFER_SIZE == 0
  {
    if |c| % PACKING_BUFFER_SIZE != 0 {
      assert |Payload(c)| != |c|;
    }
  }

  /** The 4096-byte buffer after a read of `got` into a zeroed buffer is the chunk padded. */
  lemma FilledBuffer(got: Bytes)
    requires |got| <= PACKING_BUFFER_SIZE
    ensures got + Zeros(PACKING_BUFFER_SIZE)[|got|..] == Padded(got)
  {
    assert Zeros(PACKING_BUFFER_SIZE)[|got|..] == Zeros(PACKING_BUFFER_SIZE - |got|);
  }

  /** Without a handle, a run of writes writes nothing and throws nothing. */
  lemma {:induction false} EmitClosed(steps: seq<Step>)
    requires forall i :: 0 <= i < |steps| ==> steps[i].Write?
    ensures Emit(steps, false) == Emission([], None)
  {
    if |steps| > 0 {
      EmitClosed(steps[1..]);
    }
  }

  // ---------------------------------------------------------------------------
  // Walking the entries

  /**
    The entries #writeHeader and #writeFile reach from `e`: a directory that
    is not the Header stands for its children's leaves, depth-first in
    listing order; anything else is a leaf.
   */
  function Leaves(e: Entry): (ls: seq<Entry>)
    reads e, e.Repr
    requires e.Valid()
    ensures forall l :: l in ls ==> l == e || l in e.Repr
    decreases e.Repr, 1
  {
    if e.isDir && !e.isHeader then LeavesFrom(e, 0) else [e]
  }

  function LeavesFrom(e: Entry, i: nat): (ls: seq<Entry>)
    reads e, e.Repr
    requires e.Valid()
    ensures forall l :: l in ls ==> l in e.Repr
    decreases e.Repr, 0, |e.children| - i
  {
    if i >= |e.children| then [] else Leaves(e.children[i]) + LeavesFrom(e, i + 1)
  }

  /** The calls #writeHeader makes for a leaf: its record, and for the Header the property block. */
  function RecordSteps(e: Entry): seq<Step>
    reads e
  {
    FieldSteps(e) + (if e.isHeader then PropertyBlockSteps(e.properties) else [])
  }

  /** The record path (empty when the file or the root is empty), then the five fields as numbers. */
  function FieldSteps(e: Entry): seq<Step>
    reads e
  {
    [ Write(StringValue(e.RecordPath()), true), Write(NumberValue(e.packingMethod), true),
      Write(NumberValue(e.originalSize), true), Write(NumberValue(e.reserved), true),
      Write(NumberValue(e.timestamp), true), Write(NumberValue(e.dataSize), true) ]
  }

  /** The Header's properties, then the closing ''. */
  function PropertyBlockSteps(ps: seq<Property>): seq<Step> {
    PropertySteps(ps) + [Write(StringValue([]), true)]
  }

  /** The calls #writeHeader(e) makes, following its recursion over a directory's children. */
  function HeaderSteps(e: Entry): seq<Step>
    reads e, e.Repr
    requires e.Valid()
    decreases e.Repr, 1
  {
    if e.isDir && !e.isHeader then HeaderStepsFrom(e, 0) else RecordSteps(e)
  }

  function HeaderStepsFrom(e: Entry, i: nat): seq<Step>
    reads e, e.Repr
    requires e.Valid()
    decreases e.Repr, 0, |e.children| - i
  {
    if i >= |e.children| then [] else HeaderSteps(e.children[i]) + HeaderStepsFrom(e, i + 1)
  }

  /** The calls #writeFile makes for a leaf: one whole 4096-byte buffer per chunk of its contents, or a failed open. */
  function FileLeafSteps(e: Entry, files: map<Bytes, Bytes>): seq<Step>
    reads e
  {
    if e.file in files then FileCopySteps(files[e.file]) else [Raise(FileMissing)]
  }

  /** The calls #writeFile(e) makes, following its recursion over a directory's children. */
  function FileSteps(e: Entry, files: map<Bytes, Bytes>): seq<Step>
    reads e, e.Repr
    requires e.Valid()
    decreases e.Repr, 1
  {
    if e.isDir && !e.isHeader then FileStepsFrom(e, 0, files) else FileLeafSteps(e, files)
  }

  function FileStepsFrom(e: Entry, i: nat, files: map<Bytes, Bytes>): seq<Step>
    reads e, e.Repr
    requires e.Valid()
    decreases e.Repr, 0, |e.children| - i
  {
    if i >= |e.children| then [] else FileSteps(e.children[i], files) + FileStepsFrom(e, i + 1, files)
  }

  function RecordStepsOf(ls: seq<Entry>): seq<Step>
    reads set l | l in ls
  {
    if |ls| == 0 then [] else RecordSteps(ls[0]) + RecordStepsOf(ls[1..])
  }

  function FileLeafStepsOf(ls: seq<Entry>, files: map<Bytes, Bytes>): seq<Step>
    reads set l | l in ls
  {
    if |ls| == 0 then [] else FileLeafSteps(ls[0], files) + FileLeafStepsOf(ls[1..], files)
  }

  lemma {:induction false} RecordStepsOfAppend(a: seq<Entry>, b: seq<Entry>)
    ensures RecordStepsOf(a + b) == RecordStepsOf(a) + RecordStepsOf(b)
  {
    if |a| > 0 {
      assert (a + b)[1..] == a[1..] + b;
      RecordStepsOfAppend(a[1..], b);
    } else {
      assert a + b == b;
    }
  }

  lemma {:induction false} FileLeafStepsOfAppend(a: seq<Entry>, b: seq<Entry>, files: map<Bytes, Bytes>)
    ensures FileLeafStepsOf(a + b, files) == FileLeafStepsOf(a, files) + FileLeafStepsOf(b, files)
  {
    if |a| > 0 {
      assert (a + b)[1..] == a[1..] + b;
      FileLeafStepsOfAppend(a[1..], b, files);
    } else {
      assert a + b == b;
    }
  }

  /**
    #writeHeader writes the records of exactly the leaves, in depth-first
    order: a directory that is not the Header writes no record of its own.
   */
  lemma {:induction false} HeaderStepsAreLeafRecords(e: Entry)
    requires e.Valid()
    ensures HeaderSteps(e) == RecordStepsOf(Leaves(e))
    decreases e.Repr, 1
  {
    if e.isDir && !e.isHeader {
      HeaderStepsFromAreLeafRecords(e, 0);
    } else {
      assert Leaves(e)[1..] == [];
    }
  }

  lemma {:induction false} HeaderStepsFromAreLeafRecords(e: Entry, i: nat)
    requires e.Valid()
    ensures HeaderStepsFrom(e, i) == RecordStepsOf(LeavesFrom(e, i))
    decreases e.Repr, 0, |e.children| - i
  {
    if i < |e.children| {
      HeaderStepsAreLeafRecords(e.children[i]);
      HeaderStepsFromAreLeafRecords(e, i + 1);
      RecordStepsOfAppend(Leaves(e.children[i]), LeavesFrom(e, i + 1));
    }
  }

  /** #writeFile copies the payloads of the same leaves, in the same order, as #writeHeader writes records for. */
  lemma {:induction false} FileStepsAreLeafFiles(e: Entry, files: map<Bytes, Bytes>)
    requires e.Valid()
    ensures FileSteps(e, files) == FileLeafStepsOf(Leaves(e), files)
    decreases e.Repr, 1
  {
    if e.isDir && !e.isHeader {
      FileStepsFromAreLeafFiles(e, 0, files);
    } else {
      assert Leaves(e)[1..] == [];
    }
  }

  lemma {:induction false} FileStepsFromAreLeafFiles(e: Entry, i: nat, files: map<Bytes, Bytes>)
    requires e.Valid()
    ensures FileStepsFrom(e, i, files) == FileLeafStepsOf(LeavesFrom(e, i), files)
    decreases e.Repr, 0, |e.children| - i
  {
    if i < |e.children| {
      FileStepsAreLeafFiles(e.children[i], files);
      FileStepsFromAreLeafFiles(e, i + 1, files);
      FileLeafStepsOfAppend(Leaves(e.children[i]), LeavesFrom(e, i + 1), files);
    }
  }

  /** Every leaf is a file entry or the Header, never a directory to expand, and a directory is not its own leaf. */
  lemma {:induction false} LeavesAreNotDirectories(e: Entry)
    requires e.Valid()
    ensures forall l :: l in Leaves(e) ==> !(l.isDir && !l.isHeader)
    ensures e.isDir && !e.isHeader ==> e !in Leaves(e)
    decreases e.Repr, 1
  {
    if e.isDir && !e.isHeader {
      LeavesFromAreNotDirectories(e, 0);
    }
  }

  lemma {:induction false} LeavesFromAreNotDirectories(e: Entry, i: nat)
    requires e.Valid()
    ensures forall l :: l in LeavesFrom(e, i) ==> !(l.isDir && !l.isHeader)
    decreases e.Repr, 0, |e.children| - i
  {
    if i < |e.children| {
      LeavesAreNotDirectories(e.children[i]);
      LeavesFromAreNotDirectories(e, i + 1);
    }
  }

  // ---------------------------------------------------------------------------
  // The passes of pack

  /** Every entry of `es` is a valid tree whose nodes are all in `R`. */
  ghost predicate Within(es: seq<Entry>, R: set<Entry>) {
    forall e :: e in es ==> e in R && e.Repr <= R && e.Valid()
  }

  /** The header pass: #writeHeader for each entry in turn. */
  function HeaderPass(es: seq<Entry>, R: set<Entry>): seq<Step>
    reads R
    requires Within(es, R)
  {
    if |es| == 0 then [] else HeaderSteps(es[0]) + HeaderPass(es[1..], R)
  }

  /** The data pass for one entry: Version and Null are skipped, Uncompressed is copied, anything else throws. */
  function DispatchSteps(e: Entry, files: map<Bytes, Bytes>): seq<Step>
    reads e, e.Repr
    requires e.Valid()
  {
    if e.packingMethod == VERSION || e.packingMethod == NULL then []
    else if e.packingMethod == UNCOMPRESSED then FileSteps(e, files)
    else [Raise(UnsupportedPackingMethod)]
  }

  /** The data pass: the dispatch for each entry in turn. */
  function DataPass(es: seq<Entry>, R: set<Entry>, files: map<Bytes, Bytes>): seq<Step>
    reads R
    requires Within(es, R)
  {
    if |es| == 0 then [] else DispatchSteps(es[0], files) + DataPass(es[1..], R, files)
  }

  /** Everything pack writes before the signature: the header pass, 21 zero bytes, the data pass. */
  function PackSteps(es: seq<Entry>, R: set<Entry>, files: map<Bytes, Bytes>): seq<Step>
    reads R
    requires Within(es, R)
  {
    HeaderPass(es, R) + [Write(BufferValue(Zeros(HEADER_ENTRY_DEFAULT_SIZE)), true)] + DataPass(es, R, files)
  }

  // ---------------------------------------------------------------------------
  // The writer object

  /** What pack leaves behind: its result, the archive, the hash input, #checksum's digest, whether the archive was removed. */
  datatype Packed = Packed(result: Result<bool>, out: Bytes, hashed: Bytes, digest: Option<Digest>, removed: bool)

  /**
    pack, given what its body emitted (`e`) and #checksum's state before it:
    an error in the body removes the archive and yields false; otherwise a
    NUL follows, and then either the digest of everything hashed or, when
    #checksum was already a digest, the error of copying it.
   */
  function PackOutcome(e: Emission, hashed0: Bytes, digest0: Option<Digest>, sha: Bytes -> Digest): Packed {
    var fed := hashed0 + (if digest0.None? then e.bytes else []);
    if e.error.Some? then Packed(Ok(false), e.bytes, fed, digest0, true)
    else if digest0.Some? then Packed(Err(ChecksumDigested), e.bytes + [0], fed, digest0, false)
    else Packed(Ok(true), e.bytes + [0] + sha(fed + [0]), fed + [0], Some(sha(fed + [0])), false)
  }

  /** The header pass from entry i on: entry i's headers, then the rest. */
  lemma HeaderPassStep(es: seq<Entry>, R: set<Entry>, i: nat)
    requires i < |es| && Within(es, R)
    ensures HeaderPass(es[i..], R) == HeaderSteps(es[i]) + HeaderPass(es[i + 1..], R)
  {
    assert es[i..][1..] == es[i + 1..];
  }

  /** The data pass from entry i on: entry i's dispatch, then the rest. */
  lemma DataPassStep(es: seq<Entry>, R: set<Entry>, i: nat, files: map<Bytes, Bytes>)
    requires i < |es| && Within(es, R)
    ensures DataPass(es[i..], R, files) == DispatchSteps(es[i], files) + DataPass(es[i + 1..], R, files)
  {
    assert es[i..][1..] == es[i + 1..];
  }

  lemma Associative<T>(a: seq<T>, b: seq<T>, c: seq<T>)
    ensures a + (b + c) == a + b + c
  {
  }

  // ---------------------------------------------------------------------------
  // What the passes write

  /** One null-terminated write per value. */
  function WritesOf(vs: seq<JsValue>): (steps: seq<Step>)
    ensures |steps| == |vs| && forall i :: 0 <= i < |vs| ==> steps[i] == Write(vs[i], true)
  {
    seq(|vs|, i requires 0 <= i < |vs| => Write(vs[i], true))
  }

  /**
    Writing values one by one, on an open handle, leaves what concatBuffers
    makes of them, and throws exactly when it throws, with the same error
    (values that convert to undefined aside).
   */
  lemma {:induction false} WritesOfEmit(vs: seq<JsValue>)
    requires forall i :: 0 <= i < |vs| ==> !vs[i].OtherValue?
    ensures Emit(WritesOf(vs), true).error.None? <==> ConcatBuffers(vs).Ok?
    ensures ConcatBuffers(vs).Ok? ==> Emit(WritesOf(vs), true).bytes == ConcatBuffers(vs).value
    ensures ConcatBuffers(vs).Err? ==> Emit(WritesOf(vs), true).error == Some(ConcatBuffers(vs).error)
    decreases |vs|
  {
    if |vs| > 0 {
      var init := vs[..|vs| - 1];
      var last := Write(vs[|vs| - 1], true);
      WritesOfEmit(init);
      assert WritesOf(vs) == WritesOf(init) + [last];
      EmitAppend(WritesOf(init), [last], true);
      assert Emit([last], true) == match StepOutcome(last, true) case Ok(d) => Emission(d + [], None)
                                                                  case Err(e) => Emission([], Some(e));
    }
  }

  /** The record fields #writeHeader writes are the values getHeaderData concatenates. */
  lemma FieldStepsEmit(e: Entry)
    ensures var m := Emit(FieldSteps(e), true);
      (m.error.None? <==> e.GetHeaderData().Ok?) &&
      (e.GetHeaderData().Ok? ==> m.bytes == e.GetHeaderData().value) &&
      (e.GetHeaderData().Err? ==> m.error == Some(OutOfRange))
  {
    var vs := RecordValues(e.RecordWith(e.RecordPath()));
    assert FieldSteps(e) == WritesOf(vs);
    WritesOfEmit(vs);
  }

  /** The Header's property block as written: the pairs, then the closing NUL. */
  lemma PropertyBlockStepsEmit(ps: seq<Property>)
    ensures Emit(PropertyBlockSteps(ps), true) == Emission(PropertyBlock(ps), None)
  {
    PropertyStepsEmit(ps);
    EmitStep([], PropertySteps(ps), Write(StringValue([]), true), true);
  }

  /**
    What #writeHeader writes for a leaf: getHeaderData(), followed for the
    Header by its property block; a field that is not a uint32 throws
    OutOfRange.
   */
  lemma {:induction false} RecordStepsEmit(e: Entry)
    ensures var m := Emit(RecordSteps(e), true);
      (m.error.None? <==> e.GetHeaderData().Ok?) &&
      (e.GetHeaderData().Ok? ==>
        m.bytes == e.GetHeaderData().value + (if e.isHeader then PropertyBlock(e.properties) else [])) &&
      (e.GetHeaderData().Err? ==> m.error == Some(OutOfRange))
  {
    FieldStepsEmit(e);
    if e.isHeader {
      PropertyBlockStepsEmit(e.properties);
      EmitAppend(FieldSteps(e), PropertyBlockSteps(e.properties), true);
    } else {
      assert RecordSteps(e) == FieldSteps(e) + [] == FieldSteps(e);
      assert e.GetHeaderData().Ok? ==> e.GetHeaderData().value + [] == e.GetHeaderData().value;
    }
  }

  /**
    The record #writeHeader writes for an ordinary leaf is read back by
    readHeaderData's decoding, wherever it sits in the archive: the same
    path and fields, the record's bytes, and the cursor just after them.
   */
  lemma WrittenRecordDecodes(e: Entry, before: Bytes, after: Bytes)
    requires !e.isHeader && Emit(RecordSteps(e), true).error.None?
    ensures var b := Emit(RecordSteps(e), true).bytes;
      DecodeRecord(before + b + after, |before|) ==
        Ok(Decoded(e.RecordWith(e.RecordPath()), b, |b|, |before| + |b|))
  {
    RecordStepsEmit(e);
    assert Emit(RecordSteps(e), true).bytes == e.GetHeaderData().value + [] == e.GetHeaderData().value;
    e.HeaderDataRoundTrip(before, after);
  }

  /** What #writeFile writes for the leaves' files, back to back. */
  function LeafPayloads(ls: seq<Entry>, files: map<Bytes, Bytes>): Bytes
    reads set l | l in ls
    requires forall l :: l in ls ==> l.file in files
  {
    if |ls| == 0 then [] else Payload(files[ls[0].file]) + LeafPayloads(ls[1..], files)
  }

  /**
    #writeFile for one leaf writes the file's contents padded to whole
    4096-byte buffers, or throws when the file does not exist.
   */
  lemma FileLeafStepsEmit(e: Entry, files: map<Bytes, Bytes>)
    ensures Emit(FileLeafSteps(e, files), true) ==
      if e.file in files then Emission(Payload(files[e.file]), None) else Emission([], Some(FileMissing))
  {
    if e.file in files {
      FileCopiedAsWritten(files[e.file]);
    }
  }

  /**
    Copying several leaves writes their payloads (contents padded to whole
    4096-byte buffers) in order when every file exists, and throws
    FileMissing otherwise.
   */
  lemma {:induction false} FileLeafStepsOfEmit(ls: seq<Entry>, files: map<Bytes, Bytes>)
    ensures Emit(FileLeafStepsOf(ls, files), true).error ==
      if forall l :: l in ls ==> l.file in files then None else Some(FileMissing)
    ensures (forall l :: l in ls ==> l.file in files) ==>
      Emit(FileLeafStepsOf(ls, files), true).bytes == LeafPayloads(ls, files)
  {
    if |ls| > 0 {
      FileLeafStepsOfEmit(ls[1..], files);
      FileLeafStepsEmit(ls[0], files);
      EmitAppend(FileLeafSteps(ls[0], files), FileLeafStepsOf(ls[1..], files), true);
      assert forall l :: l in ls ==> l == ls[0] || l in ls[1..];
    }
  }

  /**
    #writeFile on an entry writes the payloads of its leaves' files in
    depth-first listing order when they all exist, and throws FileMissing
    otherwise.
   */
  lemma FileStepsEmit(e: Entry, files: map<Bytes, Bytes>)
    requires e.Valid()
    ensures Emit(FileSteps(e, files), true).error ==
      if forall l :: l in Leaves(e) ==> l.file in files then None else Some(FileMissing)
    ensures (forall l :: l in Leaves(e) ==> l.file in files) ==>
      Emit(FileSteps(e, files), true).bytes == LeafPayloads(Leaves(e), files)
  {
    FileStepsAreLeafFiles(e, files);
    FileLeafStepsOfEmit(Leaves(e), files);
  }

  /** The records of the leaves back to back: getHeaderData(), and for the Header its property block. */
  function LeafRecords(ls: seq<Entry>): Bytes
    reads set l | l in ls
    requires forall l :: l in ls ==> l.GetHeaderData().Ok?
  {
    if |ls| == 0 then []
    else
      ls[0].GetHeaderData().value + (if ls[0].isHeader then PropertyBlock(ls[0].properties) else []) +
      LeafRecords(ls[1..])
  }

  /**
    Writing the records of several leaves writes each leaf's record in order
    when every field fits a uint32, and throws OutOfRange otherwise.
   */
  lemma {:induction false} RecordStepsOfEmit(ls: seq<Entry>)
    ensures Emit(RecordStepsOf(ls), true).error ==
      if forall l :: l in ls ==> l.GetHeaderData().Ok? then None else Some(OutOfRange)
    ensures (forall l :: l in ls ==> l.GetHeaderData().Ok?) ==>
      Emit(RecordStepsOf(ls), true).bytes == LeafRecords(ls)
  {
    if |ls| > 0 {
      RecordStepsOfEmit(ls[1..]);
      RecordStepsEmit(ls[0]);
      EmitAppend(RecordSteps(ls[0]), RecordStepsOf(ls[1..]), true);
      assert forall l :: l in ls ==> l == ls[0] || l in ls[1..];
    }
  }

  /**
    #writeHeader on an entry writes the records of its leaves in depth-first
    listing order, none for a directory itself, when every field fits a
    uint32, and throws OutOfRange otherwise.
   */
  lemma HeaderStepsEmit(e: Entry)
    requires e.Valid()
    ensures Emit(HeaderSteps(e), true).error ==
      if forall l :: l in Leaves(e) ==> l.GetHeaderData().Ok? then None else Some(OutOfRange)
    ensures (forall l :: l in Leaves(e) ==> l.GetHeaderData().Ok?) ==>
      Emit(HeaderSteps(e), true).bytes == LeafRecords(Leaves(e))
  {
    HeaderStepsAreLeafRecords(e);
    RecordStepsOfEmit(Leaves(e));
  }

  /**
    The data pass's switch for one entry: Version and Null entries write
    nothing, an Uncompressed entry writes its leaves' payloads (throwing
    FileMissing when one does not exist), any other method throws before
    writing.
   */
  lemma DispatchStepsEmit(e: Entry, files: map<Bytes, Bytes>)
    requires e.Valid()
    ensures var m := Emit(DispatchSteps(e, files), true);
      (e.packingMethod == VERSION || e.packingMethod == NULL ==> m == Emission([], None)) &&
      (e.packingMethod == UNCOMPRESSED ==>
        (m.error.None? <==> forall l :: l in Leaves(e) ==> l.file in files) &&
        (m.error.Some? ==> m.error == Some(FileMissing)) &&
        (m.error.None? ==> m.bytes == LeafPayloads(Leaves(e), files))) &&
      (e.packingMethod !in {VERSION, NULL, UNCOMPRESSED} ==> m == Emission([], Some(UnsupportedPackingMethod)))
  {
    if e.packingMethod == UNCOMPRESSED {
      FileStepsEmit(e, files);
    }
  }

  /**
    The body pack writes inside its try block: the header pass; if it did
    not throw, 21 zero bytes and the data pass.
   */
  lemma PackStepsEmit(es: seq<Entry>, R: set<Entry>, files: map<Bytes, Bytes>)
    requires Within(es, R)
    ensures var h := Emit(HeaderPass(es, R), true);
      var d := Emit(DataPass(es, R, files), true);
      var p := Emit(PackSteps(es, R, files), true);
      (h.error.Some? ==> p == h) &&
      (h.error.None? ==> p == Emission(h.bytes + Zeros(HEADER_ENTRY_DEFAULT_SIZE) + d.bytes, d.error))
  {
    var term := [Write(BufferValue(Zeros(HEADER_ENTRY_DEFAULT_SIZE)), true)];
    EmitAppend(HeaderPass(es, R), term, true);
    EmitAppend(HeaderPass(es, R) + term, DataPass(es, R, files), true);
    assert Emit(term, true) == Emission(Zeros(HEADER_ENTRY_DEFAULT_SIZE) + [], None);
  }

  /**
    A first pack that completes ends the archive with a NUL and the SHA-1
    digest of every byte before the digest: the headers, the terminator,
    the payloads and the NUL. The archive is 21 bytes longer than the body.
   */
  lemma PackSigned(e: Emission, sha: Bytes -> Digest)
    requires e.error.None?
    ensures var p := PackOutcome(e, [], None, sha);
      p.result == Ok(true) && !p.removed && p.hashed == e.bytes + [0] &&
      p.out == p.hashed + sha(p.hashed) && p.digest == Some(sha(p.hashed)) &&
      |p.out| == |e.bytes| + 1 + SHA1_LENGTH
  {
    assert [] + e.bytes == e.bytes;
  }

  /**
    A pack whose body throws removes the archive and reports false; the
    bytes written before the error stay fed to #checksum while it is a Hash,
    and nothing is digested.
   */
  lemma PackFailed(e: Emission, hashed0: Bytes, digest0: Option<Digest>, sha: Bytes -> Digest)
    requires e.error.Some?
    ensures var p := PackOutcome(e, hashed0, digest0, sha);
      p.result == Ok(false) && p.removed && p.digest == digest0 && p.out == e.bytes &&
      p.hashed == hashed0 + (if digest0.None? then e.bytes else [])
  {
  }

  lemma SixSteps<T>(a: T, b: T, c: T, d: T, e: T, f: T)
    ensures [] + [a] + [b] + [c] + [d] + [e] + [f] == [a, b, c, d, e, f]
  {
  }

  class PboWriter {
    /** #file: where the archive is written. */
    const file: Bytes
    /** Whether #handle has been set; only pack sets it. */
    var handleOpen: bool
    /** #entries, the Header first. */
    var entries: seq<Entry>
    /** The bytes written through the handle pack opened last. */
    var out: Bytes
    /** Whether pack removed the archive after an error. */
    var removed: bool
    /** The bytes fed to #checksum while it is a Hash. */
    var hashed: Bytes
    /** #checksum once it has been replaced by its digest; None while it is a Hash. */
    var digest: Option<Digest>
    /** The entries and everything below them. */
    ghost var Repr: set<Entry>

    ghost predicate Valid()
      reads this
    {
      Within(entries, Repr)
    }

    /** The writer's fields other than the output and the hash are left alone. */
    twostate predicate Steady()
      reads this
    {
      entries == old(entries) && Repr == old(Repr) && handleOpen == old(handleOpen) && removed == old(removed) &&
      digest == old(digest)
    }

    /**
      Since the output was `out0` and the hashed bytes `hashed0`, the run
      `steps` has been written: its bytes are appended to the output, and to
      the hashed bytes while #checksum is a Hash, and `thrown` is the error
      that stopped it.
     */
    predicate Wrote(out0: Bytes, hashed0: Bytes, steps: seq<Step>, thrown: Option<Error>)
      reads this
    {
      var e := Emit(steps, handleOpen);
      out == out0 + e.bytes && hashed == hashed0 + (if digest.None? then e.bytes else []) && thrown == e.error
    }

    /**
      new PboWriter(file): one entry, a Header whose prefix and product are
      the archive's base name and whose version is the given time string,
      and a fresh hash.
     */
    constructor (file: Bytes, version: Bytes)
      ensures Valid() && this.file == file && !handleOpen && out == [] && !removed && hashed == [] && digest == None
      ensures |entries| == 1 && fresh(entries[0]) && entries[0].isHeader && entries[0].packingMethod == VERSION
      ensures entries[0].properties == InitialProperties(Some(Basename(file)), Some(Basename(file)), Some(version))
      ensures entries[0].RecordPath() == [] && entries[0].IsNull()
    {
      this.file := file;
      var header := new Entry.Header(Some(Basename(file)), Some(Basename(file)), Some(version));
      entries := [header];
      Repr := {header} + header.Repr;
      handleOpen := false;
      out := [];
      removed := false;
      hashed := [];
      digest := None;
    }

    /**
      addFile: throws when the path does not exist (stat None), otherwise
      appends a new entry for it, rooted at '/'.
     */
    method AddFile(file: Bytes, stat: Option<Stat>) returns (r: Result<()>)
      requires Valid()
      modifies this
      ensures Valid() && handleOpen == old(handleOpen) && out == old(out) && removed == old(removed) &&
        hashed == old(hashed) && digest == old(digest)
      ensures r.Err? <==> |file| == 0 || stat.None?
      ensures r.Err? ==> r.error == FileMissing && entries == old(entries)
      ensures r.Ok? ==> (|entries| == |old(entries)| + 1 && entries[..|old(entries)|] == old(entries) &&
        fresh(entries[|old(entries)|]) && entries[|old(entries)|].FromStat(file, [0x2f], stat))
    {
      if |file| == 0 || stat.None? {
        return Err(FileMissing);
      }
      var e := new Entry(file, [0x2f], stat);
      entries := entries + [e];
      Repr := Repr + {e} + e.Repr;
      r := Ok(());
    }

    /**
      #writeData: without a handle, or for a value that converts to
      undefined, writes nothing and reports false; otherwise writes the
      converted bytes, feeds them to #checksum while it is a Hash, and reports
      true. A number that is not a uint32 throws.
     */
    method WriteData(value: JsValue, nullTerminated: bool) returns (r: Result<bool>)
      modifies this
      ensures Steady()
      ensures var o := StepOutcome(Write(value, nullTerminated), handleOpen);
        (o.Err? ==> r == Err(o.error) && out == old(out) && hashed == old(hashed)) &&
        (o.Ok? ==> r.Ok? && out == old(out) + o.value && hashed == old(hashed) + (if digest.None? then o.value else []))
      ensures r == Ok(true) <==> handleOpen && ConvertToBuffer(value, nullTerminated).Ok? &&
                                 ConvertToBuffer(value, nullTerminated).value.Some?
    {
      if !handleOpen {
        return Ok(false);
      }
      var data := ConvertToBuffer(value, nullTerminated);
      if data.Err? {
        return Err(data.error);
      }
      if data.value.None? {
        return Ok(false);
      }
      out := out + data.value.value;
      if digest.None? {
        hashed := hashed + data.value.value;
      }
      r := Ok(true);
    }

    /**
      One more #writeData call of a run, made only when none of the calls
      before it has thrown (a throw leaves the rest of the run unexecuted).
     */
    method WriteUnlessThrown(ghost done: seq<Step>, s: Step, ghost out0: Bytes, ghost hashed0: Bytes,
                             thrown0: Option<Error>) returns (thrown: Option<Error>)
      requires s.Write?
      requires Wrote(out0, hashed0, done, thrown0)
      modifies this
      ensures Steady()
      ensures Wrote(out0, hashed0, done + [s], thrown)
    {
      EmitAppend(done, [s], handleOpen);
      if thrown0.Some? {
        return thrown0;
      }
      var r := WriteData(s.value, s.nullTerminated);
      if StepOutcome(s, handleOpen).Ok? {
        EmitStep(out0, done, s, handleOpen);
        EmitStep(hashed0, done, s, handleOpen);
      } else {
        assert Emit([s], handleOpen).bytes == [];
        assert Emit(done, handleOpen).bytes + [] == Emit(done, handleOpen).bytes;
      }
      thrown := if r.Err? then Some(r.error) else None;
    }

    /** The first part of #writeHeader for a leaf: the record path and the five fields. */
    method WriteFields(entry: Entry) returns (thrown: Option<Error>)
      modifies this
      ensures Steady()
      ensures Wrote(old(out), old(hashed), FieldSteps(entry), thrown)
    {
      assert out == old(out) + [] && hashed == old(hashed) + [];
      var path := if |entry.file| > 0 && |entry.root| > 0 then Join(entry.root, Basename(entry.file)) else [];
      var s0, s1, s2 := Write(StringValue(path), true), Write(NumberValue(entry.packingMethod), true),
        Write(NumberValue(entry.originalSize), true);
      var s3, s4, s5 := Write(NumberValue(entry.reserved), true), Write(NumberValue(entry.timestamp), true),
        Write(NumberValue(entry.dataSize), true);
      thrown := WriteUnlessThrown([], s0, old(out), old(hashed), None);
      thrown := WriteUnlessThrown([] + [s0], s1, old(out), old(hashed), thrown);
      thrown := WriteUnlessThrown([] + [s0] + [s1], s2, old(out), old(hashed), thrown);
      thrown := WriteUnlessThrown([] + [s0] + [s1] + [s2], s3, old(out), old(hashed), thrown);
      thrown := WriteUnlessThrown([] + [s0] + [s1] + [s2] + [s3], s4, old(out), old(hashed), thrown);
      thrown := WriteUnlessThrown([] + [s0] + [s1] + [s2] + [s3] + [s4], s5, old(out), old(hashed), thrown);
      SixSteps(s0, s1, s2, s3, s4, s5);
    }

    /**
      The Header's part of #writeHeader: each property's key, then its value
      when truthy, in insertion order, and finally ''. None of these throws.
     */
    method WriteProperties(ps: seq<Property>)
      modifies this
      ensures Steady()
      ensures Wrote(old(out), old(hashed), PropertyBlockSteps(ps), None)
    {
      ghost var done: seq<Step> := [];
      assert out == old(out) + [] && hashed == old(hashed) + [];
      var i := 0;
      while i < |ps|
        invariant 0 <= i <= |ps| && Steady()
        invariant done == PropertySteps(ps[..i])
        invariant Wrote(old(out), old(hashed), done, None)
      {
        assert ps[..i + 1][..i] == ps[..i];
        var key := Write(StringValue(ps[i].key), true);
        var _ := WriteData(key.value, key.nullTerminated);
        EmitStep(old(out), done, key, handleOpen);
        EmitStep(old(hashed), done, key, handleOpen);
        done := done + [key];
        if Truthy(ps[i].value) {
          var value := Write(StringValue(ps[i].value.value), true);
          var _ := WriteData(value.value, value.nullTerminated);
          EmitStep(old(out), done, value, handleOpen);
          EmitStep(old(hashed), done, value, handleOpen);
          done := done + [value];
        }
        i := i + 1;
      }
      assert ps[..i] == ps;
      var closing := Write(StringValue([]), true);
      var _ := WriteData(closing.value, closing.nullTerminated);
      EmitStep(old(out), done, closing, handleOpen);
      EmitStep(old(hashed), done, closing, handleOpen);
    }

    /** A run `a` that did not throw, followed by a run `b` written after it, is the run `a + b`. */
    lemma WroteThen(out0: Bytes, hashed0: Bytes, a: seq<Step>, out1: Bytes, hashed1: Bytes, b: seq<Step>,
                    thrown: Option<Error>)
      requires Emit(a, handleOpen).error.None?
      requires out1 == out0 + Emit(a, handleOpen).bytes
      requires hashed1 == hashed0 + (if digest.None? then Emit(a, handleOpen).bytes else [])
      requires Wrote(out1, hashed1, b, thrown)
      ensures Wrote(out0, hashed0, a + b, thrown)
    {
      EmitAppend(a, b, handleOpen);
      var ea, eb := Emit(a, handleOpen).bytes, Emit(b, handleOpen).bytes;
      Associative(out0, ea, eb);
      Associative(hashed0, ea, eb);
    }

    /** Once a run has thrown, the calls after it are never made. */
    lemma WroteAbandon(out0: Bytes, hashed0: Bytes, a: seq<Step>, b: seq<Step>, thrown: Option<Error>)
      requires thrown.Some? && Wrote(out0, hashed0, a, thrown)
      ensures Wrote(out0, hashed0, a + b, thrown)
    {
      EmitAppend(a, b, handleOpen);
    }

    /**
      The record #writeHeader writes for a leaf: the fields, then for the
      Header its property block, unless writing a field threw.
     */
    method WriteRecord(entry: Entry) returns (thrown: Option<Error>)
      modifies this
      ensures Steady()
      ensures Wrote(old(out), old(hashed), RecordSteps(entry), thrown)
    {
      thrown := WriteFields(entry);
      if !entry.isHeader {
        assert RecordSteps(entry) == FieldSteps(entry) + [] == FieldSteps(entry);
      } else if thrown.Some? {
        WroteAbandon(old(out), old(hashed), FieldSteps(entry), PropertyBlockSteps(entry.properties), thrown);
      } else {
        ghost var out1, hashed1 := out, hashed;
        WriteProperties(entry.properties);
        WroteThen(old(out), old(hashed), FieldSteps(entry), out1, hashed1, PropertyBlockSteps(entry.properties), None);
      }
    }

    /**
      #writeHeader: a directory that is not the Header writes its children's
      headers and nothing of its own; any other entry writes its record.
     */
    method WriteHeader(entry: Entry) returns (thrown: Option<Error>)
      requires entry.Valid()
      modifies this
      ensures Steady()
      ensures Wrote(old(out), old(hashed), HeaderSteps(entry), thrown)
      decreases entry.Repr, 2
    {
      if entry.isDir && !entry.isHeader {
        thrown := WriteChildHeaders(entry, HeaderStepsFrom(entry, 0));
      } else {
        thrown := WriteRecord(entry);
      }
    }

    /** Child i's headers, and the children's headers that remain after it. */
    method WriteChildHeader(entry: Entry, i: nat) returns (thrown: Option<Error>, ghost part: seq<Step>)
      requires entry.Valid() && i < |entry.children|
      modifies this
      ensures Steady()
      ensures Wrote(old(out), old(hashed), part, thrown)
      ensures HeaderStepsFrom(entry, i) == part + HeaderStepsFrom(entry, i + 1)
      decreases entry.Repr, 0
    {
      part := HeaderSteps(entry.children[i]);
      thrown := WriteHeader(entry.children[i]);
    }

    /** The children's headers, in listing order, until one of them throws. */
    method WriteChildHeaders(entry: Entry, ghost pass: seq<Step>) returns (thrown: Option<Error>)
      requires entry.Valid() && pass == HeaderStepsFrom(entry, 0)
      modifies this
      ensures Steady()
      ensures Wrote(old(out), old(hashed), pass, thrown)
      decreases entry.Repr, 1
    {
      ghost var done: seq<Step> := [];
      assert out == old(out) + [] && hashed == old(hashed) + [];
      var i := 0;
      while i < |entry.children|
        invariant 0 <= i <= |entry.children| && Steady()
        invariant done + HeaderStepsFrom(entry, i) == pass
        invariant Wrote(old(out), old(hashed), done, None)
      {
        ghost var out1, hashed1 := out, hashed;
        var t, part := WriteChildHeader(entry, i);
        WroteThen(old(out), old(hashed), done, out1, hashed1, part, t);
        Associative(done, part, HeaderStepsFrom(entry, i + 1));
        done := done + part;
        if t.Some? {
          WroteAbandon(old(out), old(hashed), done, HeaderStepsFrom(entry, i + 1), t);
          return t;
        }
        i := i + 1;
      }
      assert done + [] == done;
      return None;
    }

    /**
      #writeFile for a leaf: opening a path that is not in the file system
      throws; otherwise the file is read 4096 bytes at a time until a read
      returns nothing, and each read that returned bytes is written.
     */
    method WriteFileContents(entry: Entry, files: map<Bytes, Bytes>) returns (thrown: Option<Error>)
      modifies this
      ensures Steady()
      ensures Wrote(old(out), old(hashed), FileLeafSteps(entry, files), thrown)
    {
      if entry.file !in files {
        assert Emit([Raise(FileMissing)], handleOpen) == Emission([], Some(FileMissing));
        assert out == old(out) + [] && hashed == old(hashed) + [];
        return Some(FileMissing);
      }
      thrown := CopyFile(files[entry.file]);
    }

    /**
      The read loop of #writeFile over a file's contents `c`: each read fills
      the front of a fresh 4096-byte buffer, and the whole buffer is written.
     */
    method CopyFile(c: Bytes) returns (thrown: Option<Error>)
      modifies this
      ensures Steady()
      ensures Wrote(old(out), old(hashed), FileCopySteps(c), thrown)
    {
      ghost var done: seq<Step> := [];
      assert out == old(out) + [] && hashed == old(hashed) + [];
      var position := 0;
      var bytesRead: Option<nat> := None;
      while bytesRead.None? || bytesRead.value > 0
        invariant position <= |c| && Steady()
        invariant bytesRead == Some(0) ==> position == |c|
        invariant done + FileCopySteps(c[position..]) == FileCopySteps(c)
        invariant Wrote(old(out), old(hashed), done, None)
        decreases |c| - position, if bytesRead.None? || bytesRead.value > 0 then 1 else 0
      {
        var buffer := Zeros(PACKING_BUFFER_SIZE);
        var got := ReadAt(c, position, PACKING_BUFFER_SIZE);
        FilledBuffer(got);
        buffer := got + buffer[|got|..];
        bytesRead := Some(|got|);
        if |got| > 0 {
          ReadChunk(c, position);
          var w := Write(BufferValue(buffer), true);
          assert buffer == Padded(got);
          var _ := WriteData(w.value, w.nullTerminated);
          EmitStep(old(out), done, w, handleOpen);
          EmitStep(old(hashed), done, w, handleOpen);
          Associative(done, [w], FileCopySteps(c[position + |got|..]));
          done := done + [w];
          position := position + |got|;
        }
      }
      assert c[position..] == [] && done + [] == done;
      thrown := None;
    }

    /**
      #writeFile: a directory that is not the Header copies its children's
      files; any other entry copies its own file.
     */
    method WriteFile(entry: Entry, files: map<Bytes, Bytes>) returns (thrown: Option<Error>)
      requires entry.Valid()
      modifies this
      ensures Steady()
      ensures Wrote(old(out), old(hashed), FileSteps(entry, files), thrown)
      decreases entry.Repr, 2
    {
      if entry.isDir && !entry.isHeader {
        thrown := WriteChildFiles(entry, files, FileStepsFrom(entry, 0, files));
      } else {
        thrown := WriteFileContents(entry, files);
      }
    }

    /** Child i's files, and the children's files that remain after it. */
    method WriteChildFile(entry: Entry, i: nat, files: map<Bytes, Bytes>) returns (thrown: Option<Error>, ghost part: seq<Step>)
      requires entry.Valid() && i < |entry.children|
      modifies this
      ensures Steady()
      ensures Wrote(old(out), old(hashed), part, thrown)
      ensures FileStepsFrom(entry, i, files) == part + FileStepsFrom(entry, i + 1, files)
      decreases entry.Repr, 0
    {
      part := FileSteps(entry.children[i], files);
      thrown := WriteFile(entry.children[i], files);
    }

    /** The children's files, in listing order, until one of them throws. */
    method WriteChildFiles(entry: Entry, files: map<Bytes, Bytes>, ghost pass: seq<Step>) returns (thrown: Option<Error>)
      requires entry.Valid() && pass == FileStepsFrom(entry, 0, files)
      modifies this
      ensures Steady()
      ensures Wrote(old(out), old(hashed), pass, thrown)
      decreases entry.Repr, 1
    {
      ghost var done: seq<Step> := [];
      assert out == old(out) + [] && hashed == old(hashed) + [];
      var i := 0;
      while i < |entry.children|
        invariant 0 <= i <= |entry.children| && Steady()
        invariant done + FileStepsFrom(entry, i, files) == pass
        invariant Wrote(old(out), old(hashed), done, None)
      {
        ghost var out1, hashed1 := out, hashed;
        var t, part := WriteChildFile(entry, i, files);
        WroteThen(old(out), old(hashed), done, out1, hashed1, part, t);
        Associative(done, part, FileStepsFrom(entry, i + 1, files));
        done := done + part;
        if t.Some? {
          WroteAbandon(old(out), old(hashed), done, FileStepsFrom(entry, i + 1, files), t);
          return t;
        }
        i := i + 1;
      }
      assert done + [] == done;
      return None;
    }

    /** Entry i's turn in the header pass: what it writes, and the header pass that remains after it. */
    method WriteEntryHeader(i: nat) returns (thrown: Option<Error>, ghost part: seq<Step>)
      requires Valid() && i < |entries|
      modifies this
      ensures Steady()
      ensures Wrote(old(out), old(hashed), part, thrown)
      ensures HeaderPass(entries[i..], Repr) == part + HeaderPass(entries[i + 1..], Repr)
    {
      HeaderPassStep(entries, Repr, i);
      part := HeaderSteps(entries[i]);
      thrown := WriteHeader(entries[i]);
    }

    /** The header pass of pack: #writeHeader for every entry in order, until one throws. */
    method WriteHeaders(ghost pass: seq<Step>) returns (thrown: Option<Error>)
      requires Valid() && pass == HeaderPass(entries, Repr)
      modifies this
      ensures Steady()
      ensures Wrote(old(out), old(hashed), pass, thrown)
    {
      ghost var done: seq<Step> := [];
      assert out == old(out) + [] && hashed == old(hashed) + [];
      var i := 0;
      while i < |entries|
        invariant 0 <= i <= |entries| && Steady()
        invariant done + HeaderPass(entries[i..], Repr) == pass
        invariant Wrote(old(out), old(hashed), done, None)
      {
        ghost var out1, hashed1 := out, hashed;
        var t, part := WriteEntryHeader(i);
        WroteThen(old(out), old(hashed), done, out1, hashed1, part, t);
        Associative(done, part, HeaderPass(entries[i + 1..], Repr));
        done := done + part;
        if t.Some? {
          WroteAbandon(old(out), old(hashed), done, HeaderPass(entries[i + 1..], Repr), t);
          return t;
        }
        i := i + 1;
      }
      assert done + [] == done;
      return None;
    }

    /**
      The switch of pack's data pass for one entry: Version and Null entries
      are skipped, Uncompressed ones copied, any other method throws.
     */
    method WriteDispatched(entry: Entry, files: map<Bytes, Bytes>) returns (thrown: Option<Error>)
      requires entry.Valid()
      modifies this
      ensures Steady()
      ensures Wrote(old(out), old(hashed), DispatchSteps(entry, files), thrown)
    {
      if entry.packingMethod == VERSION || entry.packingMethod == NULL {
        assert out == old(out) + [] && hashed == old(hashed) + [];
        thrown := None;
      } else if entry.packingMethod == UNCOMPRESSED {
        thrown := WriteFile(entry, files);
      } else {
        assert Emit([Raise(UnsupportedPackingMethod)], handleOpen) == Emission([], Some(UnsupportedPackingMethod));
        assert out == old(out) + [] && hashed == old(hashed) + [];
        thrown := Some(UnsupportedPackingMethod);
      }
    }

    /** Entry i's turn in the data pass: what it writes, and the data pass that remains after it. */
    method WriteEntryData(i: nat, files: map<Bytes, Bytes>) returns (thrown: Option<Error>, ghost part: seq<Step>)
      requires Valid() && i < |entries|
      modifies this
      ensures Steady()
      ensures Wrote(old(out), old(hashed), part, thrown)
      ensures DataPass(entries[i..], Repr, files) == part + DataPass(entries[i + 1..], Repr, files)
    {
      DataPassStep(entries, Repr, i, files);
      part := DispatchSteps(entries[i], files);
      thrown := WriteDispatched(entries[i], files);
    }

    /** The data pass of pack: every entry dispatched in order, until one throws. */
    method WriteFiles(files: map<Bytes, Bytes>, ghost pass: seq<Step>) returns (thrown: Option<Error>)
      requires Valid() && pass == DataPass(entries, Repr, files)
      modifies this
      ensures Steady()
      ensures Wrote(old(out), old(hashed), pass, thrown)
    {
      ghost var done: seq<Step> := [];
      assert out == old(out) + [] && hashed == old(hashed) + [];
      var i := 0;
      while i < |entries|
        invariant 0 <= i <= |entries| && Steady()
        invariant done + DataPass(entries[i..], Repr, files) == pass
        invariant Wrote(old(out), old(hashed), done, None)
      {
        ghost var out1, hashed1 := out, hashed;
        var t, part := WriteEntryData(i, files);
        ghost var rest := DataPass(entries[i + 1..], Repr, files);
        WroteThen(old(out), old(hashed), done, out1, hashed1, part, t);
        Associative(done, part, rest);
        done := done + part;
        assert done + rest == pass;
        if t.Some? {
          WroteAbandon(old(out), old(hashed), done, rest, t);
          return t;
        }
        i := i + 1;
      }
      assert done + [] == done;
      return None;
    }

    /** The part of pack inside its try block: the header pass, the terminator, the data pass. */
    method WriteBody(files: map<Bytes, Bytes>, ghost steps: seq<Step>) returns (thrown: Option<Error>)
      requires Valid() && steps == PackSteps(entries, Repr, files)
      modifies this
      ensures Steady()
      ensures Wrote(old(out), old(hashed), steps, thrown)
    {
      ghost var out0, hashed0 := out, hashed;
      ghost var a := HeaderPass(entries, Repr);
      var term := Write(BufferValue(Zeros(HEADER_ENTRY_DEFAULT_SIZE)), true);
      ghost var d := DataPass(entries, Repr, files);
      thrown := WriteHeaders(a);
      if thrown.Some? {
        WroteAbandon(out0, hashed0, a, [term], thrown);
        WroteAbandon(out0, hashed0, a + [term], d, thrown);
      } else {
        var _ := WriteData(term.value, term.nullTerminated);
        EmitStep(out0, a, term, handleOpen);
        EmitStep(hashed0, a, term, handleOpen);
        ghost var out2, hashed2 := out, hashed;
        thrown := WriteFiles(files, d);
        WroteThen(out0, hashed0, a + [term], out2, hashed2, d, thrown);
      }
    }

    /**
      pack: recreates the archive and writes the headers, the terminator and
      the payloads. If any of that throws, the archive is removed and the
      result is false. Otherwise a NUL is written, #checksum is replaced by
      the SHA-1 digest of everything it was fed (`sha`), and the digest is
      written. When #checksum is already a digest (a second pack), taking
      its copy throws after the NUL.
     */
    method Pack(files: map<Bytes, Bytes>, sha: Bytes -> Digest) returns (r: Result<bool>)
      requires Valid()
      modifies this
      ensures Valid() && entries == old(entries) && handleOpen
      ensures Packed(r, out, hashed, digest, removed) ==
        PackOutcome(Emit(old(PackSteps(entries, Repr, files)), true), old(hashed), old(digest), sha)
    {
      ghost var steps := PackSteps(entries, Repr, files);
      handleOpen, out, removed := true, [], false;
      var thrown := WriteBody(files, steps);
      if thrown.Some? {
        removed := true;
        return Ok(false);
      }
      r := WriteSignature(sha);
    }

    /**
      The signature pack writes after a body that did not throw: a NUL, then
      the digest #checksum is replaced by. When #checksum is already a
      digest, Buffer.copy() without a target throws after the NUL.
     */
    method WriteSignature(sha: Bytes -> Digest) returns (r: Result<bool>)
      requires handleOpen
      modifies this
      ensures entries == old(entries) && Repr == old(Repr) && handleOpen && removed == old(removed)
      ensures old(digest).Some? ==> (r == Err(ChecksumDigested) && out == old(out) + [0] && hashed == old(hashed) &&
        digest == old(digest))
      ensures old(digest).None? ==> (r == Ok(true) && hashed == old(hashed) + [0] && digest == Some(sha(hashed)) &&
        out == old(out) + [0] + digest.value)
    {
      var _ := WriteData(StringValue([0]), false);
      if digest.Some? {
        return Err(ChecksumDigested);
      }
      digest := Some(sha(hashed));
      var _ := WriteData(BufferValue(digest.value), false);
      r := Ok(true);
    }
  }
}
