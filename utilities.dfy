/**
  Byte-level primitives shared by the entry codec and the writer: the
  little-endian uint32 codec, the conversion of a script value to bytes, the
  scan that reads one byte at a time until a terminator has been seen, and the
  exact-length read. A file handle is modelled by the byte sequence it reads.
 */
module Utilities {
  import opened Constants

  /** One octet; a newtype over int rather than a bit-vector keeps the arithmetic linear. */
  newtype byte = b: int | 0 <= b < 256

  type Bytes = seq<byte>

  /** Errors the source throws. */
  datatype Error =
    | ReadFailed                 // a read came back short ('Error occured reading file!')
    | SizeMismatch               // 'Data entry size did not match!'
    | OutOfRange                 // a number that does not fit a uint32 field
    | InvalidArgument            // a value Buffer.concat refuses
    | UnsupportedPackingMethod   // 'File entry packing method unsupported!'
    | FileMissing                // 'File does not exist!' or a failed open
    | ChecksumDigested           // #checksum is already a digest Buffer: Buffer.copy() without a target throws

  datatype Result<T> = Ok(value: T) | Err(error: Error)

  datatype Option<T> = None | Some(value: T)

  /** The values a script may hand to the converters: a Buffer, a string, a number, anything else. */
  datatype JsValue =
    | BufferValue(bytes: Bytes)
    | StringValue(text: Bytes)
    | NumberValue(number: int)
    | OtherValue

  const NULL_TERM: Bytes := [0]
  const EMPTY_BUFFER: Bytes := []

  function Zeros(n: nat): (z: Bytes)
    ensures |z| == n && forall i :: 0 <= i < n ==> z[i] == 0
  {
    seq(n, _ => 0)
  }

  /** Little-endian value of a byte sequence, least significant byte first. */
  function LittleEndian(b: Bytes): nat {
    if |b| == 0 then 0 else b[0] as nat + 256 * LittleEndian(b[1..])
  }

  /** Little-endian value of four bytes (Buffer.readUint32LE). */
  function LEToUint32(b: Bytes): (n: nat)
    requires |b| == UINT32_LENGTH
    ensures IsUint32(n)
  {
    LEDigits(b);
    LittleEndian(b)
  }

  /** The four-byte little-endian value written out digit by digit. */
  lemma LEDigits(b: Bytes)
    requires |b| == UINT32_LENGTH
    ensures LittleEndian(b) == b[0] as nat + 256 * (b[1] as nat + 256 * (b[2] as nat + 256 * (b[3] as nat)))
  {
    var t1 := b[1..];
    var t2 := t1[1..];
    var t3 := t2[1..];
    assert t3[1..] == [];
    assert LittleEndian(t3) == b[3] as nat;
    assert LittleEndian(t2) == b[2] as nat + 256 * (b[3] as nat);
    assert LittleEndian(t1) == b[1] as nat + 256 * (b[2] as nat + 256 * (b[3] as nat));
  }

  /** Buffer.writeUint32LE into a fresh 4-byte buffer. */
  function Uint32ToLE(n: int): (b: Bytes)
    requires IsUint32(n)
    ensures |b| == UINT32_LENGTH
    ensures LEToUint32(b) == n
  {
    var q1 := n / 256;
    var q2 := q1 / 256;
    var q3 := q2 / 256;
    var b: Bytes := [(n % 256) as byte, (q1 % 256) as byte, (q2 % 256) as byte, (q3 % 256) as byte];
    LEDigits(b);
    b
  }

  /** Reading four bytes and writing the value back gives the same four bytes. */
  lemma LEToUint32RoundTrip(b: Bytes)
    requires |b| == UINT32_LENGTH
    ensures Uint32ToLE(LEToUint32(b)) == b
  {
    var n := LEToUint32(b);
    LEDigits(b);
    var q1 := b[1] as nat + 256 * (b[2] as nat + 256 * (b[3] as nat));
    var q2 := b[2] as nat + 256 * (b[3] as nat);
    assert n / 256 == q1 && n % 256 == b[0] as nat;
    assert q1 / 256 == q2 && q1 % 256 == b[1] as nat;
    assert q2 / 256 == b[3] as nat && q2 % 256 == b[2] as nat;
  }

  /** Distinct uint32 values have distinct encodings. */
  lemma Uint32ToLEInjective(m: int, n: int)
    requires IsUint32(m) && IsUint32(n)
    ensures Uint32ToLE(m) == Uint32ToLE(n) <==> m == n
  {
  }

  /**
    convertToBuffer: a Buffer is returned as is, a string as its bytes followed
    by one NUL unless nullTerminated is false, a number as its 4-byte
    little-endian form, and anything else as undefined (None). A number that is
    not a uint32 makes Buffer.writeUint32LE throw.
   */
  function ConvertToBuffer(input: JsValue, nullTerminated: bool): (r: Result<Option<Bytes>>)
    ensures input.BufferValue? ==> r == Ok(Some(input.bytes))
    ensures input.StringValue? && nullTerminated ==> r == Ok(Some(input.text + NULL_TERM))
    ensures input.StringValue? && !nullTerminated ==> r == Ok(Some(input.text))
    ensures input.NumberValue? ==> (r.Ok? <==> IsUint32(input.number))
    ensures input.NumberValue? && r.Ok? ==>
      r.value.Some? && |r.value.value| == UINT32_LENGTH && LEToUint32(r.value.value) == input.number
    ensures input.OtherValue? ==> r == Ok(None)
  {
    match input
    case BufferValue(b) => Ok(Some(b))
    case StringValue(s) => Ok(Some(if nullTerminated then s + NULL_TERM else s))
    case NumberValue(n) => if IsUint32(n) then Ok(Some(Uint32ToLE(n))) else Err(OutOfRange)
    case OtherValue => Ok(None)
  }

  /** Buffer.includes: does `m` occur as a contiguous run inside `s`? */
  predicate Contains(s: Bytes, m: Bytes)
    decreases |s|
  {
    if |s| < |m| then false
    else s[..|m|] == m || Contains(s[1..], m)
  }

  /** A one-byte pattern occurs exactly when that byte is an element. */
  lemma {:induction false} ContainsByte(s: Bytes, b: byte)
    ensures Contains(s, [b]) <==> b in s
    decreases |s|
  {
    if |s| >= 1 {
      ContainsByte(s[1..], b);
      assert s == [s[0]] + s[1..];
    }
  }

  /** The first n bytes at `start` exist and contain `m`. */
  predicate FoundWithin(input: Bytes, start: nat, m: Bytes, n: nat) {
    start + n <= |input| && Contains(input[start..start + n], m)
  }

  /**
    readUntilMatch's result length: the prefix of input[start..] of length n
    is the shortest non-empty one that contains `m`.
   */
  predicate ShortestMatch(input: Bytes, start: nat, m: Bytes, n: nat) {
    1 <= n && FoundWithin(input, start, m, n) && forall j :: 1 <= j < n ==> !FoundWithin(input, start, m, j)
  }

  /** At most one length is the shortest. */
  lemma ShortestMatchUnique(input: Bytes, start: nat, m: Bytes, n1: nat, n2: nat)
    requires ShortestMatch(input, start, m, n1) && ShortestMatch(input, start, m, n2)
    ensures n1 == n2
  {
  }

  /** The position of the first `b` at or after `start`, if there is one. */
  function FirstIndexFrom(input: Bytes, start: nat, b: byte): (r: Option<nat>)
    ensures r.Some? ==> start <= r.value < |input| && input[r.value] == b
    decreases |input| - start
  {
    if start >= |input| then None
    else if input[start] == b then Some(start)
    else FirstIndexFrom(input, start + 1, b)
  }

  /** No `b` lies between `start` and the position found, and None means no `b` at all from `start` on. */
  lemma {:induction false} FirstIndexFromSpec(input: Bytes, start: nat, b: byte)
    ensures FirstIndexFrom(input, start, b).Some? ==>
      forall j :: start <= j < FirstIndexFrom(input, start, b).value ==> input[j] != b
    ensures FirstIndexFrom(input, start, b).None? <==> forall j :: start <= j < |input| ==> input[j] != b
    decreases |input| - start
  {
    if start < |input| && input[start] != b {
      FirstIndexFromSpec(input, start + 1, b);
    }
  }

  /** The first `b` at or after `start` is at p exactly when p holds `b` and nothing before it from `start` does. */
  lemma FirstIndexFromAt(input: Bytes, start: nat, b: byte, p: nat)
    requires start <= p < |input| && input[p] == b
    requires forall j :: start <= j < p ==> input[j] != b
    ensures FirstIndexFrom(input, start, b) == Some(p)
  {
    FirstIndexFromSpec(input, start, b);
    var q := FirstIndexFrom(input, start, b).value;
  }

  /** With a one-byte terminator, the shortest prefix ends at the first occurrence of that byte. */
  lemma ShortestMatchByte(input: Bytes, start: nat, b: byte, n: nat)
    requires ShortestMatch(input, start, [b], n)
    ensures FirstIndexFrom(input, start, b) == Some(start + n - 1)
  {
    ContainsByte(input[start..start + n], b);
    var i :| 0 <= i < n && input[start..start + n][i] == b;
    forall j | start <= j < start + n - 1 ensures input[j] != b {
      var k := j - start + 1;
      assert !FoundWithin(input, start, [b], k);
      ContainsByte(input[start..start + k], b);
      assert input[start..start + k][k - 1] == input[j];
    }
    assert input[start + i] == b;
    FirstIndexFromAt(input, start, b, start + n - 1);
  }

  /** When no prefix holds a one-byte terminator, the byte does not occur from `start` on. */
  lemma NoMatchByte(input: Bytes, start: nat, b: byte)
    requires forall j :: 1 <= j ==> !FoundWithin(input, start, [b], j)
    ensures FirstIndexFrom(input, start, b) == None
  {
    FirstIndexFromSpec(input, start, b);
    forall p | start <= p < |input| ensures input[p] != b {
      var k := p - start + 1;
      assert !FoundWithin(input, start, [b], k);
      ContainsByte(input[start..start + k], b);
      assert input[start..start + k][k - 1] == input[p];
    }
  }

  /** Adjacent slices concatenate to the slice spanning both. */
  lemma SliceConcat(s: Bytes, a: nat, b: nat, c: nat)
    requires a <= b <= c <= |s|
    ensures s[a..b] + s[b..c] == s[a..c]
  {
    assert |s[a..b] + s[b..c]| == c - a;
    forall t | 0 <= t < c - a ensures (s[a..b] + s[b..c])[t] == s[a..c][t] {
      if t < b - a {
        assert (s[a..b] + s[b..c])[t] == s[a..b][t];
      } else {
        assert (s[a..b] + s[b..c])[t] == s[b..c][t - (b - a)];
      }
    }
  }

  datatype Match = Match(buffer: Bytes, index: nat)

  /**
    readUntilMatch: reads input[start + index] one byte at a time into the
    buffer until the bytes read so far contain `m`; throws when a read comes
    back empty.
   */
  method ReadUntilMatch(input: Bytes, start: nat, m: Bytes) returns (r: Result<Match>)
    ensures r.Ok? ==> ShortestMatch(input, start, m, r.value.index)
    ensures r.Ok? ==> start + r.value.index <= |input| && r.value.buffer == input[start..start + r.value.index]
    ensures r.Err? ==> r.error == ReadFailed && forall j :: 1 <= j ==> !FoundWithin(input, start, m, j)
  {
    var buffer: Bytes := [];
    var index: nat := 0;
    while index == 0 || !Contains(buffer, m)
      invariant index <= |input|
      invariant index > 0 ==> start + index <= |input|
      invariant buffer == if index == 0 then [] else input[start..start + index]
      invariant forall j :: 1 <= j < index ==> !FoundWithin(input, start, m, j)
      decreases |input| - index
    {
      var bytesRead := if start + index < |input| then 1 else 0;
      if bytesRead == 1 {
        buffer := buffer + [input[start + index]];
      }
      index := index + 1;
      if bytesRead == 0 {
        assert forall j :: index <= j ==> !FoundWithin(input, start, m, j);
        return Err(ReadFailed);
      }
    }
    r := Ok(Match(buffer, index));
  }

  /**
    FileHandle.read of `length` bytes at `position`: the bytes actually
    available there, fewer than asked for near the end of the input.
   */
  function ReadAt(input: Bytes, position: nat, length: nat): (got: Bytes)
    ensures |got| <= length
    ensures |got| == length <==> length == 0 || position + length <= |input|
    ensures position <= |input| ==> position + |got| <= |input| && got == input[position..position + |got|]
  {
    if position >= |input| then []
    else if position + length <= |input| then input[position..position + length]
    else input[position..]
  }

  /**
    readAdditional: with a positive length, `bufferToExtend` followed by
    exactly `length` bytes read at `start`, throwing if fewer are available;
    otherwise `bufferToExtend` unchanged.
   */
  method ReadAdditional(input: Bytes, bufferToExtend: Bytes, start: nat, length: int) returns (r: Result<Bytes>)
    ensures length <= 0 ==> r == Ok(bufferToExtend)
    ensures length > 0 ==> (r.Ok? <==> start + length <= |input|)
    ensures length > 0 && r.Ok? ==> r.value == bufferToExtend + input[start..start + length]
    ensures r.Err? ==> r.error == ReadFailed
  {
    if length > 0 {
      var additionalBuffer := ReadAt(input, start, length);
      var bytesRead := |additionalBuffer|;
      if bytesRead != length || bytesRead == 0 {
        return Err(ReadFailed);
      }
      return Ok(bufferToExtend + additionalBuffer);
    }
    return Ok(bufferToExtend);
  }
}
