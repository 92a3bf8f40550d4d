/**
 * The indexed blob reader of tools/DataStreamer.py.
 *
 * A data file holds a msgpack metadata blob in bytes [0, index[0]) followed by
 * N lzma-compressed msgpack records; record i occupies
 * [index[i], index[i] + blobSize[i]). The offsets come from a flat file of
 * uint64 values. lzma and msgpack are foreign code: they are the two
 * functions of a `Codec`, each of which may reject its input.
 */
module DataStreamer {
  import opened Wrappers
  import PySlice

  newtype byte = x: int | 0 <= x < 256

  /** 2^64: every offset and every size is a numpy uint64. */
  const U64: int := 0x1_0000_0000_0000_0000

  /** A decoded msgpack value: the shape of a record and of the metadata blob. */
  datatype Value =
    | Nil
    | Boolean(b: bool)
    | Integer(i: int)
    | Float(f: real)
    | Str(s: string)
    | Bin(data: seq<byte>)
    | Array(items: seq<Value>)
    | Map(entries: seq<(Value, Value)>)

  /** The exceptions a read raises. */
  datatype Error =
    | IndexError         // point access, or metadata access with an empty offset table
    | ValueError         // a slice whose step is zero
    | LzmaError          // lzma.decompress rejected a record's bytes
    | UnpackError        // msgpack.unpackb rejected the bytes
    | UnboundLocalError  // get_scaling over an empty range returns a name never assigned

  /** The two foreign stages of the record codec. */
  datatype Codec = Codec(decompress: seq<byte> -> Option<seq<byte>>, unpack: seq<byte> -> Option<Value>)

  // ---------------------------------------------------------------------------
  // Reading bytes

  /** `f.seek(off); f.read(n)`: the bytes from `off` on, at most n of them, fewer when the file ends first. */
  function ReadAt(file: seq<byte>, off: nat, n: nat): (r: seq<byte>)
    ensures |r| == if off + n <= |file| then n else if off <= |file| then |file| - off else 0
    ensures forall k :: 0 <= k < |r| ==> off + k < |file| && r[k] == file[off + k]
  {
    var lo := if off < |file| then off else |file|;
    var hi := if off + n < |file| then off + n else |file|;
    file[lo..hi]
  }

  /** One record: lzma-decompress, then msgpack-unpack; the first stage that fails names the error. */
  function DecodeRecord(codec: Codec, raw: seq<byte>): (r: Result<Value, Error>)
    ensures r.Ok? <==> codec.decompress(raw).Some? && codec.unpack(codec.decompress(raw).value).Some?
    ensures r.Ok? ==> codec.unpack(codec.decompress(raw).value) == Some(r.value)
    ensures r.Err? ==> r.error == (if codec.decompress(raw).None? then LzmaError else UnpackError)
  {
    match codec.decompress(raw)
    case None => Err(LzmaError)
    case Some(plain) =>
      match codec.unpack(plain)
      case None => Err(UnpackError)
      case Some(v) => Ok(v)
  }

  /** The decoded record stored at offset `off` with size `size`. */
  function Blob(codec: Codec, file: seq<byte>, off: nat, size: nat): (r: Result<Value, Error>)
    ensures off + size <= |file| ==> r == DecodeRecord(codec, file[off..off + size])
  {
    DecodeRecord(codec, ReadAt(file, off, size))
  }

  // ---------------------------------------------------------------------------
  // The offset table and the derived sizes

  /** numpy's `diff`: the differences of neighbouring entries. */
  function Diff(s: seq<int>): (d: seq<int>)
    ensures |d| == if |s| == 0 then 0 else |s| - 1
    ensures forall i :: 0 <= i < |d| ==> d[i] == s[i + 1] - s[i]
  {
    if |s| < 2 then [] else [s[1] - s[0]] + Diff(s[1..])
  }

  /** numpy's `.astype(np.uint64)` on integers: reduction modulo 2^64. */
  function AsUint64(s: seq<int>): (r: seq<nat>)
    ensures |r| == |s|
    ensures forall i :: 0 <= i < |s| ==> r[i] < U64 && (r[i] - s[i]) % U64 == 0
    ensures forall i :: 0 <= i < |s| && 0 <= s[i] < U64 ==> r[i] == s[i]
  {
    seq(|s|, i requires 0 <= i < |s| => s[i] % U64)
  }

  /** `np.diff(np.append(index, filesize)).astype(np.uint64)`, the size of every record. */
  function BlobSizes(index: seq<nat>, fileSize: nat): (sizes: seq<nat>)
    ensures |sizes| == |index|
    ensures forall i :: 0 <= i < |index| ==> sizes[i] < U64
    ensures forall i :: 0 <= i < |index| - 1 ==> sizes[i] == (index[i + 1] - index[i]) % U64
    ensures |index| > 0 ==> sizes[|index| - 1] == (fileSize - index[|index| - 1]) % U64
  {
    BoundaryGaps(index, fileSize);
    AsUint64(Diff(index + [fileSize]))
  }

  /** The gaps between consecutive offsets, the last one measured to the end of the file. */
  lemma BoundaryGaps(index: seq<nat>, fileSize: nat)
    ensures var d := Diff(index + [fileSize]);
            && |d| == |index|
            && (forall i :: 0 <= i < |index| - 1 ==> d[i] == index[i + 1] as int - index[i])
            && (|index| > 0 ==> d[|index| - 1] == fileSize as int - index[|index| - 1])
  {
    var bounds: seq<int> := index + [fileSize];
    var d := Diff(bounds);
    forall i | 0 <= i < |index| - 1 ensures d[i] == index[i + 1] as int - index[i] {
      assert bounds[i + 1] == index[i + 1] && bounds[i] == index[i];
    }
    if |index| > 0 {
      assert bounds[|index|] == fileSize;
    }
  }

  /** Offsets that really describe the file: strictly increasing, the last one inside the file, all uint64. */
  ghost predicate WellFormed(index: seq<nat>, fileSize: nat)
  {
    && fileSize < U64
    && (forall i :: 0 <= i < |index| - 1 ==> index[i] < index[i + 1])
    && (|index| > 0 ==> index[|index| - 1] < fileSize)
  }

  function Sum(s: seq<int>): int
  {
    if s == [] then 0 else s[0] + Sum(s[1..])
  }

  /**
   * For well-formed offsets every record is non-empty, each record ends where
   * the next one (or the file) begins, and the metadata blob together with the
   * records covers the file exactly: index[0] + sum(blobSize) == filesize.
   */
  lemma {:induction false} SizesTileFile(index: seq<nat>, fileSize: nat)
    requires WellFormed(index, fileSize) && |index| > 0
    ensures var sizes := BlobSizes(index, fileSize);
            && (forall i :: 0 <= i < |index| ==> sizes[i] > 0)
            && (forall i :: 0 <= i < |index| - 1 ==> index[i] + sizes[i] == index[i + 1])
            && index[|index| - 1] + sizes[|index| - 1] == fileSize
            && index[0] + Sum(sizes) == fileSize
  {
    var sizes := BlobSizes(index, fileSize);
    var n := |index|;
    forall i | 0 <= i < n ensures sizes[i] > 0 && index[i] + sizes[i] == (if i < n - 1 then index[i + 1] else fileSize) {
      if i < n - 1 {
        OffsetInsideFile(index, fileSize, i + 1);
        assert 0 < index[i + 1] - index[i] < U64;
      }
    }
    Telescope(index, fileSize, sizes, 0);
    assert sizes[0..] == sizes;
  }

  /** Every offset of a well-formed table lies inside the file. */
  lemma {:induction false} OffsetInsideFile(index: seq<nat>, fileSize: nat, i: nat)
    requires WellFormed(index, fileSize) && i < |index|
    ensures index[i] < fileSize
    decreases |index| - i
  {
    if i < |index| - 1 {
      OffsetInsideFile(index, fileSize, i + 1);
    }
  }

  /** Summing the gaps of a chain of boundaries, from boundary j on, gives its remaining extent. */
  lemma {:induction false} Telescope(index: seq<nat>, fileSize: nat, sizes: seq<nat>, j: nat)
    requires j < |index| && |sizes| == |index|
    requires forall i :: 0 <= i < |index| - 1 ==> index[i] + sizes[i] == index[i + 1]
    requires index[|index| - 1] + sizes[|index| - 1] == fileSize
    ensures index[j] + Sum(sizes[j..]) == fileSize
    decreases |index| - j
  {
    assert sizes[j..][1..] == sizes[j + 1..];
    assert Sum(sizes[j..]) == sizes[j] + Sum(sizes[j + 1..]);
    if j < |index| - 1 {
      assert index[j] + sizes[j] == index[j + 1];
      Telescope(index, fileSize, sizes, j + 1);
    } else {
      assert sizes[j + 1..] == [];
    }
  }

  /**
   * Re-reading the size of a grown (or shrunk) file changes only the size of
   * the final record; every earlier size stays as it was.
   */
  lemma ReloadChangesOnlyLastSize(index: seq<nat>, oldSize: nat, newSize: nat)
    requires |index| > 0
    ensures BlobSizes(index, oldSize)[..|index| - 1] == BlobSizes(index, newSize)[..|index| - 1]
    ensures BlobSizes(index, newSize)[|index| - 1] == (newSize - index[|index| - 1]) % U64
  {
    var a, b := BlobSizes(index, oldSize), BlobSizes(index, newSize);
    forall i | 0 <= i < |index| - 1 ensures a[i] == b[i] {
      assert a[i] == (index[i + 1] - index[i]) % U64 == b[i];
    }
  }

  // ---------------------------------------------------------------------------
  // The index file: a flat array of uint64 values in native byte order,
  // little-endian on the usual hosts, which is the order modelled here

  function Pow256(n: nat): (p: nat)
    ensures p >= 1
  {
    if n == 0 then 1 else 256 * Pow256(n - 1)
  }

  /** The value of bytes stored least significant first. */
  function LittleEndian(b: seq<byte>): (v: nat)
    ensures v < Pow256(|b|)
  {
    if b == [] then 0 else b[0] as nat + 256 * LittleEndian(b[1..])
  }

  /** The w bytes that store v least significant first (the writer's side of the index file). */
  function EncodeLittleEndian(v: nat, w: nat): (b: seq<byte>)
    ensures |b| == w
    ensures v < Pow256(w) ==> LittleEndian(b) == v
  {
    if w == 0 then [] else [(v % 256) as byte] + EncodeLittleEndian(v / 256, w - 1)
  }

  lemma Pow256Of8()
    ensures Pow256(8) == U64
  {
  }

  /**
   * `np.fromfile(file, dtype=np.uint64)`: one offset per full 8-byte group;
   * bytes after the last full group are ignored.
   */
  function ParseIndex(bytes: seq<byte>): (index: seq<nat>)
    ensures |index| == |bytes| / 8
    ensures forall i :: 0 <= i < |index| ==> index[i] < U64
  {
    seq(|bytes| / 8, i requires 0 <= i < |bytes| / 8 => LittleEndian(bytes[8 * i..8 * i + 8]))
  }

  /** The index file that stores the given offsets. */
  function EncodeIndex(index: seq<nat>): (bytes: seq<byte>)
    ensures |bytes| == 8 * |index|
  {
    EncodeFrom(index, 0)
  }

  /** The groups of the offsets from position k on, one after the other. */
  function EncodeFrom(index: seq<nat>, k: nat): (bytes: seq<byte>)
    requires k <= |index|
    ensures |bytes| == 8 * (|index| - k)
    decreases |index| - k
  {
    if k == |index| then [] else EncodeLittleEndian(index[k], 8) + EncodeFrom(index, k + 1)
  }

  /** Group i of the index file holds offset i. */
  lemma EncodeIndexEntry(index: seq<nat>, i: nat)
    requires i < |index|
    ensures EncodeIndex(index)[8 * i..8 * i + 8] == EncodeLittleEndian(index[i], 8)
  {
    EncodeFromEntry(index, 0, i);
  }

  lemma {:induction false} EncodeFromEntry(index: seq<nat>, k: nat, i: nat)
    requires k <= i < |index|
    ensures EncodeFrom(index, k)[8 * (i - k)..8 * (i - k) + 8] == EncodeLittleEndian(index[i], 8)
    decreases i - k
  {
    var head := EncodeLittleEndian(index[k], 8);
    if i == k {
      SliceOfPrefix(head, EncodeFrom(index, k + 1), 0, 8);
    } else {
      EncodeFromEntry(index, k + 1, i);
      SliceOfSuffix(head, EncodeFrom(index, k + 1), 8 * (i - k - 1), 8 * (i - k - 1) + 8);
    }
  }

  /** Reading back an index file yields the offsets written, whatever partial group trails it. */
  lemma ParseEncodedIndex(index: seq<nat>, trailing: seq<byte>)
    requires forall i :: 0 <= i < |index| ==> index[i] < U64
    requires |trailing| < 8
    ensures ParseIndex(EncodeIndex(index) + trailing) == index
  {
    var parsed := ParseIndex(EncodeIndex(index) + trailing);
    GroupsOfEight(|index|, |trailing|);
    ParseEncodedEntries(index, trailing);
    assert |parsed| == |index|;
  }

  lemma ParseEncodedEntries(index: seq<nat>, trailing: seq<byte>)
    requires forall i :: 0 <= i < |index| ==> index[i] < U64
    requires |trailing| < 8
    ensures forall i :: 0 <= i < |index| ==> ParseIndex(EncodeIndex(index) + trailing)[i] == index[i]
  {
    forall i | 0 <= i < |index| ensures ParseIndex(EncodeIndex(index) + trailing)[i] == index[i] {
      ParseEncodedEntry(index, trailing, i);
    }
  }

  /** 8 n + t bytes, with t < 8, hold exactly n full groups of eight. */
  lemma GroupsOfEight(n: nat, t: nat)
    requires t < 8
    ensures (8 * n + t) / 8 == n
  {
  }

  lemma ParseEncodedEntry(index: seq<nat>, trailing: seq<byte>, i: nat)
    requires i < |index| && index[i] < U64
    requires |trailing| < 8
    ensures ParseIndex(EncodeIndex(index) + trailing)[i] == index[i]
  {
    var encoded := EncodeIndex(index);
    ParseIndexAt(encoded + trailing, i);
    SliceOfPrefix(encoded, trailing, 8 * i, 8 * i + 8);
    EncodeIndexEntry(index, i);
    DecodeEncodeOffset(index[i]);
  }

  /** Offset i is read from bytes 8 i to 8 i + 8. */
  lemma ParseIndexAt(bytes: seq<byte>, i: nat)
    requires 8 * i + 8 <= |bytes|
    ensures i < |ParseIndex(bytes)|
    ensures ParseIndex(bytes)[i] == LittleEndian(bytes[8 * i..8 * i + 8])
  {
  }

  /** An offset below 2^64 survives being written as eight bytes and read back. */
  lemma DecodeEncodeOffset(v: nat)
    requires v < U64
    ensures LittleEndian(EncodeLittleEndian(v, 8)) == v
  {
    Pow256Of8();
  }

  lemma SliceOfPrefix<T>(a: seq<T>, t: seq<T>, lo: nat, hi: nat)
    requires lo <= hi <= |a|
    ensures (a + t)[lo..hi] == a[lo..hi]
  {
  }

  lemma SliceOfSuffix<T>(a: seq<T>, t: seq<T>, lo: nat, hi: nat)
    requires lo <= hi <= |t|
    ensures (a + t)[|a| + lo..|a| + hi] == t[lo..hi]
  {
  }

  // ---------------------------------------------------------------------------
  // Specifications of the accessors

  /** numpy point indexing: -N <= i < N, a negative position counting from the end. */
  function PointIndex(n: nat, i: int): (j: Option<nat>)
    ensures j.Some? <==> 0 <= i + n && i < n
    ensures j.Some? ==> j.value < n && (j.value - i) % n == 0
  {
    if i + n < 0 || i >= n then None else if i < 0 then Some(i + n) else Some(i)
  }

  /** `s[i]`: the record at position i, or the exception point access raises. */
  function Item(codec: Codec, file: seq<byte>, index: seq<nat>, sizes: seq<nat>, i: int): (r: Result<Value, Error>)
    requires |sizes| == |index|
    ensures r == Err(IndexError) <==> !(-|index| <= i < |index|)
  {
    match PointIndex(|index|, i)
    case None => Err(IndexError)
    case Some(j) => Blob(codec, file, index[j], sizes[j])
  }

  /** The decoded records for a run of (offset, size) pairs, in order. */
  function Records(codec: Codec, file: seq<byte>, pairs: seq<(nat, nat)>): (rs: seq<Result<Value, Error>>)
    ensures |rs| == |pairs|
    ensures forall k :: 0 <= k < |pairs| ==> rs[k] == Blob(codec, file, pairs[k].0, pairs[k].1)
  {
    seq(|pairs|, k requires 0 <= k < |pairs| => Blob(codec, file, pairs[k].0, pairs[k].1))
  }

  /**
   * Appending decoded records one after another: every value when all
   * succeed, otherwise the first error, which stops the list.
   */
  function Collect(rs: seq<Result<Value, Error>>): (r: Result<seq<Value>, Error>)
    ensures r.Ok? <==> forall k :: 0 <= k < |rs| ==> rs[k].Ok?
    ensures r.Ok? ==> |r.value| == |rs| && forall k :: 0 <= k < |rs| ==> rs[k] == Ok(r.value[k])
    ensures r.Err? ==> exists k :: 0 <= k < |rs| && rs[k] == Err(r.error) && forall j :: 0 <= j < k ==> rs[j].Ok?
  {
    if rs == [] then Ok([])
    else match rs[0]
      case Err(e) => Err(e)
      case Ok(v) =>
        match Collect(rs[1..])
        case Err(e) =>
          var k :| 0 <= k < |rs[1..]| && rs[1..][k] == Err(e) && forall j :: 0 <= j < k ==> rs[1..][j].Ok?;
          assert rs[k + 1] == Err(e);
          Err(e)
        case Ok(vs) => Ok([v] + vs)
  }

  /** Once the records before position k succeed, the error at k is what the whole list reports. */
  lemma {:induction false} CollectStopsAtFirstError(rs: seq<Result<Value, Error>>, k: nat)
    requires k < |rs| && rs[k].Err?
    requires forall j :: 0 <= j < k ==> rs[j].Ok?
    ensures Collect(rs) == Err(rs[k].error)
  {
    if k > 0 {
      CollectStopsAtFirstError(rs[1..], k - 1);
    }
  }

  /** `s[start:stop:step]`: the records the slice selects, decoded and appended in slice order. */
  function SliceRecords(codec: Codec, file: seq<byte>, index: seq<nat>, sizes: seq<nat>,
                        start: Option<int>, stop: Option<int>, step: Option<int>): (r: Result<seq<Value>, Error>)
    ensures |sizes| == |index| && r.Ok? ==>
              PySlice.Slice(index, start, stop, step).Some? &&
              |r.value| == |PySlice.Slice(index, start, stop, step).value|
  {
    match PySlice.Slice(index, start, stop, step)
    case None => Err(ValueError)
    case Some(offsets) =>
      Collect(Records(codec, file, PySlice.Zip(offsets, PySlice.Slice(sizes, start, stop, step).value)))
  }

  /** The prefix of a run of decoded records that a generator yields: it stops after the first error. */
  function UntilError(rs: seq<Result<Value, Error>>): (out: seq<Result<Value, Error>>)
    ensures |out| <= |rs| && out == rs[..|out|]
    ensures forall k :: 0 <= k < |out| - 1 ==> out[k].Ok?
    ensures |out| < |rs| ==> |out| > 0 && out[|out| - 1].Err?
  {
    if rs == [] then []
    else if rs[0].Err? then [rs[0]]
    else [rs[0]] + UntilError(rs[1..])
  }

  /** What `generator(start, step, stop)` yields from its first `next()` to its end. */
  function StreamOutput(codec: Codec, file: seq<byte>, index: seq<nat>, sizes: seq<nat>,
                        start: Option<int>, stop: Option<int>, step: Option<int>): (out: seq<Result<Value, Error>>)
    ensures forall k :: 0 <= k < |out| - 1 ==> out[k].Ok?
    ensures step != Some(0) ==> |out| <= |index|
  {
    match PySlice.Slice(index, start, stop, step)
    case None => [Err(ValueError)]
    case Some(offsets) =>
      UntilError(Records(codec, file, PySlice.Zip(offsets, PySlice.Slice(sizes, start, stop, step).value)))
  }

  /** The metadata blob: bytes [0, index[0]) unpacked by msgpack alone, with no lzma stage. */
  function MetadataBlob(codec: Codec, file: seq<byte>, index: seq<nat>): (r: Result<Value, Error>)
    ensures r.Ok? <==> index != [] && codec.unpack(ReadAt(file, 0, index[0])).Some?
    ensures r.Ok? ==> codec.unpack(ReadAt(file, 0, index[0])) == Some(r.value)
    ensures r.Err? ==> r.error == (if index == [] then IndexError else UnpackError)
  {
    if index == [] then Err(IndexError)
    else
      match codec.unpack(ReadAt(file, 0, index[0]))
      case None => Err(UnpackError)
      case Some(v) => Ok(v)
  }

  /** The largest of 0 and every record's maximum: what the `vmax` loop of get_scaling computes. */
  function Peak(vs: seq<Value>, recordMax: Value -> real): (p: real)
    ensures p >= 0.0
  {
    if vs == [] then 0.0
    else
      var q := Peak(vs[..|vs| - 1], recordMax);
      if recordMax(vs[|vs| - 1]) > q then recordMax(vs[|vs| - 1]) else q
  }

  /** The peak is never below 0, covers every record's maximum, and is one of them unless it is 0. */
  lemma {:induction false} PeakIsLargest(vs: seq<Value>, recordMax: Value -> real)
    ensures Peak(vs, recordMax) >= 0.0
    ensures forall k :: 0 <= k < |vs| ==> recordMax(vs[k]) <= Peak(vs, recordMax)
    ensures Peak(vs, recordMax) == 0.0 || exists k :: 0 <= k < |vs| && Peak(vs, recordMax) == recordMax(vs[k])
  {
    if vs != [] {
      var init := vs[..|vs| - 1];
      PeakIsLargest(init, recordMax);
      assert forall k :: 0 <= k < |init| ==> init[k] == vs[k];
      var q := Peak(init, recordMax);
      if q != 0.0 && Peak(vs, recordMax) == q {
        var k :| 0 <= k < |init| && q == recordMax(init[k]);
        assert Peak(vs, recordMax) == recordMax(vs[k]);
      }
    }
  }

  /** The maximum of the last record, None when there is none (`m` is never bound). */
  function LastMaximum(vs: seq<Value>, recordMax: Value -> real): (m: Option<real>)
    ensures m.None? <==> vs == []
    ensures m.Some? ==> m.value == recordMax(vs[|vs| - 1])
  {
    if vs == [] then None else Some(recordMax(vs[|vs| - 1]))
  }

  /** get_scaling as written: it returns `m`, the maximum of the LAST record only. */
  function ScalingAsWritten(records: Result<seq<Value>, Error>, recordMax: Value -> real): (r: Result<real, Error>)
    ensures records.Err? ==> r == Err(records.error)
    ensures records.Ok? ==> (r == Err(UnboundLocalError) <==> records.value == [])
    ensures records.Ok? && records.value != [] ==> r == Ok(recordMax(records.value[|records.value| - 1]))
  {
    match records
    case Err(e) => Err(e)
    case Ok(vs) =>
      match LastMaximum(vs, recordMax)
      case None => Err(UnboundLocalError)
      case Some(m) => Ok(m)
  }

  /** get_scaling as intended: the running maximum `vmax` over every record of the range. */
  function Scaling(records: Result<seq<Value>, Error>, recordMax: Value -> real): (r: Result<real, Error>)
    ensures records.Err? ==> r == Err(records.error)
    ensures records.Ok? ==> r.Ok? && r.value >= 0.0
    ensures records.Ok? ==> forall k :: 0 <= k < |records.value| ==> recordMax(records.value[k]) <= r.value
  {
    match records
    case Err(e) => Err(e)
    case Ok(vs) =>
      PeakIsLargest(vs, recordMax);
      Ok(Peak(vs, recordMax))
  }

  // ---------------------------------------------------------------------------
  // Properties of the accessors

  /** Point access reads exactly the bytes [index[i], index[i] + blobSize[i]): files that agree there give the same result. */
  lemma ItemReadsOnlyItsBlob(codec: Codec, f1: seq<byte>, f2: seq<byte>, index: seq<nat>, sizes: seq<nat>, i: int)
    requires |sizes| == |index| && -|index| <= i < |index|
    requires var j := PointIndex(|index|, i).value;
             index[j] + sizes[j] <= |f1| && index[j] + sizes[j] <= |f2| &&
             f1[index[j]..index[j] + sizes[j]] == f2[index[j]..index[j] + sizes[j]]
    ensures Item(codec, f1, index, sizes, i) == Item(codec, f2, index, sizes, i)
  {
    var j := PointIndex(|index|, i).value;
    assert ReadAt(f1, index[j], sizes[j]) == f1[index[j]..index[j] + sizes[j]];
    assert ReadAt(f2, index[j], sizes[j]) == f2[index[j]..index[j] + sizes[j]];
  }

  /**
   * Point access succeeds exactly when the position is inside the table and
   * both codec stages accept the record's bytes; a rejected record is never
   * replaced by some other value.
   */
  lemma ItemOkIffCodecAccepts(codec: Codec, file: seq<byte>, index: seq<nat>, sizes: seq<nat>, i: int)
    requires |sizes| == |index|
    ensures var r := Item(codec, file, index, sizes, i);
            var j := PointIndex(|index|, i);
            && (j.None? ==> r == Err(IndexError))
            && (j.Some? ==>
                  var raw := ReadAt(file, index[j.value], sizes[j.value]);
                  && (r.Ok? <==> codec.decompress(raw).Some? && codec.unpack(codec.decompress(raw).value).Some?)
                  && (r.Ok? ==> r.value == codec.unpack(codec.decompress(raw).value).value)
                  && (codec.decompress(raw).None? ==> r == Err(LzmaError)))
  {
  }

  /** `s[start:stop:step]` equals `[s[i] for i in <positions the slice selects>]`, element for element. */
  lemma SliceAgreesWithPointAccess(codec: Codec, file: seq<byte>, index: seq<nat>, sizes: seq<nat>,
                                   start: Option<int>, stop: Option<int>, step: Option<int>)
    requires |sizes| == |index| && step != Some(0)
    ensures var p := PySlice.Positions(|index|, start, stop, step).value;
            SliceRecords(codec, file, index, sizes, start, stop, step)
              == Collect(seq(|p|, k requires 0 <= k < |p| => Item(codec, file, index, sizes, p[k])))
  {
    var p := PySlice.Positions(|index|, start, stop, step).value;
    var offsets := PySlice.Slice(index, start, stop, step).value;
    var sliced := PySlice.Slice(sizes, start, stop, step).value;
    PySlice.SlicesStayPaired(index, sizes, start, stop, step);
    var pairs := PySlice.Zip(offsets, sliced);
    var lhs := Records(codec, file, pairs);
    var rhs := seq(|p|, k requires 0 <= k < |p| => Item(codec, file, index, sizes, p[k]));
    assert |pairs| == |p|;
    forall k | 0 <= k < |p| ensures lhs[k] == rhs[k] {
      assert pairs[k] == (index[p[k]], sizes[p[k]]);
    }
    assert lhs == rhs;
  }

  /** Out-of-range slice bounds clamp: the only slice that fails before reading is one with step zero. */
  lemma SliceNeverRaisesIndexError(codec: Codec, file: seq<byte>, index: seq<nat>, sizes: seq<nat>,
                                   start: Option<int>, stop: Option<int>, step: Option<int>)
    requires |sizes| == |index|
    ensures SliceRecords(codec, file, index, sizes, start, stop, step) != Err(IndexError)
    ensures SliceRecords(codec, file, index, sizes, start, stop, step).Err? &&
            SliceRecords(codec, file, index, sizes, start, stop, step).error == ValueError
            <==> step == Some(0)
  {
    if step != Some(0) {
      var offsets := PySlice.Slice(index, start, stop, step).value;
      var sliced := PySlice.Slice(sizes, start, stop, step).value;
      var rs := Records(codec, file, PySlice.Zip(offsets, sliced));
      var r := Collect(rs);
      if r.Err? {
        var k :| 0 <= k < |rs| && rs[k] == Err(r.error);
        assert rs[k] == Blob(codec, file, PySlice.Zip(offsets, sliced)[k].0, PySlice.Zip(offsets, sliced)[k].1);
      }
    }
  }

  /**
   * `generator()` and `get_scaling(gw)` default to start=0, step=1, stop=None
   * and then read every record; with step=-1 alone the start stays 0, so they
   * read record 0 and nothing else.
   */
  lemma DefaultGeneratorArguments(codec: Codec, file: seq<byte>, index: seq<nat>, sizes: seq<nat>)
    requires |sizes| == |index|
    ensures StreamOutput(codec, file, index, sizes, Some(0), None, Some(1))
         == UntilError(Records(codec, file, PySlice.Zip(index, sizes)))
    ensures |index| >= 1 ==>
              (StreamOutput(codec, file, index, sizes, Some(0), None, Some(-1))
               == UntilError(Records(codec, file, [(index[0], sizes[0])])))
  {
    PySlice.DefaultArgumentsSliceAll(index);
    PySlice.DefaultArgumentsSliceAll(sizes);
    if |index| >= 1 {
      PySlice.ZeroStartNegativeStep(index);
      PySlice.ZeroStartNegativeStep(sizes);
      assert PySlice.Zip([index[0]], [sizes[0]]) == [(index[0], sizes[0])];
    }
  }

  /** Collecting what a generator yields gives exactly the result of the corresponding slice access. */
  lemma {:induction false} CollectUntilError(rs: seq<Result<Value, Error>>)
    ensures Collect(UntilError(rs)) == Collect(rs)
  {
    if rs != [] && rs[0].Ok? {
      CollectUntilError(rs[1..]);
    }
  }

  /**
   * `generator(start, step, stop)` yields the records of `s[start:stop:step]`,
   * in the same order: when the slice succeeds, one `Ok` per record and
   * nothing else; otherwise it yields values up to the slice's error and stops.
   */
  lemma GeneratorMatchesSlice(codec: Codec, file: seq<byte>, index: seq<nat>, sizes: seq<nat>,
                              start: Option<int>, stop: Option<int>, step: Option<int>)
    requires |sizes| == |index|
    ensures Collect(StreamOutput(codec, file, index, sizes, start, stop, step))
         == SliceRecords(codec, file, index, sizes, start, stop, step)
    ensures var r := SliceRecords(codec, file, index, sizes, start, stop, step);
            var out := StreamOutput(codec, file, index, sizes, start, stop, step);
            r.Ok? ==> |out| == |r.value| && forall k :: 0 <= k < |out| ==> out[k] == Ok(r.value[k])
  {
    if step != Some(0) {
      var offsets := PySlice.Slice(index, start, stop, step).value;
      var rs := Records(codec, file, PySlice.Zip(offsets, PySlice.Slice(sizes, start, stop, step).value));
      CollectUntilError(rs);
      var out := UntilError(rs);
      if Collect(rs).Ok? && |out| < |rs| {
        assert false;
      }
    }
  }

  /** The metadata blob is decoded by msgpack alone: the decompressor plays no part. */
  lemma MetadataSkipsDecompression(c1: Codec, c2: Codec, file: seq<byte>, index: seq<nat>)
    requires c1.unpack == c2.unpack
    ensures MetadataBlob(c1, file, index) == MetadataBlob(c2, file, index)
  {
  }

  /**
   * The return of get_scaling differs from its running maximum: with record
   * maxima 3, 7, 2, 9, 4 it returns 4 where the maximum is 9, and over an
   * empty range it fails where the running maximum is 0.
   */
  lemma ScalingReturnsLastNotMax()
    ensures var vs := [Integer(3), Integer(7), Integer(2), Integer(9), Integer(4)];
            var recordMax := (v: Value) => if v.Integer? then v.i as real else 0.0;
            && ScalingAsWritten(Ok(vs), recordMax) == Ok(4.0)
            && Scaling(Ok(vs), recordMax) == Ok(9.0)
    ensures var recordMax := (v: Value) => 0.0;
            ScalingAsWritten(Ok([]), recordMax) == Err(UnboundLocalError) && Scaling(Ok([]), recordMax) == Ok(0.0)
  {
    var vs := [Integer(3), Integer(7), Integer(2), Integer(9), Integer(4)];
    var recordMax := (v: Value) => if v.Integer? then v.i as real else 0.0;
    assert vs[..1][..0] == [];
    assert Peak(vs[..1], recordMax) == 3.0;
    assert vs[..2][..1] == vs[..1];
    assert Peak(vs[..2], recordMax) == 7.0;
    assert vs[..3][..2] == vs[..2];
    assert Peak(vs[..3], recordMax) == 7.0;
    assert vs[..4][..3] == vs[..3];
    assert Peak(vs[..4], recordMax) == 9.0;
    assert Peak(vs, recordMax) == 9.0;
  }

  // ---------------------------------------------------------------------------
  // The reader object

  /** Where the constructor takes its offsets from: an index file's bytes, or offsets already in memory. */
  datatype IndexSource = IndexFile(bytes: seq<byte>) | Offsets(index: seq<nat>)

  class Streamer {
    /** The codec fixed for this data file. */
    const codec: Codec
    /** The contents of the data file. */
    const file: seq<byte>
    /** Start offset of every record. */
    var index: seq<nat>
    /** Size of every record, derived from `index` and the file size. */
    var blobSize: seq<nat>
    /** The cached metadata; `Nil` is Python's `None`, i.e. nothing cached. */
    var metadata: Value
    /** How many times get_metadata has opened the data file. */
    ghost var metadataReads: nat

    ghost predicate Valid()
      reads this
    {
      blobSize == BlobSizes(index, |file|)
    }

    /** `Streamer(source_fn, index_fn, index)`: offsets from memory when given, otherwise from the index file. */
    constructor (file: seq<byte>, codec: Codec, source: IndexSource)
      ensures Valid()
      ensures this.file == file && this.codec == codec
      ensures index == (match source case IndexFile(b) => ParseIndex(b) case Offsets(xs) => xs)
      ensures metadata == Nil && metadataReads == 0
    {
      this.file := file;
      this.codec := codec;
      var xs := match source case IndexFile(b) => ParseIndex(b) case Offsets(xs) => xs;
      index := xs;
      blobSize := BlobSizes(xs, |file|);
      metadata := Nil;
      metadataReads := 0;
    }

    /** `set_index`: replaces the offsets and re-derives every size from the current file size. */
    method SetIndex(newIndex: seq<nat>)
      modifies this`index, this`blobSize
      ensures Valid()
      ensures index == newIndex
    {
      index := newIndex;
      var bounds: seq<int> := newIndex + [|file|];
      blobSize := AsUint64(Diff(bounds));
    }

    /** `set_index_from_file`: the offsets stored in an index file. */
    method SetIndexFromFile(indexFile: seq<byte>)
      modifies this`index, this`blobSize
      ensures Valid()
      ensures index == ParseIndex(indexFile)
    {
      SetIndex(ParseIndex(indexFile));
    }

    /** `get_index`: the offset table, one entry per record size. */
    function GetIndex(): (r: seq<nat>)
      reads this
      requires Valid()
      ensures |r| == |blobSize|
    {
      index
    }

    /** `get_length`: the number of records; the metadata blob is not one of them. */
    function GetLength(): (n: nat)
      reads this
      requires Valid()
      ensures n == |blobSize|
    {
      |index|
    }

    /** `s[i]`: seek to index[i], read blob_size[i] bytes, decompress, unpack; the steps `Item` specifies. */
    method GetItem(i: int) returns (r: Result<Value, Error>)
      requires Valid()
      ensures r == Item(codec, file, index, blobSize, i)
    {
      if i < -|index| || i >= |index| {
        return Err(IndexError);
      }
      var j := if i < 0 then i + |index| else i;
      var buf := ReadAt(file, index[j], blobSize[j]);
      var plain := codec.decompress(buf);
      if plain.None? {
        return Err(LzmaError);
      }
      var v := codec.unpack(plain.value);
      if v.None? {
        return Err(UnpackError);
      }
      r := Ok(v.value);
    }

    /** `s[start:stop:step]`: the same slice of offsets and sizes, each record read and appended in turn; the steps `SliceRecords` specifies. */
    method GetSlice(start: Option<int>, stop: Option<int>, step: Option<int>) returns (r: Result<seq<Value>, Error>)
      requires Valid()
      ensures r == SliceRecords(codec, file, index, blobSize, start, stop, step)
    {
      var offsets := PySlice.Slice(index, start, stop, step);
      if offsets.None? {
        return Err(ValueError);
      }
      var sizes := PySlice.Slice(blobSize, start, stop, step).value;
      r := ReadRecords(PySlice.Zip(offsets.value, sizes));
    }

    /** The loop of `__getitem__` for slices: read and decode each (offset, size) pair, appending in order. */
    method ReadRecords(pairs: seq<(nat, nat)>) returns (r: Result<seq<Value>, Error>)
      ensures r == Collect(Records(codec, file, pairs))
    {
      ghost var rs := Records(codec, file, pairs);
      var data: seq<Value> := [];
      for k := 0 to |pairs|
        invariant |data| == k
        invariant forall j :: 0 <= j < k ==> rs[j] == Ok(data[j])
      {
        var (off, size) := pairs[k];
        var buf := ReadAt(file, off, size);
        var plain := codec.decompress(buf);
        if plain.None? {
          assert rs[k] == Err(LzmaError);
          CollectStopsAtFirstError(rs, k);
          return Err(LzmaError);
        }
        var v := codec.unpack(plain.value);
        if v.None? {
          assert rs[k] == Err(UnpackError);
          CollectStopsAtFirstError(rs, k);
          return Err(UnpackError);
        }
        assert rs[k] == Ok(v.value);
        data := data + [v.value];
      }
      assert Collect(rs).Ok?;
      assert Collect(rs).value == data;
      r := Ok(data);
    }

    /** `generator(start, step, stop)`: a stream that reads nothing until its first `next()`. */
    method Generator(start: Option<int>, step: Option<int>, stop: Option<int>) returns (g: RecordStream)
      requires Valid()
      ensures fresh(g) && g.Valid()
      ensures g.Pending() == StreamOutput(codec, file, index, blobSize, start, stop, step)
    {
      g := new RecordStream(codec, file, index, blobSize, start, step, stop);
    }

    /** `get_metadata`: on the first call reads and unpacks bytes [0, index[0]) and caches the value. */
    method GetMetadata() returns (r: Result<Value, Error>)
      requires Valid()
      modifies this`metadata, this`metadataReads
      ensures old(metadata) != Nil ==>
                r == Ok(old(metadata)) && metadata == old(metadata) && metadataReads == old(metadataReads)
      ensures old(metadata) == Nil ==>
                && r == MetadataBlob(codec, file, index)
                && metadata == (if r.Ok? then r.value else Nil)
                && metadataReads == old(metadataReads) + 1
    {
      if metadata == Nil {
        metadataReads := metadataReads + 1;
        if index == [] {
          return Err(IndexError);
        }
        var buf := ReadAt(file, 0, index[0]);
        var v := codec.unpack(buf);
        if v.None? {
          return Err(UnpackError);
        }
        metadata := v.value;
      }
      r := Ok(metadata);
    }

    /**
     * The loop of `get_scaling`: drains the generator, keeping `vmax`, the
     * running maximum (from 0), and `m`, the maximum of the record read last
     * (None while no record has been read). A failing read propagates.
     */
    method ScanMaxima(recordMax: Value -> real, start: Option<int>, step: Option<int>, stop: Option<int>)
      returns (r: Result<(real, Option<real>), Error>)
      requires Valid()
      ensures var recs := SliceRecords(codec, file, index, blobSize, start, stop, step);
              && (recs.Err? <==> r.Err?)
              && (recs.Err? ==> r.error == recs.error)
              && (recs.Ok? ==> r.value == (Peak(recs.value, recordMax), LastMaximum(recs.value, recordMax)))
    {
      GeneratorMatchesSlice(codec, file, index, blobSize, start, stop, step);
      var g := Generator(start, step, stop);
      r := Drain(g, recordMax, g.Pending());
    }

    /** The `for data in g` loop itself, over whatever the stream still yields. */
    method Drain(g: RecordStream, recordMax: Value -> real, ghost all: seq<Result<Value, Error>>)
      returns (r: Result<(real, Option<real>), Error>)
      requires g.Valid() && g.Pending() == all
      modifies g
      ensures g.Valid() && g.Pending() == []
      ensures Collect(all).Err? <==> r.Err?
      ensures Collect(all).Err? ==> r.error == Collect(all).error
      ensures Collect(all).Ok? ==>
                r.value == (Peak(Collect(all).value, recordMax), LastMaximum(Collect(all).value, recordMax))
    {
      var vmax := 0.0;
      var m: Option<real> := None;
      ghost var seen: seq<Value> := [];
      while true
        invariant g.Valid()
        invariant |seen| <= |all| && g.Pending() == all[|seen|..]
        invariant forall k :: 0 <= k < |all| - 1 ==> all[k].Ok?
        invariant forall j :: 0 <= j < |seen| ==> all[j] == Ok(seen[j])
        invariant vmax == Peak(seen, recordMax)
        invariant m == LastMaximum(seen, recordMax)
        decreases |all| - |seen|
      {
        var next := g.Next();
        if next.None? {
          CollectAllOk(all, seen);
          return Ok((vmax, m));
        }
        var record := next.value;
        SuffixStep(all, |seen|, record, g.Pending());
        if record.Err? {
          CollectStopsAtFirstError(all, |seen|);
          return Err(record.error);
        }
        var data := record.value;
        SeenStep(all, seen, data, recordMax);
        m := Some(recordMax(data));
        if m.value > vmax {
          vmax := m.value;
        }
        seen := seen + [data];
      }
    }

    /**
     * `get_scaling` as written: runs the `vmax` loop over the generator but
     * returns `m`, the last record's maximum (UnboundLocalError when the
     * range is empty).
     */
    method GetScalingAsWritten(recordMax: Value -> real, start: Option<int>, step: Option<int>, stop: Option<int>)
      returns (r: Result<real, Error>)
      requires Valid()
      ensures r == ScalingAsWritten(SliceRecords(codec, file, index, blobSize, start, stop, step), recordMax)
    {
      var scan := ScanMaxima(recordMax, start, step, stop);
      if scan.Err? {
        return Err(scan.error);
      }
      var (_, m) := scan.value;
      if m.None? {
        return Err(UnboundLocalError);
      }
      r := Ok(m.value);
    }

    /** `get_scaling` with its evident intent: returns `vmax`, the largest of 0 and every record's maximum. */
    method GetScaling(recordMax: Value -> real, start: Option<int>, step: Option<int>, stop: Option<int>)
      returns (r: Result<real, Error>)
      requires Valid()
      ensures r == Scaling(SliceRecords(codec, file, index, blobSize, start, stop, step), recordMax)
    {
      var scan := ScanMaxima(recordMax, start, step, stop);
      if scan.Err? {
        return Err(scan.error);
      }
      var (vmax, _) := scan.value;
      r := Ok(vmax);
    }
  }

  /** Reading the next item of a suffix: it is the entry at that position, and the suffix moves on by one. */
  lemma SuffixStep<T>(all: seq<T>, n: nat, x: T, rest: seq<T>)
    requires n <= |all| && all[n..] == [x] + rest
    ensures n < |all| && all[n] == x && all[n + 1..] == rest
  {
    assert all[n..][0] == x;
    assert all[n + 1..] == all[n..][1..];
  }

  /** One more successful read extends the records seen, their peak and their last maximum. */
  lemma SeenStep(all: seq<Result<Value, Error>>, seen: seq<Value>, data: Value, recordMax: Value -> real)
    requires |seen| < |all| && all[|seen|] == Ok(data)
    requires forall j :: 0 <= j < |seen| ==> all[j] == Ok(seen[j])
    ensures forall j :: 0 <= j < |seen| + 1 ==> all[j] == Ok((seen + [data])[j])
    ensures Peak(seen + [data], recordMax) ==
              if recordMax(data) > Peak(seen, recordMax) then recordMax(data) else Peak(seen, recordMax)
    ensures LastMaximum(seen + [data], recordMax) == Some(recordMax(data))
  {
    assert (seen + [data])[..|seen|] == seen;
  }

  /** A run of successful reads collects to exactly their values. */
  lemma CollectAllOk(rs: seq<Result<Value, Error>>, vs: seq<Value>)
    requires |vs| <= |rs| && rs[|vs|..] == []
    requires forall j :: 0 <= j < |vs| ==> rs[j] == Ok(vs[j])
    ensures Collect(rs) == Ok(vs)
  {
    assert |rs| == |vs|;
    var r := Collect(rs);
    assert r.Ok?;
    assert r.value == vs;
  }

  /**
   * The object `generator(...)` returns: the (offset, size) pairs of the
   * slice and the position of the next one. A zero step makes the first
   * `next()` raise ValueError; after an error, or after the last record, the
   * stream is exhausted.
   */
  class RecordStream {
    const codec: Codec
    const file: seq<byte>
    /** The slice had step zero: the first `next()` raises ValueError. */
    const badStep: bool
    const pairs: seq<(nat, nat)>
    var pos: nat
    var finished: bool

    ghost predicate Valid()
      reads this
    {
      pos <= |pairs|
    }

    /** What the remaining `next()` calls yield, in order. */
    ghost function Pending(): (p: seq<Result<Value, Error>>)
      reads this
      requires Valid()
      ensures forall k :: 0 <= k < |p| - 1 ==> p[k].Ok?
    {
      if finished then []
      else if badStep then [Err(ValueError)]
      else UntilError(Records(codec, file, pairs[pos..]))
    }

    /** The generator body up to its loop: the same slice of the offsets and of the sizes, zipped. */
    constructor (codec: Codec, file: seq<byte>, index: seq<nat>, sizes: seq<nat>,
                 start: Option<int>, step: Option<int>, stop: Option<int>)
      requires |sizes| == |index|
      ensures Valid()
      ensures Pending() == StreamOutput(codec, file, index, sizes, start, stop, step)
    {
      this.codec := codec;
      this.file := file;
      var offsets := PySlice.Slice(index, start, stop, step);
      if offsets.None? {
        badStep, pairs := true, [];
      } else {
        badStep := false;
        pairs := PySlice.Zip(offsets.value, PySlice.Slice(sizes, start, stop, step).value);
      }
      pos, finished := 0, false;
      new;
      assert pairs[0..] == pairs;
    }

    /** `next()`: the next pending record, or None (StopIteration) when nothing is pending. */
    method Next() returns (r: Option<Result<Value, Error>>)
      requires Valid()
      modifies this
      ensures Valid()
      ensures old(Pending()) == [] ==> r == None && Pending() == []
      ensures old(Pending()) != [] ==> r == Some(old(Pending())[0]) && Pending() == old(Pending())[1..]
    {
      if finished {
        return None;
      }
      if badStep {
        finished := true;
        return Some(Err(ValueError));
      }
      if pos == |pairs| {
        finished := true;
        return None;
      }
      var (off, size) := pairs[pos];
      var record := Blob(codec, file, off, size);
      RecordsStep(codec, file, pairs, pos);
      pos := pos + 1;
      if record.Err? {
        finished := true;
      }
      r := Some(record);
    }
  }

  /** What a generator still yields after reading the record at position pos. */
  lemma RecordsStep(codec: Codec, file: seq<byte>, pairs: seq<(nat, nat)>, pos: nat)
    requires pos < |pairs|
    ensures var rest := UntilError(Records(codec, file, pairs[pos..]));
            var record := Blob(codec, file, pairs[pos].0, pairs[pos].1);
            && rest != [] && rest[0] == record
            && rest[1..] == (if record.Err? then [] else UntilError(Records(codec, file, pairs[pos + 1..])))
  {
    var rs := Records(codec, file, pairs[pos..]);
    assert rs[0] == Blob(codec, file, pairs[pos].0, pairs[pos].1);
    assert rs[1..] == Records(codec, file, pairs[pos + 1..]);
  }
}
