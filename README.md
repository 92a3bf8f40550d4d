# stochasticsampling: the blob reader and its numerical helpers, in Dafny

This project models the parts of the `stochasticsampling` simulation that
write, read and index its output, and proves properties of them:

- **The indexed blob reader** (`tools/DataStreamer.py`, class `Streamer`).
  A data file holds a msgpack metadata blob in bytes `[0, index[0])`, then N
  lzma-compressed msgpack records. Record i lies in
  `[index[i], index[i] + blob_size[i])`. The offsets are read from a flat file
  of `uint64` values in the host's native byte order (little-endian on the
  usual hosts, which is the order the model reads). The model covers:
  - deriving the record sizes from the offsets and the file size;
  - point access and Python-slice access, with Python's slice rules;
  - the lazy generator;
  - the cached metadata accessor;
  - the running-maximum loop of `get_scaling`.

  The model is in `data_streamer.dfy` (module `DataStreamer`) and
  `py_slice.dfy` (module `PySlice`). lzma and msgpack are the two functions
  of a `Codec` value, and either may reject its input.
- **The sampled distribution** (`src/simulation/distribution.rs`, module
  `Distributions`). It covers:
  - `Distribution::new`;
  - histogram binning, which rebuilds the bins in place;
  - the periodic index operator and its `wrap`;
  - the central-difference gradient `spatgrad` with wrap-around neighbours.
- **FFT wavenumbers** (`src/simulation/integrators/fft_helper.rs`, module
  `FftHelper`): the FFTW frequency order `[0, 1, ..., -2, -1]` and the k mesh.
- **Particle coordinates** (`src/particle.rs`, module `Particles`):
  - the Euclidean `modulo` and `ang_pbc`;
  - the periodic wrapping of positions, orientations and particles, both as
    functions and as in-place updates on a `ParticleCell`;
  - the `[x, y, z, phi, theta]` serialisation layout.
- **Settings validation** (`src/bin/simulation/settings/si.rs`, module
  `Settings`): `check_settings`, and the version blanking in
  `read_parameter_file`.

`wrappers.dfy` holds the `Option` and `Result` types used throughout.

`f64` is modelled as `real` and `PI` as the constant `3.141592653589793`.
Integers are unbounded, except that numpy's `uint64` cast of the sizes is
written out as a reduction modulo 2^64.

Three behaviours of the reader's code that the model keeps:
- `np.fromfile` ignores a trailing partial group of an index file rather
  than rejecting it (`DataStreamer.ParseIndex`);
- point access accepts negative positions `-N <= i < 0`, counting from the
  end (`DataStreamer.PointIndex`);
- reloading the index (`set_index`, `set_index_from_file`) does not reset the
  metadata cache, so `get_metadata` keeps returning the value read before
  (`DataStreamer.Streamer.SetIndex` changes only the offsets and the sizes).

## Model

| member | source | states |
|---|---|---|
| PySlice.Range | tools/DataStreamer.py:49-50 | the integers of `range(lo, hi, step)` lie between lo and hi in step direction and start at lo |
| PySlice.RangeAt | tools/DataStreamer.py:49-50 | member k of `range(lo, hi, step)` is `lo + k*step`, and the member after the last lies at or past hi |
| PySlice.Adjust | tools/DataStreamer.py:49-50 | an in-range bound is kept and a negative one counts from the end; a bound past the end snaps to n (n - 1 for a negative step) and one before the start snaps to 0 (-1 for a negative step), so the result always lies in `[0, n]` (or `[-1, n-1]`) |
| PySlice.Positions | tools/DataStreamer.py:49-50 | a slice selects positions inside `[0, n)`, at most n of them, and fails exactly when the step is zero |
| PySlice.Slice | tools/DataStreamer.py:49-50 | `s[start:stop:step]` is element `s[p]` for each selected position p, in slice order; None exactly for step zero |
| PySlice.PositionsMonotone | tools/DataStreamer.py:49-50 | the selected positions strictly increase for a positive step and strictly decrease for a negative one |
| PySlice.Zip | tools/DataStreamer.py:49-50 | `zip` pairs entries position by position and stops at the shorter input |
| PySlice.SlicesStayPaired | tools/DataStreamer.py:49-50 | slicing offsets and sizes with the same bounds and zipping them equals slicing the zipped table: every offset stays with its own size |
| PySlice.FullSliceIsIdentity | tools/DataStreamer.py:49-50 | the slice with no bounds, `s[:]`, is the whole table |
| PySlice.WideBoundsSliceAll | tools/DataStreamer.py:49-50 | bounds beyond both ends select the whole table: `s[-k:k] == s[:]` once k is at least the length |
| PySlice.DefaultArgumentsSliceAll | tools/DataStreamer.py:64-68 | the explicit defaults `start=0, stop=None, step=1` select the whole table |
| PySlice.ZeroStartNegativeStep | tools/DataStreamer.py:64-68 | with the start left at 0, a negative step selects only the first entry: `s[0::-1] == [s[0]]` |
| PySlice.ReverseSliceReverses | tools/DataStreamer.py:49-50 | the slice `[::-1]` yields every entry, last first |
| DataStreamer.ReadAt | tools/DataStreamer.py:59-60 | `seek(off); read(n)` returns n bytes from off, fewer when the file ends first, each equal to the file byte at its place |
| DataStreamer.DecodeRecord | tools/DataStreamer.py:53-55 | a record decodes exactly when lzma accepts its bytes and msgpack accepts lzma's output, and the value is msgpack's; a failure is lzma's error when lzma rejects, msgpack's otherwise |
| DataStreamer.Blob | tools/DataStreamer.py:51-55 | the record at an offset and size that lie inside the file is the decoding of exactly the bytes `[off, off + size)` |
| DataStreamer.Diff | tools/DataStreamer.py:80-81 | `np.diff` has one entry fewer than its input, each the difference of neighbouring entries |
| DataStreamer.AsUint64 | tools/DataStreamer.py:82 | `.astype(np.uint64)` keeps the length, maps each entry into `[0, 2^64)` congruent to it, and keeps entries already in range |
| DataStreamer.BlobSizes | tools/DataStreamer.py:78-82 | one size per offset: `index[i+1] - index[i]` and, for the last, `filesize - index[N-1]`, each modulo 2^64 |
| DataStreamer.BoundaryGaps | tools/DataStreamer.py:80-81 | appending the file size to the offsets and differencing gives the gaps between consecutive offsets and the distance from the last offset to the end of the file |
| DataStreamer.SizesTileFile | tools/DataStreamer.py:78-82 | for strictly increasing offsets inside the file, every size is positive, each record ends where the next begins, and `index[0] + sum(blob_size) == filesize` |
| DataStreamer.OffsetInsideFile | tools/DataStreamer.py:78-82 | every offset of a strictly increasing table whose last entry is inside the file is itself inside the file |
| DataStreamer.Telescope | tools/DataStreamer.py:80-82 | summing the sizes of a chain of adjacent records from record j on gives the distance from `index[j]` to the end of the file |
| DataStreamer.ReloadChangesOnlyLastSize | tools/DataStreamer.py:80-81 | re-deriving the sizes after the file size changes alters only the last record's size |
| DataStreamer.EncodeLittleEndian | tools/DataStreamer.py:85 | the writer's side of one index entry: w bytes, and a value below 256^w written this way reads back as itself |
| DataStreamer.ParseIndex | tools/DataStreamer.py:85 | `np.fromfile(..., uint64)` yields one offset below 2^64 per full 8-byte group |
| DataStreamer.EncodeIndex | tools/DataStreamer.py:85 | the index file the reader expects: 8 bytes per offset (what each group holds is `EncodeIndexEntry`) |
| DataStreamer.EncodeIndexEntry | tools/DataStreamer.py:85 | group i of a written index file holds offset i |
| DataStreamer.ParseEncodedIndex | tools/DataStreamer.py:84-85 | reading back an index file gives exactly the offsets written, whatever partial group trails it |
| DataStreamer.PointIndex | tools/DataStreamer.py:59-60 | numpy point indexing accepts exactly `-N <= i < N` and selects the position congruent to i |
| DataStreamer.Item | tools/DataStreamer.py:58-62 | point access raises IndexError exactly when i lies outside `[-N, N)`; decoding never raises it |
| DataStreamer.Records | tools/DataStreamer.py:49-55 | one decode result per (offset, size) pair, each the record stored there |
| DataStreamer.Collect | tools/DataStreamer.py:47-57 | appending decoded records succeeds exactly when every record decodes, giving all values in order; otherwise it reports the first failing record's error |
| DataStreamer.SliceRecords | tools/DataStreamer.py:46-57 | a successful slice access returns one value per offset the slice selects |
| DataStreamer.CollectStopsAtFirstError | tools/DataStreamer.py:49-55 | once the records before position k decode, the error at k is what the list access raises |
| DataStreamer.UntilError | tools/DataStreamer.py:67-73 | a generator yields a prefix of the decoded records that ends at the first error and contains no earlier error |
| DataStreamer.StreamOutput | tools/DataStreamer.py:64-73 | everything the generator yields before its last item is a record, and it yields no more items than there are records |
| DataStreamer.PeakIsLargest | tools/DataStreamer.py:111-120 | `vmax` is at least 0 and at least every record's maximum, and is one of them unless it is 0 |
| DataStreamer.Peak | tools/DataStreamer.py:111-120 | the running `vmax`, which starts at 0 and is raised by each larger maximum, is never negative |
| DataStreamer.LastMaximum | tools/DataStreamer.py:115-117 | `m` is bound exactly when the loop ran, and then holds the last record's maximum |
| DataStreamer.ScalingAsWritten | tools/DataStreamer.py:110-122 | as written: a read error propagates, an empty range gives UnboundLocalError, and otherwise the result is the last record's maximum |
| DataStreamer.Scaling | tools/DataStreamer.py:110-122 | as intended: a read error propagates, and otherwise the result is at least 0 and at least every record's maximum |
| DataStreamer.ItemReadsOnlyItsBlob | tools/DataStreamer.py:59-62 | point access reads only the bytes `[index[i], index[i] + blob_size[i])`: files that agree there give the same result |
| DataStreamer.ItemOkIffCodecAccepts | tools/DataStreamer.py:58-62 | point access is IndexError outside the table; otherwise it succeeds exactly when both codec stages accept the record's bytes, returns their value, and reports lzma's rejection first |
| DataStreamer.SliceAgreesWithPointAccess | tools/DataStreamer.py:45-62 | `s[start:stop:step]` equals `[s[i] for i in the positions the slice selects]` |
| DataStreamer.SliceNeverRaisesIndexError | tools/DataStreamer.py:46-57 | slice access never raises IndexError (bounds clamp), and raises ValueError exactly for step zero |
| DataStreamer.CollectUntilError | tools/DataStreamer.py:64-73 | collecting what a generator yields gives the same result as collecting all the decoded records |
| DataStreamer.GeneratorMatchesSlice | tools/DataStreamer.py:64-73 | `generator(start, step, stop)` yields the records of `s[start:stop:step]` in the same order, one per record when the slice succeeds |
| DataStreamer.DefaultGeneratorArguments | tools/DataStreamer.py:64-68 | `generator()` with its defaults yields every record, up to the first failure; `generator(step=-1)` yields record 0 alone |
| DataStreamer.MetadataSkipsDecompression | tools/DataStreamer.py:87-93 | the metadata blob is decoded by msgpack alone: the decompressor plays no part |
| DataStreamer.MetadataBlob | tools/DataStreamer.py:87-93 | the metadata is Ok exactly when the table is non-empty and msgpack accepts bytes `[0, index[0])`, and then it is msgpack's value; otherwise IndexError for an empty table, UnpackError for rejected bytes |
| DataStreamer.ScalingReturnsLastNotMax | tools/DataStreamer.py:110-122 | with record maxima 3, 7, 2, 9, 4 `get_scaling` returns 4 while `vmax` is 9; over an empty range it fails while `vmax` is 0 |
| DataStreamer.Streamer.constructor | tools/DataStreamer.py:14-34 | the reader takes its offsets from memory when given, otherwise from the index file; no metadata is cached yet |
| DataStreamer.Streamer.SetIndex | tools/DataStreamer.py:78-82 | the offsets are replaced, and the sizes are re-derived from them and the current file size |
| DataStreamer.Streamer.SetIndexFromFile | tools/DataStreamer.py:84-85 | the offsets become those stored in the index file |
| DataStreamer.Streamer.GetIndex | tools/DataStreamer.py:75-76 | the offset table, one entry per record size |
| DataStreamer.Streamer.GetLength | tools/DataStreamer.py:124-125 | the number of records, which equals the number of sizes; the metadata blob is not counted |
| DataStreamer.Streamer.GetItem | tools/DataStreamer.py:58-62 | `s[i]` is the decoded record at numpy position i, or the error of the stage that failed |
| DataStreamer.Streamer.GetSlice | tools/DataStreamer.py:46-57 | `s[start:stop:step]` is the decoded records of the slice's (offset, size) pairs, in slice order |
| DataStreamer.Streamer.ReadRecords | tools/DataStreamer.py:49-57 | the slice loop appends each decoded record in turn and stops at the first failure with its error |
| DataStreamer.Streamer.Generator | tools/DataStreamer.py:64-73 | the generator reads nothing until its first `next()`, and then yields the records of the slice in order |
| DataStreamer.Streamer.GetMetadata | tools/DataStreamer.py:87-93 | the first call reads and unpacks bytes `[0, index[0])` and caches the value; a later call returns the cached value without reading |
| DataStreamer.Streamer.ScanMaxima | tools/DataStreamer.py:111-120 | the `get_scaling` loop ends with `vmax` equal to the largest of 0 and every record's maximum, and `m` equal to the last record's maximum; a failing read propagates |
| DataStreamer.Streamer.Drain | tools/DataStreamer.py:115-120 | the `for data in g` loop keeps `vmax` and `m` equal to the peak and last maximum of the records read so far, and leaves the generator with nothing pending |
| DataStreamer.Streamer.GetScalingAsWritten | tools/DataStreamer.py:110-122 | `get_scaling` returns `m`, the last record's maximum, and raises UnboundLocalError over an empty range |
| DataStreamer.Streamer.GetScaling | tools/DataStreamer.py:110-122 | `get_scaling` as intended returns `vmax`, the largest of 0 and every record's maximum |
| DataStreamer.RecordStream.constructor | tools/DataStreamer.py:64-68 | the generator object pairs the sliced offsets with the sliced sizes, and everything is still pending |
| DataStreamer.RecordStream.Next | tools/DataStreamer.py:67-73 | `next()` yields the next pending record, or StopIteration when nothing is pending, and the stream moves on by one |
| DataStreamer.RecordsStep | tools/DataStreamer.py:67-73 | after a record is yielded, the generator still yields the rest of the records, unless that record was an error |
| Particles.Trunc | src/particle.rs:20-22 | truncation toward zero lies within 1 of x, on the side of 0 |
| Particles.TruncRemBounds | src/particle.rs:20-22 | the truncated remainder lies in `(-|m|, |m|)` and has the sign of f |
| Particles.RemNonNegative | src/particle.rs:20-22 | for f >= 0 and m > 0 the truncated remainder lies in `[0, m)` |
| Particles.TruncOdd | src/particle.rs:20-22 | truncation commutes with negation |
| Particles.RemOfAbs | src/particle.rs:20-22 | the truncated remainder does not depend on the divisor's sign |
| Particles.RemOfNegated | src/particle.rs:20-22 | negating the dividend negates the truncated remainder |
| Particles.Modulo | src/particle.rs:20-22 | `modulo(f, m)` lies in `[0, |m|)` |
| Particles.ModuloIsEuclidean | src/particle.rs:20-22 | `modulo(f, m)` lies in `[0, |m|)` and differs from f by a whole multiple of m |
| Particles.EuclideanUnique | src/particle.rs:20-22 | two values in `[0, |m|)` that differ by a whole multiple of m are equal, so `modulo` is the Euclidean remainder |
| Particles.ModuloOfInRange | src/particle.rs:20-22 | a value already in `[0, |m|)` is left unchanged by `modulo` |
| Particles.ModuloIdempotent | src/particle.rs:20-22 | wrapping twice is wrapping once |
| Particles.AngPbc | src/particle.rs:24-31 | `ang_pbc` returns phi in `[0, 2π)` and theta in `[0, π]` |
| Particles.AngPbcInRange | src/particle.rs:24-31 | `ang_pbc` returns phi in `[0, 2π)` and theta in `[0, π]`; it reflects theta and turns phi by π exactly when the reduced theta exceeds π |
| Particles.AngPbcOfInRange | src/particle.rs:24-31 | angles already in range are returned unchanged |
| Particles.AngPbcIdempotent | src/particle.rs:24-31 | wrapping the angles twice is wrapping them once |
| Particles.PositionNew | src/particle.rs:43-49 | `Position::new` lies inside the box |
| Particles.PositionPbc | src/particle.rs:59-63 | `Position::pbc` lies inside the box |
| Particles.PositionPbcWraps | src/particle.rs:59-63 | `Position::pbc` puts every coordinate inside its edge of the box, and keeps a position already inside |
| Particles.PositionNewIsPbc | src/particle.rs:43-49 | `Position::new` is `pbc` of the raw position, and `pbc` of it changes nothing |
| Particles.OrientationNew | src/particle.rs:85-91 | `Orientation::new` has its angles in range |
| Particles.OrientationPbc | src/particle.rs:110-114 | `Orientation::pbc` has its angles in range |
| Particles.OrientationPbcWraps | src/particle.rs:85-91 | `Orientation::pbc` puts the angles in range, is idempotent, and agrees with `Orientation::new` |
| Particles.ParticlePbc | src/particle.rs:198-201 | `Particle::pbc` leaves the particle inside the box with its angles in range |
| Particles.ParticleNew | src/particle.rs:172-180 | `Particle::new` is inside the box with its angles in range |
| Particles.FromPositionOrientation | src/particle.rs:184-196 | `from_position_orientation` is inside the box with its angles in range, whatever parts it was given |
| Particles.ParticlePbcWraps | src/particle.rs:198-201 | `Particle::pbc` leaves the particle inside the box with its angles in range, and a wrapped particle is a fixed point |
| Particles.ParticlePbcIdempotent | src/particle.rs:198-201 | applying `Particle::pbc` twice is applying it once |
| Particles.ParticleNewIsWrapped | src/particle.rs:172-196 | `Particle::new` equals `from_position_orientation` on the raw coordinates, and its result is wrapped |
| Particles.ParticleCell.New | src/particle.rs:172-180 | building a particle wraps its parts and ends with `pbc`; the result is wrapped |
| Particles.ParticleCell.FromParts | src/particle.rs:184-196 | the given parts followed by `pbc`; the result is wrapped |
| Particles.ParticleCell.PositionPbcInPlace | src/particle.rs:59-63 | the position is replaced by its wrapped value and the orientation is untouched |
| Particles.ParticleCell.OrientationPbcInPlace | src/particle.rs:110-114 | the orientation is replaced by its wrapped value and the position is untouched |
| Particles.ParticleCell.Pbc | src/particle.rs:198-201 | position wrapping then angle wrapping, in place; the particle ends wrapped |
| Particles.Serialize | src/particle.rs:407-420 | a particle is written as five numbers |
| Particles.Deserialize | src/particle.rs:424-438 | a particle is read from an array exactly when the array has five entries |
| Particles.DeserializeSerialize | src/particle.rs:407-438 | reading back a serialised particle gives the same particle |
| Particles.SerializeDeserialize | src/particle.rs:407-438 | every array that deserialises is the serialisation of its particle, so the order `[x, y, z, phi, theta]` matches on both sides |
| Particles.DeserializeKeepsRawValues | src/particle.rs:429-436 | deserialising does not wrap: a stored x of -1 in a unit box stays -1 where `pbc` would give 0 |
| Distributions.RustRem | src/simulation/distribution.rs:137-139 | Rust's `%` gives the Euclidean remainder for a non-negative dividend and its negation's negative for a negative one |
| Distributions.Wrap | src/simulation/distribution.rs:137-139 | `wrap(i, b)` lies in `[0, b)` and is the Euclidean remainder of i |
| Distributions.WrapIsEuclidean | src/simulation/distribution.rs:137-139 | `((i % b) + b) % b` with Rust's truncating `%` equals the Euclidean remainder of i |
| Distributions.ModUnique | src/simulation/distribution.rs:137-139 | `i = b*k + r` with `0 <= r < b` fixes the quotient and remainder of i |
| Distributions.WrapPeriodic | src/simulation/distribution.rs:135-147 | shifting an index by one period does not change its wrapped value |
| Distributions.WrapOfInRange | src/simulation/distribution.rs:137-139 | an index already in `[0, b)` wraps to itself |
| Distributions.NeighbourIndices | src/simulation/distribution.rs:116-122 | the neighbour indices `(i + s - 1) % s` and `(i + 1) % s` of `spatgrad` are the wrapped i - 1 and i + 1 |
| Distributions.WrapExamples | src/simulation/distribution.rs:300-307 | the wrapped indices of the index test: -1, -9 and 21 on 2 give 1; -3 on 3 gives 0; 3 and 4 on 2 give 1 and 0 |
| Distributions.Hits | src/simulation/distribution.rs:76-79 | a cell is hit by no more particles than there are |
| Distributions.HitsSnoc | src/simulation/distribution.rs:76-79 | one more particle adds exactly one to its own cell and nothing to any other |
| Distributions.HistogramTotal | src/simulation/distribution.rs:69-80 | when every particle falls inside the grid, the bins sum to the number of particles |
| Distributions.Distribution.constructor | src/simulation/distribution.rs:39-50 | `new` gives all-zero bins whose shape is the grid size, with cell widths box / grid and 2π / angle cells |
| Distributions.Distribution.At | src/simulation/distribution.rs:132-148 | the index operator reads the bin at the Euclidean remainders of the three indices |
| Distributions.Distribution.AtPeriodic | src/simulation/distribution.rs:132-148 | the index operator is periodic along every axis |
| Distributions.Distribution.AtInRange | src/simulation/distribution.rs:132-148 | inside the grid the index operator reads the bin itself |
| Distributions.Distribution.HistogramFrom | src/simulation/distribution.rs:69-80 | afterwards each bin holds the number of particles that `coord_to_grid` maps to it, whatever the bins held before |
| Distributions.Distribution.Spatgrad | src/simulation/distribution.rs:102-128 | a fresh array of shape `(2, sx, sy, sa)` whose components are the central differences along x and y over the wrapped neighbours |
| Distributions.Distribution.GradientPlane | src/simulation/distribution.rs:110-125 | the cells with first index ix get their central differences, and no other cell changes |
| Distributions.Distribution.GradientLine | src/simulation/distribution.rs:110-125 | the cells (ix, iy, a) get their central differences for every a, and no other cell changes |
| Distributions.Distribution.CentralDifference | src/simulation/distribution.rs:113-124 | each gradient component times twice the cell width on its axis is the difference of the two neighbours `(i + 1) % s` and `(i + s - 1) % s` along that axis |
| Distributions.Distribution.CentralDifferenceWraps | src/simulation/distribution.rs:113-124 | each gradient component is `(d[i+1] - d[i-1]) / (2w)` read through the periodic index operator |
| Distributions.Distribution.UniformGradientIsZero | src/simulation/distribution.rs:285-289 | the gradient of a constant field is zero in both components, everywhere |
| FftHelper.FreqIndexIsCentredResidue | src/simulation/integrators/fft_helper.rs:25-38 | the frequency at index i lies in `[-(n/2), n - n/2)` and is congruent to i modulo n |
| FftHelper.FreqIndexUnique | src/simulation/integrators/fft_helper.rs:25-38 | no other integer in that range is congruent to i, so the order is the FFTW standard order |
| FftHelper.ZeroModeFirst | src/simulation/integrators/fft_helper.rs:10 | the zero mode is at index 0 |
| FftHelper.NegativeFrequencies | src/simulation/integrators/fft_helper.rs:13-14 | index n - i holds frequency -i |
| FftHelper.NyquistIndices | src/simulation/integrators/fft_helper.rs:10-12 | for even n index n/2 holds -(n/2); for odd n index (n-1)/2 holds the largest positive and (n+1)/2 the largest negative frequency; no frequency exceeds (n-1)/2 |
| FftHelper.FreqIndex | src/simulation/integrators/fft_helper.rs:24-38 | the frequency at index i lies in `[-(n/2), n - n/2)`, and it is non-negative exactly for the first `n - n/2` indices |
| FftHelper.Wavenumber | src/simulation/integrators/fft_helper.rs:27-32 | `i * step` is zero for frequency 0 and, for a positive step, has the sign of the frequency |
| FftHelper.FreqIndexExamples | src/simulation/integrators/fft_helper.rs:16-18 | the orders for 6 and 7 points are `[0, 1, 2, -3, -2, -1]` and `[0, 1, 2, 3, -3, -2, -1]` |
| FftHelper.KSampling | src/simulation/integrators/fft_helper.rs:24-41 | a fresh array of n values whose entry i is the FFTW frequency of index i times `2π / box` |
| FftHelper.GetKSampling | src/simulation/integrators/fft_helper.rs:20-45 | the k arrays of the first two axes, with lengths `grid[0]` and `grid[1]` |
| FftHelper.GetKMesh | src/simulation/integrators/fft_helper.rs:52-65 | an array of shape `(g0, g1, 2)` whose entry (i, j) is `[k0[i], k1[j]]` |
| Settings.CheckSettings | src/bin/simulation/settings/si.rs:103-123 | the settings fail with an invalid box exactly when an edge is <= 0, fail on `particles_head` exactly when the box is valid and the head exceeds the particle count, and pass otherwise |
| Settings.CheckReadsOnlyBoxAndHead | src/bin/simulation/settings/si.rs:103-123 | the verdict depends only on the simulation settings, not on the version string |
| Settings.BlankVersion | src/bin/simulation/settings/si.rs:96 | the version becomes empty and the simulation settings stay as they were |
| Settings.ReadParameterFile | src/bin/simulation/settings/si.rs:89-101 | an unreadable or unparsable file is an error; otherwise the result is the parsed settings with the version blanked, returned exactly when `check_settings` accepts them, and `check_settings`' own error when it rejects them |
| Settings.AcceptedSettingsAreValid | src/bin/simulation/settings/si.rs:89-101 | every accepted settings value has an empty version, a positive box and a head that fits |
| Settings.ZeroEdgeIsRejected | src/bin/simulation/settings/si.rs:106-110 | a box with a zero edge is rejected as an invalid box before the head is looked at |

## Left out

- File handles, `seek`, `__del__`, and the file size from `os.path.getsize`: the data file is a byte sequence field of the reader, and the file size is its length.
- lzma and msgpack are the two functions of a `Codec` value. Each may reject its input. Their formats are not modelled.
- cbor, and the format detection of the `Streamer` constructor: it compares with `is`, so the type is always `None`, and the reader never uses it.
- `parse`: it takes no `self` and uses an undefined name. It is never called.
- Index rebuilding by scanning the data file: commented out in the constructor.
- numpy post-processing (`parameter_string`, `get_coordinates`, the concentration and polarisation helpers). Inside `get_scaling`, the per-record maximum `np.max(dist_to_concentration3d(data_to_dist(data), gw))` is the parameter `recordMax`.
- DataStreamer.BlobSizes: numpy computes `np.append(index, filesize)` with float64 promotion of a `uint64` array and a Python int. The model computes exactly in integers, then reduces modulo 2^64. Above 2^53 the two differ by float rounding. A negative difference (offsets that decrease) is a negative float64, and `.astype(np.uint64)` turns it into a platform-dependent value; reduction modulo 2^64 is only one of the possible outcomes.
- DataStreamer.ParseIndex: `np.fromfile` reads the index file in the host's native byte order. The model reads it little-endian, which is that order on the usual hosts; a big-endian host is not modelled.
- DataStreamer.Streamer.Generator, DataStreamer.Streamer.ScanMaxima, DataStreamer.Streamer.GetScalingAsWritten, DataStreamer.Streamer.GetScaling: Python's default arguments `start=0, step=1, stop=None` are not applied by these methods; a caller passes `Some(0)`, `Some(1)` and `None` for them. Because the default start is 0 rather than None, a call that sets only `step=-1` reads record 0 alone, not every record in reverse (`DefaultGeneratorArguments`).
- DataStreamer.Streamer.Generator: the slices of `index` and `blob_size` are taken when the generator object is created, not at its first `next()`. The two differ only if `set_index` runs between creating the generator and its first `next()`.
- DataStreamer.ReadAt, DataStreamer.Item, DataStreamer.ItemOkIffCodecAccepts: an offset or size of 2^63 or more (which the `uint64` sizes take when offsets decrease or the last offset lies past the end of the file) makes CPython's `seek` or `read` raise OverflowError. The model has no such error: it clamps the read to the end of the file and decodes what it finds, so for such tables a record the model decodes as Ok is an OverflowError in the program.
- DataStreamer.Streamer.constructor: a `Streamer` built with neither `index` nor `index_fn` calls `np.fromfile(None, ...)`, which fails. `IndexSource` has no case for it, so that failure is not modelled.
- DataStreamer.Streamer.GetIndex: states only that the table has one offset per size; the value itself is the field.
- DataStreamer.Streamer.constructor: requires nothing about the offsets. `SizesTileFile` is what needs them strictly increasing and inside the file, since otherwise the `uint64` cast wraps.
- `tools/viewer.py`, the solvers and integrators, the FFTW bindings, the command-line program, the output writers and `into_settings` are not part of this model.
- Random particle placement and the vector conversions of `src/particle.rs`: `place_*`, `create_*`, `pdf_*`, `from_vector` and `to_vector`.
- Floating point: `f64` rounding, NaN and infinities are not modelled. `real` is exact.
- Particles.Modulo: requires `m != 0`. `f64::mod_euc` with a zero divisor returns NaN, which `real` cannot represent.
- Particles.PositionNew, Particles.PositionPbc, Particles.ParticlePbc, Particles.ParticleNew, Particles.FromPositionOrientation, Particles.ParticleCell.New, Particles.ParticleCell.FromParts, Particles.ParticleCell.PositionPbcInPlace, Particles.ParticleCell.Pbc: require every box edge to be nonzero, for the same reason.
- Distributions.Distribution.constructor: requires a positive number of cells on every axis. With zero cells, `f64` division gives infinite widths and every later index operation panics.
- Distributions.Distribution.HistogramFrom: requires `coord_to_grid` to map each particle inside the grid. Rust panics on an out-of-range index. `coord_to_grid` itself (a floor of a quotient, cast to `usize`) is a parameter.
- `sample_from`: dividing the histogram by the cell volume is float scaling of the result of `histogram_from`.
- Distributions.Distribution.CentralDifference, Distributions.Distribution.GradientPlane, Distributions.Distribution.GradientLine: require nonzero cell widths, as `Spatgrad` does.
- Distributions.Distribution.Spatgrad: requires nonzero cell widths (f64 would give infinities). The single `indexed_iter` loop of the source is written as three nested loops in row-major order, through the helper methods `GradientPlane` and `GradientLine`. Each cell is written once, so the order does not matter.
- Distributions.Wrap: the `i32` arithmetic and the `usize as i32` casts of the shape are unbounded integers in the model. Shapes beyond `i32::MAX` and the overflow of `i % b + b` are not modelled.
- FftHelper.GetKSampling, FftHelper.GetKMesh: require nonzero box edges on the first two axes, for the same reason as `KSampling`.
- FftHelper.KSampling: the values are complex numbers with imaginary part 0, and only the real part is modelled. It requires a nonzero box edge, since `TWOPI / bs` with `bs == 0` is infinite in `f64`.
- FftHelper.GetKSampling: only the first two axes are sampled, as in the source; the third grid size is unused.
- Settings: only the fields that `check_settings` and `read_parameter_file` touch are modelled (box size, number of particles, `particles_head`, version). Reading the file and TOML parsing are parameters of `ReadParameterFile`.
- Distributions.Distribution.Shape: the shape accessor has no contract of its own. The constructor states the shape.

## Findings

| source | as written | input that shows it | evidently intended | confidence | as-written member | corrected member |
|---|---|---|---|---|---|---|
| tools/DataStreamer.py:122 | `get_scaling` returns `m`, the maximum of the last record read, and `m` is unbound when the range is empty | record maxima 3, 7, 2, 9, 4 give 4 (the running maximum is 9); an empty range raises UnboundLocalError | return `vmax`, the largest per-record maximum (0 for an empty range) | high, not executed | DataStreamer.Streamer.GetScalingAsWritten, with the counterexample DataStreamer.ScalingReturnsLastNotMax | DataStreamer.Streamer.GetScaling, with DataStreamer.PeakIsLargest |
