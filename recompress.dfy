/**
 * The per-file pipeline: `optimise_file_contents`, `compress` and the
 * size decision of `compress_file` (src/main.rs, lines 45-78 and 103-144).
 * The gzip decoder (flate2) and the zopfli encoder are not modelled; they
 * are the two functions of a `Codec`, about which nothing is known unless
 * a lemma asks for `RoundTrips`.
 */
module Recompress {
  import opened Wrappers
  import opened RustInt

  type byte = x: int | 0 <= x < 256
  type Bytes = seq<byte>

  /**
   * The two library calls: `decode` stands for reading a `GzDecoder` to the
   * end, `encode` for `zopfli::compress` in gzip format with the given
   * (non-zero) iteration count. `None` is an `io::Error`.
   */
  datatype Codec = Codec(decode: Bytes -> Option<Bytes>, encode: (Bytes, u64) -> Option<Bytes>)

  /** The encoder's output always decodes back to its input. */
  ghost predicate RoundTrips(codec: Codec) {
    forall payload: Bytes, n: u64 :: codec.encode(payload, n).Some? ==>
      codec.decode(codec.encode(payload, n).value) == Some(payload)
  }

  /** Payloads longer than this get the cheaper effort. */
  const LARGE_PAYLOAD: nat := 20_000
  const LARGE_EFFORT: i32 := 100
  const SMALL_EFFORT: i32 := 500

  /**
   * The iteration policy: an override other than the sentinel -1 is used
   * as it is, whatever the payload; otherwise 100 for payloads over 20 000
   * bytes and 500 for the rest.
   */
  function EffectiveIterations(force: i32, payloadLength: nat): (n: i32)
    ensures force != -1 ==> n == force
    ensures force == -1 ==> (n == LARGE_EFFORT <==> payloadLength > LARGE_PAYLOAD)
    ensures force == -1 ==> (n == SMALL_EFFORT <==> payloadLength <= LARGE_PAYLOAD)
  {
    if force != -1 then force
    else if payloadLength > LARGE_PAYLOAD then LARGE_EFFORT
    else SMALL_EFFORT
  }

  /** The default effort never grows with the payload. */
  lemma DefaultEffortMonotone(shorter: nat, longer: nat)
    requires shorter <= longer
    ensures EffectiveIterations(-1, longer) <= EffectiveIterations(-1, shorter)
  {
  }

  /** What `compress` does: panic, fail, or produce a gzip stream. */
  datatype Encoding = ZeroIterations | EncodeFailed | Encoded(stream: Bytes)

  /**
   * `compress`: the count must be non-zero (`NonZeroU64::new(iter).unwrap()`
   * panics otherwise); then the encoder is called with exactly that count.
   */
  function Compress(codec: Codec, payload: Bytes, iterations: u64): (r: Encoding)
    ensures r.ZeroIterations? <==> iterations == 0
    ensures r.Encoded? <==> iterations != 0 && codec.encode(payload, iterations).Some?
    ensures r.Encoded? ==> codec.encode(payload, iterations) == Some(r.stream)
  {
    if iterations == 0 then ZeroIterations
    else match codec.encode(payload, iterations)
      case Some(stream) => Encoded(stream)
      case None => EncodeFailed
  }

  /** What `optimise_file_contents` does: propagate a decode error, panic, or yield bytes. */
  datatype Optimised = DecodeError | Panicked | Optimised(bytes: Bytes)

  /** The count the encoder receives: the policy's `i32` cast with `as u64`. */
  function EncoderIterations(force: i32, payload: Bytes): u64 {
    AsU64(EffectiveIterations(force, |payload|))
  }

  /**
   * `optimise_file_contents`: decode, choose the effort, re-encode, and fall
   * back to the input itself when the encoder fails.
   */
  function OptimiseFileContents(codec: Codec, input: Bytes, force: i32): (r: Optimised)
    ensures r.DecodeError? <==> codec.decode(input).None?
    ensures r.Panicked? <==> codec.decode(input).Some? && force == 0
    ensures r.Optimised? ==>
      var payload := codec.decode(input).value;
      var stream := codec.encode(payload, EncoderIterations(force, payload));
      (stream.None? ==> r.bytes == input) && (stream.Some? ==> r.bytes == stream.value)
  {
    match codec.decode(input)
    case None => DecodeError
    case Some(payload) =>
      match Compress(codec, payload, EncoderIterations(force, payload))
      case ZeroIterations => Panicked
      case EncodeFailed => Optimised(input)
      case Encoded(stream) => Optimised(stream)
  }

  /**
   * An override that is neither the sentinel nor zero is what the encoder
   * receives, for every payload: unchanged when positive, and wrapped to
   * 2^64 plus the value when negative.
   */
  lemma OverrideHonoured(codec: Codec, input: Bytes, force: i32)
    requires force != -1 && force != 0 && codec.decode(input).Some?
    ensures var payload := codec.decode(input).value;
      var n := EncoderIterations(force, payload);
      (force > 0 ==> n == force) && (force < 0 ==> n == U64_MODULUS + force) &&
      (codec.encode(payload, n).Some? ==> OptimiseFileContents(codec, input, force) == Optimised(codec.encode(payload, n).value))
  {
  }

  /** Without an override the encoder receives 100 or 500, by payload size. */
  lemma DefaultEffort(payload: Bytes)
    ensures EncoderIterations(-1, payload) == (if |payload| > LARGE_PAYLOAD then 100 else 500)
  {
  }

  /** The result of a successful optimisation always decodes to the same payload as the input. */
  lemma OptimisedKeepsPayload(codec: Codec, input: Bytes, force: i32)
    requires RoundTrips(codec)
    requires OptimiseFileContents(codec, input, force).Optimised?
    ensures codec.decode(OptimiseFileContents(codec, input, force).bytes) == codec.decode(input)
  {
    var payload := codec.decode(input).value;
    var n := EncoderIterations(force, payload);
    if codec.encode(payload, n).Some? {
      assert codec.decode(codec.encode(payload, n).value) == Some(payload);
    }
  }

  /** How `compress_file` ends for one file. */
  datatype FileReport =
    | ReadFailed                              // "Error reading from ..."
    | CompressFailed                          // "Error compressing ...": the decode error
    | Panic                                   // the unwrap of a zero iteration count
    | Compressed(saved: nat, written: Bytes)  // the file is overwritten with `written`
    | NotCompressed                           // "No space saved", nothing written

  /**
   * `compress_file` given what `read_file` returned: the new contents are
   * written only when strictly shorter than the original, and the saving is the
   * difference of the lengths.
   */
  function CompressFile(codec: Codec, contents: Option<Bytes>, force: i32): (r: FileReport)
    ensures r == ReadFailed <==> contents.None?
    ensures r == CompressFailed <==> contents.Some? && codec.decode(contents.value).None?
    ensures r == Panic <==> contents.Some? && codec.decode(contents.value).Some? && force == 0
    ensures r.Compressed? <==>
      contents.Some? && OptimiseFileContents(codec, contents.value, force).Optimised? &&
      |OptimiseFileContents(codec, contents.value, force).bytes| < |contents.value|
    ensures r.Compressed? ==>
      r.written == OptimiseFileContents(codec, contents.value, force).bytes &&
      r.saved >= 1 && |r.written| + r.saved == |contents.value|
  {
    match contents
    case None => ReadFailed
    case Some(original) =>
      match OptimiseFileContents(codec, original, force)
      case DecodeError => CompressFailed
      case Panicked => Panic
      case Optimised(optimised) =>
        if |optimised| < |original| then Compressed(|original| - |optimised|, optimised)
        else NotCompressed
  }

  /** The file's contents after `compress_file`: the written stream, or the original contents. */
  function ContentsAfter(original: Bytes, r: FileReport): Bytes {
    if r.Compressed? then r.written else original
  }

  /** A file is never made longer. */
  lemma NeverGrows(codec: Codec, original: Bytes, force: i32)
    ensures |ContentsAfter(original, CompressFile(codec, Some(original), force))| <= |original|
  {
  }

  /** An encoder failure leaves the input as the result, and so nothing is written. */
  lemma EncoderFailureWritesNothing(codec: Codec, original: Bytes, force: i32)
    requires force != 0 && codec.decode(original).Some?
    requires codec.encode(codec.decode(original).value, EncoderIterations(force, codec.decode(original).value)).None?
    ensures OptimiseFileContents(codec, original, force) == Optimised(original)
    ensures CompressFile(codec, Some(original), force) == NotCompressed
  {
  }

  /** Whatever happens, the file still decodes to the same payload. */
  lemma PayloadPreserved(codec: Codec, original: Bytes, force: i32)
    requires RoundTrips(codec)
    ensures codec.decode(ContentsAfter(original, CompressFile(codec, Some(original), force))) == codec.decode(original)
  {
    if CompressFile(codec, Some(original), force).Compressed? {
      OptimisedKeepsPayload(codec, original, force);
    }
  }

  /**
   * Running the pipeline a second time, with the same override, on what
   * the first run left never writes again.
   */
  lemma SecondRunWritesNothing(codec: Codec, original: Bytes, force: i32)
    requires RoundTrips(codec)
    ensures !CompressFile(codec, Some(ContentsAfter(original, CompressFile(codec, Some(original), force))), force).Compressed?
  {
    var first := CompressFile(codec, Some(original), force);
    if first.Compressed? {
      var payload := codec.decode(original).value;
      var n := EncoderIterations(force, payload);
      assert codec.encode(payload, n) == Some(first.written);
      assert codec.decode(first.written) == Some(payload);
      assert OptimiseFileContents(codec, first.written, force) == Optimised(first.written);
    }
  }
}
