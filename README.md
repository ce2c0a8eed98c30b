# nbt-compress, modelled in Dafny

nbt-compress shrinks gzip files (Minecraft NBT data and the like) in place.
It decodes each file with the gzip decoder of `flate2`, re-encodes the
payload with the zopfli encoder, and overwrites the file only when the new
stream is strictly shorter. This project models the logic the program owns
in `src/main.rs`. The codecs themselves are not modelled.

- `wrappers.dfy`: `Option` and `Result`.
- `rust_int.dfy` (module `RustInt`): `i32` and `u64` as bounded integers.
  Models Rust's `str::parse::<i32>` with its error kinds and the `as u64`
  cast.
- `cli.dfy` (module `Cli`): the argument loop of `main` and `parse_arg`.
  `Interpret` is the scan written as a function. `InterpretArgs` is the loop
  as the source writes it, proved equal to `Interpret`. A position-by-position
  reference description (`Stops`, `FileArgs`, `LastIterations`) is proved to
  agree with it.
- `recompress.dfy` (module `Recompress`): the iteration policy,
  `compress`, `optimise_file_contents` and the size decision of
  `compress_file`. The decoder and encoder are the two function fields of a
  `Codec` value. Properties that depend on the codec being correct take
  `RoundTrips(codec)` as a precondition.
- `program.dfy` (module `Program`): the file loop of `main` over a disk,
  modelled as a map from path to contents, and the whole program from
  arguments to exit status.

Behaviour of the code that the model keeps and proves:

- Options and help are recognised at index 0 too. Only the push onto the
  file list is guarded by `index > 0`.
- The value of an iterations option is the text glued to it. `-i 50` fails
  (empty text), `--iterations=50` fails (text `=50`), and `-i-1` means
  "not set".
- `-i0` is accepted by the parser. The first file that reads and decodes
  then panics at `NonZeroU64::new(0).unwrap()`: the process exits with 101
  and later files are not processed.
- A negative override other than -1 is cast with `as u64`. The encoder
  receives 2^64 plus that value, about 1.8·10^19 passes, so in practice the
  run never finishes the first file that decodes. The model's `encode` is
  total and does not show this.
- A decode failure is reported as an error for that file, with no write.

## Model

| member | source | states |
|---|---|---|
| RustInt.ParseI32 | src/main.rs:82 | parsing the glued text fails with `Empty` exactly when the text is empty |
| RustInt.AccumulateMeans | src/main.rs:82 | Rust's left-to-right checked digit loop succeeds iff every character is a digit and the positional value stays in `i32`, and then returns that value |
| RustInt.ParseI32Means | src/main.rs:82-84 | `parse::<i32>` succeeds iff the text is an optionally signed decimal numeral whose value fits in `i32`, and yields that value |
| RustInt.AsU64 | src/main.rs:117 | `iter as u64` is the unsigned value congruent to `iter` modulo 2^64, and is zero only for zero |
| Cli.ExitCode | src/main.rs:17-38 | help exits 0, a bad option and an empty file list exit 1, only a request goes on to the files |
| Cli.OptionValueText | src/main.rs:82-84 | the option value is what follows `-i` or `--iterations` in the same token |
| Cli.ParseArg | src/main.rs:80-88 | a non-option is refused; an option yields a value iff its glued text is an in-range numeral, and the value is that numeral's |
| Cli.InterpretArgs | src/main.rs:9-38 | the mutable argument loop returns exactly the outcome of the left-to-right scan |
| Cli.FirstStopDecides | src/main.rs:15-28 | the first help token or badly valued option decides the outcome (exit 0 or 1), whatever follows |
| Cli.CompletedScan | src/main.rs:15-38 | with no stopping token, the result is usage for an empty file list, else the file tokens after index 0 in order with the last parsed value |
| Cli.RequestIff | src/main.rs:15-38 | a request is made iff no token stops the scan and some file token follows the program name; it carries exactly those files and the last parsed value |
| Cli.ProgramNameIgnored | src/main.rs:29-32 | the token at index 0 never influences the file list |
| Cli.FileArgsFromArgs | src/main.rs:29-32 | every listed file is a non-option, non-help token at an index after 0 |
| Cli.UnsetWithoutOptions | src/main.rs:12 | without any option whose value parses, the iterations value stays at the sentinel -1 |
| Cli.LastOptionWins | src/main.rs:16-25 | the last option whose value parses overrides all earlier ones |
| Cli.SeparatedValueRefused | src/main.rs:16-20 | `-i 50` is an error: the following token is never consumed and the empty suffix fails |
| Cli.EqualsFormRefused | src/main.rs:21-25 | `--iterations=50` is an error: the suffix `=50` has an invalid digit |
| Cli.MinusOneMeansUnset | src/main.rs:16-20 | `-i-1` yields the sentinel, so it means "not set" |
| Cli.ZeroAccepted | src/main.rs:16-20 | `-i0` is accepted and the request carries 0 |
| Cli.NoFilesIsUsage | src/main.rs:35-38 | with only the program name the outcome is usage (exit 1) |
| Recompress.EffectiveIterations | src/main.rs:109-115 | an override other than -1 is used as given; without one the effort is 100 iff the payload is over 20 000 bytes and 500 iff it is not |
| Recompress.DefaultEffortMonotone | src/main.rs:109-115 | without an override, a longer payload never gets more iterations |
| Recompress.DefaultEffort | src/main.rs:109-117 | without an override, the encoder receives 100 or 500 by payload size |
| Recompress.Compress | src/main.rs:130-144 | `compress` panics iff the count is zero, and otherwise returns the encoder's stream for exactly that count, or the encoder's failure |
| Recompress.OptimiseFileContents | src/main.rs:103-118 | a decode failure is propagated; a decoded payload with a zero override panics; an encoder failure yields the input bytes, a success the encoder's stream |
| Recompress.OverrideHonoured | src/main.rs:109-117 | a non-zero override other than -1 reaches the encoder for every payload: as given when positive, as 2^64 plus it when negative |
| Recompress.OptimisedKeepsPayload | src/main.rs:117 | with a round-tripping codec, the optimised bytes decode to the input's payload |
| Recompress.CompressFile | src/main.rs:45-78 | read and decode failures and the panic are told apart; a write happens iff the optimised bytes are strictly shorter, and then saved = old - new >= 1 |
| Recompress.NeverGrows | src/main.rs:59-74 | the file after `compress_file` is never longer than before |
| Recompress.EncoderFailureWritesNothing | src/main.rs:117 | if the encoder fails, the result is exactly the input and nothing is written |
| Recompress.PayloadPreserved | src/main.rs:59-61 | with a round-tripping codec, the file decodes to the same payload after `compress_file` |
| Recompress.SecondRunWritesNothing | src/main.rs:59-74 | with a round-tripping codec, a second run with the same override never writes |
| Program.CompressFiles | src/main.rs:40-42 | the file loop produces exactly the batch result: one report per file in order, the disk updated by each write, stopped by a panic |
| Program.RunProgram | src/main.rs:9-43 | `main` gives exactly the modelled exit status and disk for any argument list |
| Program.BatchNeverGrows | src/main.rs:40-42 | over a batch no file grows, none appears or disappears, unnamed files are untouched, and every file gets a report unless the override is 0 |
| Program.BatchKeepsPayloads | src/main.rs:40-42 | with a round-tripping codec, every file decodes to the same payload after the batch |
| Program.BatchIsolation | src/main.rs:40-42 | for distinct paths and a non-zero override, each file's report depends only on that file's original contents |
| Program.ZeroOverrideStopsAtFirstDecodable | src/main.rs:132 | with `-i0`, the first file that reads and decodes panics, nothing is written and no later file is processed |
| Program.NoPanicWithoutZero | src/main.rs:132 | without a zero override no file panics |
| Program.ExitCodes | src/main.rs:17-42 | exit codes are 0, 1 or 101; 1 exactly for a bad option or no files, and then no file is touched; 101 only with a zero override |
| Program.ProgramSafe | src/main.rs:40-74 | with a round-tripping codec, no run makes a file longer, creates or removes a file, or changes any file's payload |

## Left out

- The gzip decoder (`decompress`, flate2's `GzDecoder`) and the zopfli encoder (`compress` after the count check): foreign library code. They are the opaque functions of `Codec`, and their errors are `None`. The deflate and gzip formats are not modelled.
- The decoder reads only the first gzip member and stops there, so the "payload" of `PayloadPreserved`, `BatchKeepsPayloads` and `ProgramSafe` is the first member's content. A write drops any later members or trailing bytes, and the model does not show that loss.
- Paths: each path string names its own file. The model has no links and no other spellings of the same path (`a.nbt` and `./a.nbt`). `BatchIsolation`, `BatchNeverGrows` ("unnamed files are untouched") and `ProgramSafe` rely on this.
- `std::env::args()` panics before any scanning when an argument is not valid Unicode. Arguments are Dafny strings, which cannot express that case.
- `read_file`: a read is a lookup in the disk map, and a missing path stands for any read error.
- `write_file`: a write always succeeds and replaces the whole contents. The "Error writing" path, and a file truncated by `File::create` before a failed `write_all`, are not modelled.
- Timing (`Instant::now`, `elapsed`): wall-clock only, with no effect on any decision.
- Message text on stdout and stderr: outcomes are the datatypes `Outcome` and `FileReport`, and exit statuses are numbers. Exit status 101 for a panic is the Rust runtime's convention.
- ExitCodes, NoPanicWithoutZero, BatchNeverGrows: printing is assumed to succeed. In the program a failed `println!` or `eprintln!` (stdout or stderr closed or full) panics, exits 101 and ends the batch. So "101 only with a zero override", "no file panics without a zero override" and "every file gets a report" hold only when every print succeeds.
- Cli.ParseArg: takes the token itself rather than `(arg, args, index)`. Every call passes `args[index]` as `arg`.
- Characters: Rust slices the token at byte offsets 2 and 12. The model slices at character positions, which agree because both prefixes are ASCII.
- A `-z`/fast-encoder switch, a space-separated option value, and a multi-file summary line do not exist in this code and are not modelled.
