/**
 * `main` as a whole: interpret the arguments, then run `compress_file` on
 * each file in order (src/main.rs, lines 9-43). The file system is a map
 * from path to contents; a path that is not in it cannot be read.
 */
module Program {
  import opened Wrappers
  import opened RustInt
  import opened Cli
  import opened Recompress

  type Disk = map<string, Bytes>

  /** The exit status Rust gives a process that panics. */
  const PANIC_EXIT: int := 101

  function ReadFile(disk: Disk, path: string): Option<Bytes> {
    if path in disk then Some(disk[path]) else None
  }

  /** Where `compress_file` writes: only a compressed file is overwritten. */
  function Store(disk: Disk, path: string, r: FileReport): Disk {
    if r.Compressed? then disk[path := r.written] else disk
  }

  datatype Batch = Batch(disk: Disk, reports: seq<FileReport>)

  /**
   * The file loop: one report per file in order; a panic ends the process,
   * so its report is the last one.
   */
  function RunBatch(codec: Codec, disk: Disk, files: seq<string>, force: i32): Batch
    decreases |files|
  {
    if files == [] then Batch(disk, [])
    else
      var r := CompressFile(codec, ReadFile(disk, files[0]), force);
      if r.Panic? then Batch(disk, [r])
      else
        var rest := RunBatch(codec, Store(disk, files[0], r), files[1..], force);
        Batch(rest.disk, [r] + rest.reports)
  }

  /** The loop of lines 40-42, with the disk updated in place by each write. */
  method CompressFiles(codec: Codec, disk: Disk, files: seq<string>, force: i32) returns (result: Batch)
    ensures result == RunBatch(codec, disk, files, force)
  {
    var current := disk;
    var reports: seq<FileReport> := [];
    var i := 0;
    while i < |files|
      invariant 0 <= i <= |files|
      invariant RunBatch(codec, disk, files, force)
             == Batch(RunBatch(codec, current, files[i..], force).disk,
                      reports + RunBatch(codec, current, files[i..], force).reports)
    {
      var r := CompressFile(codec, ReadFile(current, files[i]), force);
      assert files[i..][1..] == files[i + 1..];
      if r.Panic? {
        return Batch(current, reports + [r]);
      }
      current := Store(current, files[i], r);
      reports := reports + [r];
      i := i + 1;
    }
    return Batch(current, reports);
  }

  /** A finished run: the exit status and the disk afterwards. */
  datatype Exit = Exit(code: int, disk: Disk)

  function BatchExitCode(b: Batch): int {
    if b.reports != [] && b.reports[|b.reports| - 1].Panic? then PANIC_EXIT else 0
  }

  /** The whole program, argument list and disk in, exit status and disk out. */
  function Run(codec: Codec, args: seq<string>, disk: Disk): Exit {
    match Interpret(args)
    case Request(files, iterations) =>
      var b := RunBatch(codec, disk, files, iterations);
      Exit(BatchExitCode(b), b.disk)
    case other => Exit(ExitCode(other).value, disk)
  }

  /** `main`, written as the source runs it: the argument loop, then the file loop. */
  method RunProgram(codec: Codec, args: seq<string>, disk: Disk) returns (exit: Exit)
    ensures exit == Run(codec, args, disk)
  {
    var outcome := InterpretArgs(args);
    if outcome.Request? {
      var b := CompressFiles(codec, disk, outcome.files, outcome.iterations);
      exit := Exit(BatchExitCode(b), b.disk);
    } else {
      exit := Exit(ExitCode(outcome).value, disk);
    }
  }

  // ----- Properties of a batch -----

  /**
   * Over a whole batch no file grows, no file appears or disappears, a file
   * not named is left alone, and a panic can only come from a zero override.
   */
  lemma {:induction false} BatchNeverGrows(codec: Codec, disk: Disk, files: seq<string>, force: i32)
    ensures RunBatch(codec, disk, files, force).disk.Keys == disk.Keys
    ensures forall p :: p in disk ==> |RunBatch(codec, disk, files, force).disk[p]| <= |disk[p]|
    ensures forall p :: p in disk && p !in files ==> RunBatch(codec, disk, files, force).disk[p] == disk[p]
    ensures |RunBatch(codec, disk, files, force).reports| <= |files|
    ensures force != 0 ==> |RunBatch(codec, disk, files, force).reports| == |files|
    decreases |files|
  {
    if files != [] {
      var r := CompressFile(codec, ReadFile(disk, files[0]), force);
      if !r.Panic? {
        BatchNeverGrows(codec, Store(disk, files[0], r), files[1..], force);
        forall p | p in disk && p !in files
          ensures p !in files[1..] && p != files[0]
        {
          assert files == [files[0]] + files[1..];
        }
      }
    }
  }

  /** With a round-tripping codec, every file still decodes to the payload it held before. */
  lemma {:induction false} BatchKeepsPayloads(codec: Codec, disk: Disk, files: seq<string>, force: i32)
    requires RoundTrips(codec)
    ensures forall p :: p in disk ==>
      (p in RunBatch(codec, disk, files, force).disk &&
       codec.decode(RunBatch(codec, disk, files, force).disk[p]) == codec.decode(disk[p]))
    decreases |files|
  {
    if files != [] {
      var r := CompressFile(codec, ReadFile(disk, files[0]), force);
      if !r.Panic? {
        var next := Store(disk, files[0], r);
        BatchKeepsPayloads(codec, next, files[1..], force);
        if r.Compressed? {
          PayloadPreserved(codec, disk[files[0]], force);
        }
      }
    }
  }

  /**
   * One file's failure does not affect another: when the paths are distinct
   * and the override is not zero, each file's report is what
   * `compress_file` gives for that file on the original disk.
   */
  lemma {:induction false} BatchIsolation(codec: Codec, disk: Disk, files: seq<string>, force: i32, k: nat)
    requires force != 0 && k < |files|
    requires forall i, j :: 0 <= i < j < |files| ==> files[i] != files[j]
    ensures k < |RunBatch(codec, disk, files, force).reports|
    ensures RunBatch(codec, disk, files, force).reports[k] == CompressFile(codec, ReadFile(disk, files[k]), force)
    decreases |files|
  {
    BatchNeverGrows(codec, disk, files, force);
    if k > 0 {
      var r := CompressFile(codec, ReadFile(disk, files[0]), force);
      var next := Store(disk, files[0], r);
      BatchIsolation(codec, next, files[1..], force, k - 1);
      assert files[1..][k - 1] == files[k];
      assert files[0] != files[k];
      assert ReadFile(next, files[k]) == ReadFile(disk, files[k]);
    }
  }

  /**
   * With a zero override the first file that reads and decodes panics, and
   * no later file is looked at.
   */
  lemma {:induction false} ZeroOverrideStopsAtFirstDecodable(codec: Codec, disk: Disk, files: seq<string>, k: nat)
    requires k < |files| && files[k] in disk && codec.decode(disk[files[k]]).Some?
    requires forall j :: 0 <= j < k ==> files[j] !in disk || codec.decode(disk[files[j]]).None?
    ensures RunBatch(codec, disk, files, 0).disk == disk
    ensures |RunBatch(codec, disk, files, 0).reports| == k + 1
    ensures RunBatch(codec, disk, files, 0).reports[k] == Panic
    decreases k
  {
    if k > 0 {
      assert files[0] !in disk || codec.decode(disk[files[0]]).None?;
      ZeroOverrideStopsAtFirstDecodable(codec, disk, files[1..], k - 1);
    }
  }

  // ----- Properties of the whole program -----

  /**
   * Exit codes: help gives 0, a bad option or an empty file list gives 1
   * and touches no file; a request gives 0, or 101 when it panicked.
   */
  lemma ExitCodes(codec: Codec, args: seq<string>, disk: Disk)
    ensures Run(codec, args, disk).code in {0, 1, PANIC_EXIT}
    ensures Run(codec, args, disk).code == 1 <==> Interpret(args).BadArgument? || Interpret(args) == Usage
    ensures !Interpret(args).Request? ==> Run(codec, args, disk).disk == disk
    ensures Run(codec, args, disk).code == PANIC_EXIT ==> Interpret(args).Request? && Interpret(args).iterations == 0
  {
    var o := Interpret(args);
    if o.Request? {
      var b := RunBatch(codec, disk, o.files, o.iterations);
      if o.iterations != 0 {
        BatchNeverGrows(codec, disk, o.files, o.iterations);
        NoPanicWithoutZero(codec, disk, o.files, o.iterations);
      }
    }
  }

  lemma {:induction false} NoPanicWithoutZero(codec: Codec, disk: Disk, files: seq<string>, force: i32)
    requires force != 0
    ensures forall i :: 0 <= i < |RunBatch(codec, disk, files, force).reports| ==> !RunBatch(codec, disk, files, force).reports[i].Panic?
    decreases |files|
  {
    if files != [] {
      var r := CompressFile(codec, ReadFile(disk, files[0]), force);
      NoPanicWithoutZero(codec, Store(disk, files[0], r), files[1..], force);
    }
  }

  /** No run of the program makes any file longer, or changes what any file decodes to. */
  lemma ProgramSafe(codec: Codec, args: seq<string>, disk: Disk)
    requires RoundTrips(codec)
    ensures Run(codec, args, disk).disk.Keys == disk.Keys
    ensures forall p :: p in disk ==> |Run(codec, args, disk).disk[p]| <= |disk[p]|
    ensures forall p :: p in disk ==> codec.decode(Run(codec, args, disk).disk[p]) == codec.decode(disk[p])
  {
    var o := Interpret(args);
    if o.Request? {
      BatchNeverGrows(codec, disk, o.files, o.iterations);
      BatchKeepsPayloads(codec, disk, o.files, o.iterations);
    }
  }
}
