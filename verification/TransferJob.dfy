/** File transfer jobs. A reading job cuts its files into blocks of at most 128 KiB, compresses a
    block when that makes it shorter, and closes each file with an empty block. A writing job
    stages the file it is receiving under the name with `.download` appended and renames it to its
    final name when the next file begins or the transfer is done.

    `ReadBlock`, `WriteBlock` and `Publish` are the three operations on values; class `TransferJob`
    performs them in place against a `FileSystem`. */
module Transfer {
  import opened Octets
  import opened Compression

  type Path = string

  type Disk = map<Path, Bytes>

  const BUF_SIZE: nat := 128 * 1024

  datatype FileEntry = FileEntry(name: string, size: nat)

  /** An open file: where it is found now (a rename carries the open file along) and the position in it. */
  datatype Handle = Handle(path: Path, pos: nat)

  datatype Job = Job(
    id: int, path: Path, files: seq<FileEntry>,
    fileNum: nat, file: Option<Handle>,
    totalSize: nat, finishedSize: nat, transfered: nat)

  datatype Block = Block(id: int, fileNum: int, data: Bytes, compressed: bool)

  datatype Fault = OpenFailed | ReadFailed

  datatype ReadResult = Cut(block: Block) | Exhausted | Failed(fault: Fault)

  /** What can go wrong in a `write`: flushing the previous file, creating the next staging file, or
      writing, which then adds only some of the bytes. */
  datatype WriteFault = SyncFailed | NotCreated | ShortWrite(written: nat)

  datatype WriteResult = Written | WrongId | WrongFileNumber | Broke(fault: WriteFault)

  // ---------------------------------------------------------------------------------------
  // Names

  /** `Path::join` on Unix: an absolute name replaces the base. */
  function JoinPath(base: Path, name: string): Path
    requires name != ""
  {
    if name[0] == '/' || base == "" then name
    else if base[|base| - 1] == '/' then base + name
    else base + "/" + name
  }

  /** The job's own `join`: a single-file job has one entry without a name. */
  function Join(base: Path, name: string): Path {
    if name == "" then base else JoinPath(base, name)
  }

  function FinalPath(j: Job, i: nat): Path
    requires i < |j.files|
  {
    Join(j.path, j.files[i].name)
  }

  /** An absolute name leaves the base; a relative one is put behind it with exactly one slash between them. */
  lemma JoinPathIs(base: Path, name: string)
    requires name != "" && base != ""
    ensures name[0] == '/' ==> JoinPath(base, name) == name
    ensures name[0] != '/' && base[|base| - 1] != '/' ==>
              JoinPath(base, name) == JoinPath(base + "/", name) == base + "/" + name
  {
    assert name[0] != '/' && base[|base| - 1] != '/' ==> (base + "/") + name == base + "/" + name;
  }

  function Staged(path: Path): Path {
    path + ".download"
  }

  lemma StagedInjective(a: Path, b: Path)
    ensures Staged(a) == Staged(b) ==> a == b
    ensures Staged(a) != a
  {
    assert |Staged(a)| > |a|;
    assert Staged(a)[..|a|] == a;
    assert Staged(b)[..|b|] == b;
  }

  /** The text behind the last dot; nothing without a dot. */
  function GetExt(name: string): string {
    var i := LastDot(name, |name|);
    if i == |name| then "" else name[i + 1..]
  }

  /** The last dot before `n`, or the end of the name. */
  function LastDot(name: string, n: nat): (i: nat)
    requires n <= |name|
    ensures i == |name| || (i < n && name[i] == '.')
    ensures forall k | 0 <= k < n :: name[k] == '.' ==> i < |name| && k <= i
  {
    if n == 0 then |name| else if name[n - 1] == '.' then n - 1 else LastDot(name, n - 1)
  }

  /** The extension is the text behind the last dot, and empty exactly if there is no dot or it ends the name. */
  lemma GetExtIs(stem: string, ext: string)
    requires '.' !in ext
    ensures GetExt(stem + "." + ext) == ext
    ensures '.' !in stem ==> GetExt(stem) == ""
  {
    var name := stem + "." + ext;
    assert name[|stem|] == '.';
    var i := LastDot(name, |name|);
    assert i == |stem| by {
      assert forall k | |stem| < k < |name| :: name[k] == ext[k - |stem| - 1];
    }
    assert name[|stem| + 1..] == ext;
  }

  predicate IsCompressedFile(name: string) {
    GetExt(name) in {"xz", "gz", "zip", "7z", "rar", "bz2", "tgz", "png", "jpg"}
  }

  ghost predicate HasEnding(name: string, ext: string) {
    |name| > |ext| && name[|name| - |ext| - 1..] == "." + ext
  }

  /** The formats that are not compressed again, by the ending of the file name. */
  lemma CompressedFormatIff(name: string)
    ensures IsCompressedFile(name)
        <==> || HasEnding(name, "xz") || HasEnding(name, "gz") || HasEnding(name, "zip") || HasEnding(name, "7z")
             || HasEnding(name, "rar") || HasEnding(name, "bz2") || HasEnding(name, "tgz")
             || HasEnding(name, "png") || HasEnding(name, "jpg")
  {
    hide GetExt, HasEnding;
    ExtIff(name, "xz");
    ExtIff(name, "gz");
    ExtIff(name, "zip");
    ExtIff(name, "7z");
    ExtIff(name, "rar");
    ExtIff(name, "bz2");
    ExtIff(name, "tgz");
    ExtIff(name, "png");
    ExtIff(name, "jpg");
  }

  /** A name has a given extension exactly if it ends in a dot and that extension. */
  lemma ExtIff(name: string, ext: string)
    requires ext != "" && '.' !in ext
    ensures GetExt(name) == ext <==> HasEnding(name, ext)
  {
    var i := LastDot(name, |name|);
    if GetExt(name) == ext {
      assert name[i..] == "." + ext;
    }
    if HasEnding(name, ext) {
      var stem := name[..|name| - |ext| - 1];
      assert name == stem + "." + ext;
      GetExtIs(stem, ext);
    }
  }

  function TotalSize(files: seq<FileEntry>): nat {
    if files == [] then 0 else files[0].size + TotalSize(files[1..])
  }

  function NewJob(id: int, path: Path, files: seq<FileEntry>): Job {
    Job(id, path, files, 0, None, TotalSize(files), 0, 0)
  }

  // ---------------------------------------------------------------------------------------
  // Reading

  function Min(a: nat, b: nat): nat {
    if a < b then a else b
  }

  function ContentOf(disk: Disk, path: Path): Bytes {
    if path in disk then disk[path] else []
  }

  /** What a full buffer's worth of reads gets at `pos`. */
  function ChunkAt(content: Bytes, pos: nat): (r: Bytes)
    ensures |r| <= BUF_SIZE
    ensures r == [] <==> pos >= |content|
  {
    if pos >= |content| then [] else content[pos..Min(pos + BUF_SIZE, |content|)]
  }

  /** The block for raw bytes: compressed only if that is shorter, and never for a compressed format. */
  function PackBlock(z: Zstd, id: int, fileNum: nat, name: string, raw: Bytes): Block {
    if raw == [] || IsCompressedFile(name) || |Compress(z, raw)| >= |raw| then Block(id, fileNum, raw, false)
    else Block(id, fileNum, Compress(z, raw), true)
  }

  /** The bytes a block stands for at the receiving end. */
  function Payload(z: Zstd, b: Block): Bytes {
    if b.compressed then Decompress(z, b.data) else b.data
  }

  function NextFile(j: Job): Job {
    j.(fileNum := j.fileNum + 1, file := None)
  }

  /** One `read`, with the fault the file system commits in it, if any. */
  function ReadBlock(z: Zstd, disk: Disk, j: Job, fault: Option<Fault>): (Job, ReadResult) {
    if j.fileNum >= |j.files| then (j.(file := None), Exhausted)
    else
      var path := FinalPath(j, j.fileNum);
      if j.file.None? && (path !in disk || fault == Some(OpenFailed)) then (NextFile(j), Failed(OpenFailed))
      else
        var h := if j.file.Some? then j.file.value else Handle(path, 0);
        if fault == Some(ReadFailed) then (NextFile(j), Failed(ReadFailed))
        else
          var raw := ChunkAt(ContentOf(disk, h.path), h.pos);
          var block := PackBlock(z, j.id, j.fileNum, j.files[j.fileNum].name, raw);
          if raw == [] then (NextFile(j), Cut(block))
          else
            (j.(file := Some(h.(pos := h.pos + |raw|)),
                finishedSize := j.finishedSize + |raw|,
                transfered := j.transfered + |block.data|),
             Cut(block))
  }

  /** The raw bytes reach the other end: there are none, they go uncompressed for their format, or
      compressing them succeeds. */
  predicate Survives(z: Zstd, name: string, raw: Bytes) {
    raw == [] || IsCompressedFile(name) || z.encode(raw).Some?
  }

  function Kept(z: Zstd, name: string, raw: Bytes): Bytes {
    if Survives(z, name, raw) then raw else []
  }

  /** Main result on a single block: it stands for the bytes it was made of, exactly unless they are of
      a compressible format and the compressor failed on them. Then it stands for nothing: a failed
      compression yields the empty vector, which is shorter. */
  lemma BlockIntactIff(z: Zstd, id: int, fileNum: nat, name: string, raw: Bytes)
    requires Restores(z) && |raw| <= BUF_SIZE
    ensures Payload(z, PackBlock(z, id, fileNum, name, raw)) == Kept(z, name, raw)
    ensures Payload(z, PackBlock(z, id, fileNum, name, raw)) == raw
        <==> raw == [] || IsCompressedFile(name) || z.encode(raw).Some?
  {
    hide IsCompressedFile;
    if z.encode(raw).Some? {
      CapacityNeverCuts(z, raw);
    }
  }

  /** Main result on packing: bytes of a compressible format go compressed exactly if that is shorter, so no block
      carries more data than it has to; those of a compressed format go as they are. */
  lemma PackedIsShorter(z: Zstd, id: int, fileNum: nat, name: string, raw: Bytes)
    requires raw != []
    ensures var b := PackBlock(z, id, fileNum, name, raw);
            && b.id == id && b.fileNum == fileNum
            && if IsCompressedFile(name) then !b.compressed && b.data == raw
               else
                 match z.encode(raw)
                 case Some(out) =>
                   && (b.compressed <==> |out| < |raw|)
                   && b.data == (if b.compressed then out else raw)
                   && |b.data| == Min(|raw|, |out|)
                 case None => b.compressed && b.data == []
  {
    hide IsCompressedFile;
  }

  /** The same of what a read sends, by the name and the bytes of the file: a block of a full 128 KiB, or the rest,
      from where the job stands in it. */
  lemma ReadIsPacked(z: Zstd, disk: Disk, j: Job)
    requires j.fileNum < |j.files| && FinalPath(j, j.fileNum) in disk
    requires j.file == Some(Handle(FinalPath(j, j.fileNum), PositionOf(j))) || j.file.None?
    requires PositionOf(j) < |disk[FinalPath(j, j.fileNum)]|
    ensures var content, pos := disk[FinalPath(j, j.fileNum)], PositionOf(j);
            var raw := content[pos..Min(pos + 0x2_0000, |content|)];
            var (j', r) := ReadBlock(z, disk, j, None);
            && r.Cut? && r.block.id == j.id && r.block.fileNum == j.fileNum
            && (if IsCompressedFile(j.files[j.fileNum].name) then !r.block.compressed && r.block.data == raw
                else
                  match z.encode(raw)
                  case Some(out) =>
                    && (r.block.compressed <==> |out| < |raw|)
                    && r.block.data == (if r.block.compressed then out else raw)
                  case None => r.block.compressed && r.block.data == [])
            && j'.transfered == j.transfered + |r.block.data| && j'.finishedSize == j.finishedSize + |raw|
            && j'.file == Some(Handle(FinalPath(j, j.fileNum), pos + |raw|))
            && j'.fileNum == j.fileNum
  {
    hide IsCompressedFile, Join, PackBlock;
    var content, pos := disk[FinalPath(j, j.fileNum)], PositionOf(j);
    PackedIsShorter(z, j.id, j.fileNum, j.files[j.fileNum].name, content[pos..Min(pos + BUF_SIZE, |content|)]);
  }

  function PositionOf(j: Job): nat {
    if j.file.Some? then j.file.value.pos else 0
  }

  /** A failing compressor: every compressible block is lost. */
  lemma FailingCompressorLosesData(z: Zstd, id: int, fileNum: nat, name: string, raw: Bytes)
    requires z.encode(raw).None? && z.decode([]).None?
    requires raw != [] && !IsCompressedFile(name)
    ensures Payload(z, PackBlock(z, id, fileNum, name, raw)) == []
  {
  }

  // ---------------------------------------------------------------------------------------
  // What the blocks of a file carry

  /** The blocks begun in the first `size` bytes. */
  function BlockCount(size: nat): nat {
    (size + BUF_SIZE - 1) / BUF_SIZE
  }

  /** What the first `n` blocks of a file bring to the other end. */
  function CarriedBlocks(z: Zstd, name: string, content: Bytes, n: nat): Bytes {
    if n == 0 then []
    else CarriedBlocks(z, name, content, n - 1) + Kept(z, name, ChunkAt(content, (n - 1) * BUF_SIZE))
  }

  function Carried(z: Zstd, name: string, content: Bytes): Bytes {
    CarriedBlocks(z, name, content, BlockCount(|content|))
  }

  /** The compressor failed on no compressible block of the file. */
  ghost predicate NoBlockLost(z: Zstd, name: string, content: Bytes) {
    forall k: nat | k < BlockCount(|content|) :: Survives(z, name, ChunkAt(content, k * BUF_SIZE))
  }

  lemma BlockBounds(size: nat, n: nat)
    requires n < BlockCount(size)
    ensures n * BUF_SIZE < size && Min(n * BUF_SIZE, size) == n * BUF_SIZE
    ensures Min((n + 1) * BUF_SIZE, size) == Min(n * BUF_SIZE + BUF_SIZE, size)
  {
  }

  lemma {:induction false} CarriedPrefix(z: Zstd, name: string, content: Bytes, n: nat)
    requires n <= BlockCount(|content|)
    ensures |CarriedBlocks(z, name, content, n)| <= Min(n * BUF_SIZE, |content|)
    ensures CarriedBlocks(z, name, content, n) == content[..Min(n * BUF_SIZE, |content|)]
        <==> forall k: nat | k < n :: Survives(z, name, ChunkAt(content, k * BUF_SIZE))
    ensures |CarriedBlocks(z, name, content, n)| == Min(n * BUF_SIZE, |content|)
        ==> CarriedBlocks(z, name, content, n) == content[..Min(n * BUF_SIZE, |content|)]
    decreases n
  {
    hide Survives, BlockCount, CarriedBlocks, ChunkAt, Kept, Min;
    CarriedStep(z, name, content, n);
    if n == 0 {
      NoBytes(content);
    } else {
      var raw := ChunkAt(content, (n - 1) * BUF_SIZE);
      CarriedPrefix(z, name, content, n - 1);
      BlockBounds(|content|, n - 1);
      NextChunk(content, n - 1);
      KeptLength(z, name, raw);
      PartsMakeWhole(CarriedBlocks(z, name, content, n - 1), content[..(n - 1) * BUF_SIZE], Kept(z, name, raw), raw);
    }
  }

  lemma CarriedStep(z: Zstd, name: string, content: Bytes, n: nat)
    ensures CarriedBlocks(z, name, content, n)
         == if n == 0 then []
            else CarriedBlocks(z, name, content, n - 1) + Kept(z, name, ChunkAt(content, (n - 1) * BUF_SIZE))
  {
  }

  lemma NoBytes(content: Bytes)
    ensures Min(0 * BUF_SIZE, |content|) == 0 && content[..0] == []
  {
  }

  /** Of two parts no longer than they should be, each right if it is long enough, the whole is right exactly if
      both are. */
  lemma PartsMakeWhole(a: Bytes, a': Bytes, b: Bytes, b': Bytes)
    requires |a| <= |a'| && |b| <= |b'|
    requires |a| == |a'| ==> a == a'
    requires |b| == |b'| ==> b == b'
    ensures a + b == a' + b' <==> a == a' && b == b'
    ensures |a + b| == |a' + b'| ==> a + b == a' + b'
  {
  }

  lemma KeptLength(z: Zstd, name: string, raw: Bytes)
    ensures |Kept(z, name, raw)| <= |raw|
    ensures |Kept(z, name, raw)| == |raw| <==> Survives(z, name, raw)
    ensures Survives(z, name, raw) ==> Kept(z, name, raw) == raw
  {
    hide IsCompressedFile;
  }

  lemma NextChunk(content: Bytes, n: nat)
    requires n * BUF_SIZE < |content|
    ensures content[..n * BUF_SIZE] + ChunkAt(content, n * BUF_SIZE) == content[..Min((n + 1) * BUF_SIZE, |content|)]
    ensures |ChunkAt(content, n * BUF_SIZE)| == Min((n + 1) * BUF_SIZE, |content|) - n * BUF_SIZE
  {
  }

  /** Main result on a file: what its blocks carry is the file exactly if none of its compressible blocks
      failed to compress. */
  lemma CarriedIsContentIff(z: Zstd, name: string, content: Bytes)
    ensures Carried(z, name, content) == content <==> NoBlockLost(z, name, content)
  {
    hide Survives, CarriedBlocks;
    var n := BlockCount(|content|);
    CarriedPrefix(z, name, content, n);
    assert Min(n * BUF_SIZE, |content|) == |content|;
    assert content[..|content|] == content;
  }

  /** A compressor that never fails loses no block. */
  lemma NothingLost(z: Zstd, name: string, content: Bytes)
    requires NeverFails(z)
    ensures NoBlockLost(z, name, content)
  {
  }

  // ---------------------------------------------------------------------------------------
  // Writing

  function Rename(disk: Disk, from: Path, to: Path): Disk {
    if from in disk then (disk - {from})[to := disk[from]] else disk
  }

  /** `modify_time`: the staged file of the current number, if there is one, becomes final. */
  function Publish(j: Job, disk: Disk): (Job, Disk) {
    if j.fileNum >= |j.files| then (j, disk)
    else
      var path := FinalPath(j, j.fileNum);
      var moved := Staged(path) in disk && j.file.Some? && j.file.value.path == Staged(path);
      (if moved then j.(file := Some(j.file.value.(path := path))) else j,
       Rename(disk, Staged(path), path))
  }

  function Append(disk: Disk, path: Path, data: Bytes): Disk {
    if path in disk then disk[path := disk[path] + data] else disk
  }

  /** Switching to file `num`: publish the previous file, flush it if it is open, move on, and start an
      empty staging file. A fault stops it on the way. */
  function SwitchFile(j: Job, disk: Disk, num: nat, fault: Option<WriteFault>): (Job, Disk, Option<WriteFault>)
    requires num < |j.files|
  {
    var (published, disk1) := Publish(j, disk);
    var staged := Staged(FinalPath(j, num));
    if fault == Some(SyncFailed) && j.file.Some? then (published, disk1, Some(SyncFailed))
    else if fault == Some(NotCreated) then (published.(fileNum := num), disk1, Some(NotCreated))
    else (published.(fileNum := num, file := Some(Handle(staged, 0))), disk1[staged := []], None)
  }

  /** A block that makes the job switch files. */
  predicate Switches(j: Job, b: Block) {
    b.fileNum != j.fileNum || j.file.None?
  }

  /** The job takes the block: it is meant for it and names one of its files. */
  predicate Accepts(j: Job, b: Block) {
    b.id == j.id && 0 <= b.fileNum < |j.files|
  }

  /** One `write`, with the fault the file system commits in it, if any. */
  function WriteBlock(z: Zstd, j: Job, disk: Disk, b: Block, fault: Option<WriteFault>): (Job, Disk, WriteResult) {
    if b.id != j.id then (j, disk, WrongId)
    else if !Accepts(j, b) then (j, disk, WrongFileNumber)
    else
      var (j1, disk1, broke) := if Switches(j, b) then SwitchFile(j, disk, b.fileNum, fault) else (j, disk, None);
      if broke.Some? then (j1, disk1, Broke(broke.value))
      else
        var h := j1.file.value;
        var data := Payload(z, b);
        match fault
        case Some(ShortWrite(n)) =>
          var some := data[..Min(n, |data|)];
          (j1.(file := Some(h.(pos := h.pos + |some|))), Append(disk1, h.path, some), Broke(ShortWrite(|some|)))
        case _ =>
          (j1.(file := Some(h.(pos := h.pos + |data|)),
               finishedSize := j.finishedSize + |data|,
               transfered := j.transfered + |b.data|),
           Append(disk1, h.path, data), Written)
  }

  /** A block that is not for the job, or for none of its files, changes nothing; any other is taken. */
  lemma TakenIff(z: Zstd, j: Job, disk: Disk, b: Block, fault: Option<WriteFault>)
    ensures var (j', disk', r) := WriteBlock(z, j, disk, b, fault);
            && (r == WrongId <==> b.id != j.id)
            && (r == WrongFileNumber <==> b.id == j.id && (b.fileNum < 0 || b.fileNum >= |j.files|))
            && (r == WrongId || r == WrongFileNumber ==> j' == j && disk' == disk)
  {
    hide Payload, Join, Publish;
  }

  /** No two files share a destination. */
  ghost predicate DistinctFinals(j: Job) {
    forall a, b | 0 <= a < |j.files| && 0 <= b < |j.files| && a != b :: FinalPath(j, a) != FinalPath(j, b)
  }

  /** No destination is the staging name of another. */
  ghost predicate NoStagingClash(j: Job) {
    forall a, b | 0 <= a < |j.files| && 0 <= b < |j.files| :: FinalPath(j, a) != Staged(FinalPath(j, b))
  }

  /** The open file is the staged file of the current number. */
  ghost predicate HandleInPlace(j: Job) {
    j.file.Some? ==> j.fileNum < |j.files| && j.file.value.path == Staged(FinalPath(j, j.fileNum))
  }

  /** Main result: a `write` keeps the open file the current staging file, except exactly when it has to
      switch from an open file and either creating the next staging file fails or flushing the
      previous one does, which has just been renamed; after a failed creation, unless it was renamed
      to the very name of the next staging file. */
  lemma WriteKeepsHandleIff(z: Zstd, j: Job, disk: Disk, b: Block, fault: Option<WriteFault>)
    requires HandleInPlace(j) && DistinctFinals(j)
    ensures HandleInPlace(WriteBlock(z, j, disk, b, fault).0)
        <==> !(&& Accepts(j, b) && b.fileNum != j.fileNum && j.file.Some?
               && var renamed := j.file.value.path in disk;
                  || (fault == Some(SyncFailed) && renamed)
                  || (fault == Some(NotCreated)
                      && !(renamed && FinalPath(j, j.fileNum) == Staged(FinalPath(j, b.fileNum)))))
  {
    hide Join, Payload, Rename, Append;
    if j.file.Some? && 0 <= b.fileNum < |j.files| {
      StagedInjective(FinalPath(j, j.fileNum), FinalPath(j, b.fileNum));
    }
  }

  /** What becomes of the following block then: after a failed creation the blocks of the next file, and
      after a failed flush further blocks of the same file, go to the end of the file published last. */
  lemma BlocksGoAstray(z: Zstd, j: Job, disk: Disk, b: Block, fault: Option<WriteFault>, b': Block)
    requires HandleInPlace(j) && DistinctFinals(j)
    requires Accepts(j, b) && b.fileNum != j.fileNum && j.file.Some? && j.file.value.path in disk
    requires fault == Some(NotCreated) || fault == Some(SyncFailed)
    requires b'.id == b.id && b'.fileNum == if fault == Some(NotCreated) then b.fileNum else j.fileNum
    ensures var published := FinalPath(j, j.fileNum);
            var (j1, disk1, _) := WriteBlock(z, j, disk, b, fault);
            var (j2, disk2, r) := WriteBlock(z, j1, disk1, b', None);
            && r == Written
            && published in disk2 && disk2[published] == disk[Staged(published)] + Payload(z, b')
            && j2.file.Some? && j2.file.value.path == published
  {
    hide Join, Payload;
    StagedInjective(FinalPath(j, j.fileNum), FinalPath(j, b.fileNum));
  }

  // ---------------------------------------------------------------------------------------
  // In place

  /** A file system whose calls may fail and whose reads may be short, as it pleases. */
  class FileSystem {
    var disk: Disk

    constructor (disk: Disk)
      ensures this.disk == disk
    {
      this.disk := disk;
    }

    method Open(path: Path) returns (ok: bool)
      ensures ok ==> path in disk
    {
      ok := *;
      ok := ok && path in disk;
    }

    /** Reads some bytes at `pos` into the buffer from `offset` on: none only at the end of the file. */
    method ReadInto(path: Path, pos: nat, buf: array<Byte>, offset: nat) returns (n: Option<nat>)
      requires offset < buf.Length
      modifies buf
      ensures buf[..offset] == old(buf[..offset])
      ensures var content := ContentOf(disk, path);
              match n
              case None => true
              case Some(k) =>
                && k <= buf.Length - offset
                && (k == 0 <==> pos >= |content|)
                && (k > 0 ==> pos + k <= |content| && buf[offset..offset + k] == content[pos..pos + k])
    {
      if * {
        return None;
      }
      var content := ContentOf(disk, path);
      if pos >= |content| {
        return Some(0);
      }
      var most := Min(buf.Length - offset, |content| - pos);
      var k :| 1 <= k <= most;
      forall i | 0 <= i < k {
        buf[offset + i] := content[pos + i];
      }
      return Some(k);
    }

    method Create(path: Path) returns (ok: bool)
      modifies this
      ensures disk == if ok then old(disk)[path := []] else old(disk)
    {
      ok := *;
      if ok {
        disk := disk[path := []];
      }
    }

    /** Adds the data at the end of the file, or fails with only some of it added. */
    method WriteAll(path: Path, data: Bytes) returns (ok: bool, written: nat)
      modifies this
      ensures written <= |data| && (ok ==> written == |data|)
      ensures disk == Append(old(disk), path, data[..written])
    {
      ok, written := true, |data|;
      if * {
        ok := false;
        written :| 0 <= written <= |data|;
      }
      if path in disk {
        disk := disk[path := disk[path] + data[..written]];
      }
    }

    method SyncAll(path: Path) returns (ok: bool)
    {
      ok := *;
    }

    method RenameFile(from: Path, to: Path)
      modifies this
      ensures disk == Rename(old(disk), from, to)
    {
      if from in disk {
        disk := (disk - {from})[to := disk[from]];
      }
    }
  }

  lemma JoinSlices(s: Bytes, a: nat, b: nat, c: nat)
    requires a <= b <= c <= |s|
    ensures s[a..b] + s[b..c] == s[a..c]
  {
  }

  ghost function FaultIn(r: ReadResult): Option<Fault> {
    match r case Failed(f) => Some(f) case _ => None
  }

  ghost function BreakIn(r: WriteResult): Option<WriteFault> {
    match r case Broke(fault) => Some(fault) case _ => None
  }

  class TransferJob {
    var id: int
    var path: Path
    var files: seq<FileEntry>
    var fileNum: nat
    var file: Option<Handle>
    var totalSize: nat
    var finishedSize: nat
    var transfered: nat

    ghost function Value(): Job
      reads this
    {
      Job(id, path, files, fileNum, file, totalSize, finishedSize, transfered)
    }

    constructor (id: int, path: Path, files: seq<FileEntry>)
      ensures Value() == NewJob(id, path, files)
    {
      this.id, this.path, this.files := id, path, files;
      fileNum, file, totalSize, finishedSize, transfered := 0, None, TotalSize(files), 0, 0;
    }

    /** Fills the buffer from the open file until it is full or the file ends, whatever the sizes of
        the single reads; only bytes that were read count as filled. */
    method FillBuffer(fs: FileSystem, h: Handle, buf: array<Byte>) returns (filled: Option<nat>)
      requires buf.Length == BUF_SIZE
      modifies buf
      ensures filled.Some? ==> filled.value <= buf.Length
                               && buf[..filled.value] == ChunkAt(ContentOf(fs.disk, h.path), h.pos)
    {
      ghost var content := ContentOf(fs.disk, h.path);
      var offset: nat := 0;
      while true
        invariant offset < BUF_SIZE
        invariant offset > 0 ==> h.pos + offset <= |content|
        invariant offset > 0 ==> buf[..offset] == content[h.pos..h.pos + offset]
        invariant offset == 0 ==> buf[..offset] == []
        decreases BUF_SIZE - offset
      {
        var n := fs.ReadInto(h.path, h.pos + offset, buf, offset);
        if n.None? {
          return None;
        }
        var k := n.value;
        if k > 0 {
          assert buf[..offset + k] == buf[..offset] + buf[offset..offset + k];
          JoinSlices(content, h.pos, h.pos + offset, h.pos + offset + k);
        }
        offset := offset + k;
        if k == 0 || offset == BUF_SIZE {
          return Some(offset);
        }
      }
    }

    method Read(z: Zstd, fs: FileSystem) returns (r: ReadResult)
      modifies this
      ensures (Value(), r) == ReadBlock(z, fs.disk, old(Value()), FaultIn(r))
    {
      hide Join, PackBlock, ContentOf, ChunkAt;
      if fileNum >= |files| {
        file := None;
        return Exhausted;
      }
      var num := fileNum;
      var name := files[num].name;
      if file.None? {
        var path := Join(path, name);
        var ok := fs.Open(path);
        if !ok {
          fileNum := fileNum + 1;
          return Failed(OpenFailed);
        }
        file := Some(Handle(path, 0));
      }
      var buf := new Byte[BUF_SIZE];
      var h := file.value;
      var filled := FillBuffer(fs, h, buf);
      if filled.None? {
        fileNum := fileNum + 1;
        file := None;
        return Failed(ReadFailed);
      }
      var offset := filled.value;
      var block := Pack(z, num, name, buf[..offset]);
      if offset == 0 {
        fileNum := fileNum + 1;
        file := None;
      } else {
        file := Some(h.(pos := h.pos + offset));
        finishedSize := finishedSize + offset;
        transfered := transfered + |block.data|;
      }
      return Cut(block);
    }

    method Pack(z: Zstd, num: nat, name: string, buf: Bytes) returns (block: Block)
      ensures block == PackBlock(z, id, num, name, buf)
    {
      var data := buf;
      var compressed := false;
      if |buf| != 0 && !IsCompressedFile(name) {
        var tmp := Compress(z, data);
        if |tmp| < |data| {
          data := tmp;
          compressed := true;
        }
      }
      return Block(id, num, data, compressed);
    }

    /** The rename carries an open file along. */
    method ModifyTime(fs: FileSystem)
      modifies this, fs
      ensures (Value(), fs.disk) == Publish(old(Value()), old(fs.disk))
      ensures Value().(file := None) == old(Value()).(file := None) && (file.Some? <==> old(file).Some?)
    {
      if fileNum < |files| {
        var path := Join(path, files[fileNum].name);
        var staged := path + ".download";
        if staged in fs.disk && file.Some? && file.value.path == staged {
          file := Some(file.value.(path := path));
        }
        fs.RenameFile(staged, path);
      }
    }

    /** Publishes the file received so far and starts the staging file of file `num`. */
    method BeginFile(fs: FileSystem, num: nat) returns (broke: Option<WriteFault>)
      requires num < |files|
      modifies this, fs
      ensures (Value(), fs.disk, broke) == SwitchFile(old(Value()), old(fs.disk), num, broke)
    {
      hide Join, Rename, Publish;
      ModifyTime(fs);
      if file.Some? {
        var flushed := fs.SyncAll(file.value.path);
        if !flushed {
          return Some(SyncFailed);
        }
      }
      fileNum := num;
      var staged := Join(path, files[num].name) + ".download";
      var ok := fs.Create(staged);
      if !ok {
        return Some(NotCreated);
      }
      file := Some(Handle(staged, 0));
      return None;
    }

    method Write(z: Zstd, fs: FileSystem, block: Block) returns (r: WriteResult)
      modifies this, fs
      ensures (Value(), fs.disk, r) == WriteBlock(z, old(Value()), old(fs.disk), block, BreakIn(r))
    {
      hide Join, Decompress, Append, SwitchFile;
      if block.id != id {
        return WrongId;
      }
      if block.fileNum < 0 || block.fileNum >= |files| {
        return WrongFileNumber;
      }
      if block.fileNum != fileNum || file.None? {
        var broke := BeginFile(fs, block.fileNum);
        SwitchShape(old(Value()), old(fs.disk), block.fileNum, broke);
        if broke.Some? {
          return Broke(broke.value);
        }
      }
      var data := if block.compressed then Decompress(z, block.data) else block.data;
      var h := file.value;
      var ok, written := fs.WriteAll(h.path, data);
      file := Some(h.(pos := h.pos + written));
      if !ok {
        return Broke(ShortWrite(written));
      }
      assert data[..|data|] == data;
      finishedSize := finishedSize + |data|;
      transfered := transfered + |block.data|;
      return Written;
    }
  }

  /** Switching without the fault of a later step is switching without a fault. */
  lemma SwitchShape(j: Job, disk: Disk, num: nat, broke: Option<WriteFault>)
    requires num < |j.files|
    ensures var (j', _, broke') := SwitchFile(j, disk, num, broke);
            && j'.id == j.id && j'.path == j.path && j'.files == j.files && j'.totalSize == j.totalSize
            && j'.finishedSize == j.finishedSize && j'.transfered == j.transfered
            && (broke'.None? ==> j'.file.Some? && j'.fileNum == num)
    ensures forall n: nat :: SwitchFile(j, disk, num, Some(ShortWrite(n))) == SwitchFile(j, disk, num, None)
  {
  }
}
