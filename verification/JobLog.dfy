/** The messages of a transfer, and what the messages of one job say about each of its files. */
module JobLog {
  import opened Octets
  import opened Compression
  import opened Transfer

  datatype Msg = MBlock(block: Block) | MError(id: int, fault: Fault, fileNum: nat) | MDone(id: int, fileNum: nat)

  function IdOf(m: Msg): int {
    match m case MBlock(b) => b.id case MError(id, _, _) => id case MDone(id, _) => id
  }

  /** The message format, as two functions. */
  datatype Format = Format(serialize: Msg -> Bytes, parse: Bytes -> Option<Msg>)

  ghost predicate Parseable(format: Format) {
    forall m :: format.parse(format.serialize(m)) == Some(m)
  }

  function SerializeAll(format: Format, log: seq<Msg>): (r: seq<Bytes>)
    ensures |r| == |log|
  {
    seq(|log|, k requires 0 <= k < |log| => format.serialize(log[k]))
  }

  /** `get_job`: the first job with the id, as an index; the length of the list without one. */
  function JobIndex(id: int, jobs: seq<Job>): (k: nat)
    ensures k <= |jobs|
    ensures k < |jobs| ==> jobs[k].id == id
    ensures forall l | 0 <= l < k :: jobs[l].id != id
  {
    if jobs == [] || jobs[0].id == id then 0 else 1 + JobIndex(id, jobs[1..])
  }

  /** The messages that concern one job, in order. */
  function Mine(log: seq<Msg>, id: int): seq<Msg> {
    if log == [] then []
    else Mine(log[..|log| - 1], id) + (if IdOf(log[|log| - 1]) == id then [log[|log| - 1]] else [])
  }

  lemma MineSnoc(log: seq<Msg>, m: Msg, id: int)
    ensures Mine(log + [m], id) == Mine(log, id) + (if IdOf(m) == id then [m] else [])
  {
    assert (log + [m])[..|log|] == log;
  }

  lemma {:induction false} MineAppend(a: seq<Msg>, b: seq<Msg>, id: int)
    ensures Mine(a + b, id) == Mine(a, id) + Mine(b, id)
    decreases |b|
  {
    if b == [] {
      assert a + b == a;
    } else {
      var n := |b| - 1;
      MineAppend(a, b[..n], id);
      assert a + b == (a + b[..n]) + [b[n]];
      MineSnoc(a + b[..n], b[n], id);
    }
  }

  lemma {:induction false} MineNone(log: seq<Msg>, id: int)
    requires forall k | 0 <= k < |log| :: IdOf(log[k]) != id
    ensures Mine(log, id) == []
    decreases |log|
  {
    if log != [] { MineNone(log[..|log| - 1], id); }
  }

  lemma MineOne(log: seq<Msg>, k: nat)
    requires k < |log|
    requires forall l | 0 <= l < |log| && l != k :: IdOf(log[l]) != IdOf(log[k])
    ensures Mine(log, IdOf(log[k])) == [log[k]]
  {
    hide Mine, IdOf;
    var id := IdOf(log[k]);
    var front, back := log[..k], log[k + 1..];
    assert log == (front + [log[k]]) + back;
    MineAppend(front + [log[k]], back, id);
    MineSnoc(front, log[k], id);
    MineNone(front, id);
    MineNone(back, id);
    assert ([] + [log[k]]) + [] == [log[k]];
  }

  // ---------------------------------------------------------------------------------------
  // What a job's own messages say. Below, `log` holds the messages of one job only.

  predicate IsBlockOf(m: Msg, i: int) {
    m.MBlock? && m.block.fileNum == i
  }

  predicate HasBlock(log: seq<Msg>, i: int) {
    exists m <- log :: IsBlockOf(m, i)
  }

  /** The empty block that closes file `i`. */
  function Closing(id: int, i: int): Msg {
    MBlock(Block(id, i, [], false))
  }

  /** The bytes sent for file `i`. */
  function BytesFor(z: Zstd, log: seq<Msg>, i: int): Bytes {
    if log == [] then []
    else
      var m := log[|log| - 1];
      BytesFor(z, log[..|log| - 1], i) + (if IsBlockOf(m, i) then Payload(z, m.block) else [])
  }

  /** All payload bytes, and all bytes of block data. */
  function PayloadTotal(z: Zstd, log: seq<Msg>): nat {
    if log == [] then 0
    else
      var m := log[|log| - 1];
      PayloadTotal(z, log[..|log| - 1]) + (if m.MBlock? then |Payload(z, m.block)| else 0)
  }

  function DataTotal(log: seq<Msg>): nat {
    if log == [] then 0
    else
      var m := log[|log| - 1];
      DataTotal(log[..|log| - 1]) + (if m.MBlock? then |m.block.data| else 0)
  }

  /** A block of data that brings nothing: the compressor failed on it. */
  predicate LostBlock(z: Zstd, m: Msg) {
    m.MBlock? && m.block.compressed && Payload(z, m.block) == []
  }

  ghost predicate NoneLost(z: Zstd, log: seq<Msg>) {
    forall m <- log :: !LostBlock(z, m)
  }

  function Dones(log: seq<Msg>): nat {
    if log == [] then 0
    else Dones(log[..|log| - 1]) + (if log[|log| - 1].MDone? then 1 else 0)
  }

  /** The file numbers of the blocks never go down, stay within `n`, and none follows the end of the job. */
  ghost predicate InOrder(log: seq<Msg>, n: nat) {
    && (forall a, b | 0 <= a < b < |log| ::
          log[a].MBlock? && log[b].MBlock? ==> log[a].block.fileNum <= log[b].block.fileNum)
    && (forall a, b | 0 <= a < b < |log| :: log[a].MDone? ==> !log[b].MBlock?)
    && (forall a | 0 <= a < |log| :: log[a].MBlock? ==> 0 <= log[a].block.fileNum < n)
  }

  lemma LogSnoc(z: Zstd, log: seq<Msg>, m: Msg, i: int)
    ensures var log' := log + [m];
            && BytesFor(z, log', i) == BytesFor(z, log, i) + (if IsBlockOf(m, i) then Payload(z, m.block) else [])
            && PayloadTotal(z, log') == PayloadTotal(z, log) + (if m.MBlock? then |Payload(z, m.block)| else 0)
            && DataTotal(log') == DataTotal(log) + (if m.MBlock? then |m.block.data| else 0)
            && Dones(log') == Dones(log) + (if m.MDone? then 1 else 0)
            && (HasBlock(log', i) <==> HasBlock(log, i) || IsBlockOf(m, i))
            && (NoneLost(z, log') <==> NoneLost(z, log) && !LostBlock(z, m))
  {
    hide LostBlock, Payload;
    var log' := log + [m];
    assert log'[..|log|] == log;
    assert m in log' && forall x <- log :: x in log';
  }

  lemma {:induction false} NoBlockNothingReceived(z: Zstd, log: seq<Msg>, i: int)
    requires !HasBlock(log, i)
    ensures BytesFor(z, log, i) == []
    decreases |log|
  {
    if log != [] {
      assert log[|log| - 1] in log;
      NoBlockNothingReceived(z, log[..|log| - 1], i);
    }
  }

  lemma {:induction false} SomeDone(log: seq<Msg>) returns (a: nat)
    requires Dones(log) > 0
    ensures a < |log| && log[a].MDone?
    decreases |log|
  {
    a := |log| - 1;
    if !log[a].MDone? { a := SomeDone(log[..|log| - 1]); }
  }

  lemma {:induction false} NoneDone(log: seq<Msg>)
    requires forall a | 0 <= a < |log| :: !log[a].MDone?
    ensures Dones(log) == 0
    decreases |log|
  {
    if log != [] { NoneDone(log[..|log| - 1]); }
  }

  /** However the data of a job's blocks was made, what comes out of them is at most 1 MiB for each block or thirty
      times its data, and never more than 64 MiB a block. */
  lemma {:induction false} PayloadBounded(z: Zstd, log: seq<Msg>)
    ensures PayloadTotal(z, log) <= 30 * DataTotal(log) + 0x10_0000 * |log|
    ensures PayloadTotal(z, log) <= DataTotal(log) + 64 * 0x10_0000 * |log|
    decreases |log|
  {
    hide Decompress;
    if log != [] {
      var m := log[|log| - 1];
      PayloadBounded(z, log[..|log| - 1]);
      if m.MBlock? { OutputBounded(z, m.block.data); }
    }
  }
}
