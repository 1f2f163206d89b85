/**
 File transfer in chunks: the sending loop of `SendFile` (layer1/mesh_adapter.go:432-468) and the
 receiver's `writeFileChunk` (layer1/mesh_node.go:118-132, 180-197).
 */
module FileTransfer {
  import opened Common

  type Data = seq<byte>

  const CHUNK: nat := 65536

  datatype FileChunk = FileChunk(path: string, offset: int, data: Data, final: bool)

  /** What the file system does with one chunk: all of it, nothing, or only the first bytes of the data. */
  datatype Fault = NoFault | OpenFails | WriteStops(after: nat)

  // ---------- Writing ----------

  /** The bytes of `data` at `offset`; a gap before it reads as zeros. */
  function WriteAt(content: Data, offset: nat, data: Data): (r: Data)
    ensures data == [] ==> r == content
    ensures data != [] ==> |r| == Max(|content|, offset + |data|)
    ensures forall j :: 0 <= j < |r| ==>
      r[j] == if offset <= j < offset + |data| then data[j - offset] else if j < |content| then content[j] else 0
  {
    if data == [] then content
    else
      seq(Max(|content|, offset + |data|), j requires 0 <= j =>
        if offset <= j < offset + |data| then data[j - offset] else if j < |content| then content[j] else 0)
  }

  type Files = map<string, Data>

  /** The file as it is opened: created if missing, emptied for a chunk at offset zero. */
  function Opened(files: Files, chunk: FileChunk): Data {
    if chunk.offset == 0 || chunk.path !in files then [] else files[chunk.path]
  }

  function Stored(files: Files, chunk: FileChunk, fault: Fault): Files {
    if fault == OpenFails then files
    else if chunk.offset < 0 then files[chunk.path := Opened(files, chunk)]
    else
      var kept := match fault case WriteStops(n) => chunk.data[..Min(n, |chunk.data|)] case _ => chunk.data;
      files[chunk.path := WriteAt(Opened(files, chunk), chunk.offset, kept)]
  }

  predicate Accepted(chunk: FileChunk, fault: Fault) {
    fault == NoFault && chunk.offset >= 0
  }

  class MeshNode {
    var files: Files

    method WriteFileChunk(chunk: FileChunk, fault: Fault) returns (ok: bool)
      modifies this
      ensures ok == Accepted(chunk, fault)
      ensures files == Stored(old(files), chunk, fault)
    {
      if fault == OpenFails {
        return false;
      }
      var truncate := chunk.offset == 0;
      var content := if truncate || chunk.path !in files then [] else files[chunk.path];
      files := files[chunk.path := content];
      if chunk.offset < 0 {
        return false;
      }
      if fault.WriteStops? {
        files := files[chunk.path := WriteAt(content, chunk.offset, chunk.data[..Min(fault.after, |chunk.data|)])];
        return false;
      }
      files := files[chunk.path := WriteAt(content, chunk.offset, chunk.data)];
      return true;
    }
  }

  // ---------- Chunks ----------

  function Chunks(length: nat): nat {
    (length + CHUNK - 1) / CHUNK
  }

  function EndOf(length: nat, k: nat): nat {
    Min(CHUNK * (k + 1), length)
  }

  function ChunkOf(path: string, data: Data, k: nat): FileChunk
    requires CHUNK * k <= |data|
  {
    FileChunk(path, CHUNK * k, data[CHUNK * k..EndOf(|data|, k)], EndOf(|data|, k) == |data|)
  }

  lemma ChunkCount(length: nat, k: nat)
    ensures k < Chunks(length) <==> CHUNK * k < length
    ensures k < Chunks(length) ==> (EndOf(length, k) == length <==> k == Chunks(length) - 1)
  {
  }

  /** `Final` is set on the last chunk and on no other. */
  lemma FinalIsLast(path: string, data: Data, k: nat)
    requires k < Chunks(|data|)
    ensures CHUNK * k < |data| && ChunkOf(path, data, k).data != []
    ensures ChunkOf(path, data, k).final <==> k == Chunks(|data|) - 1
  {
    ChunkCount(|data|, k);
  }

  // ---------- Sending in order ----------

  /** What happens to a chunk: it is not sent, or it is written and the answer arrives or not. */
  datatype Delivery = Unsent | Delivered(fault: Fault, answered: bool)

  /** Appending a stretch of the data to the prefix before it. */
  lemma WriteExtends(content: Data, data: Data, from: nat, to: nat)
    requires from <= to <= |data| && content == data[..from]
    ensures WriteAt(content, from, data[from..to]) == data[..to]
  {
  }

  const GOOD: Delivery := Delivered(NoFault, true)

  /** The receiver's files after `k` acknowledged chunks. */
  function Sent(files: Files, path: string, data: Data, k: nat): Files {
    if k == 0 then files else files[path := data[..Min(CHUNK * k, |data|)]]
  }

  /** The receiver's files when the transfer stops at chunk `k`. */
  function Stopped(files: Files, path: string, data: Data, k: nat, delivery: Delivery): Files
    requires CHUNK * k < |data|
  {
    match delivery
    case Unsent => Sent(files, path, data, k)
    case Delivered(fault, _) => Stored(Sent(files, path, data, k), ChunkOf(path, data, k), fault)
  }

  /**
   One peer's share of `SendFile`: `acked` chunks go through, up to the first that does not. The
   remote file is then the prefix of the data up to there, whatever it held before, but for what
   the failing chunk did to it. Sending an empty file sends nothing.
   */
  method SendFile(data: Data, path: string, node: MeshNode, network: nat -> Delivery) returns (acked: nat, ok: bool)
    modifies node
    ensures acked <= Chunks(|data|) && (ok <==> acked == Chunks(|data|))
    ensures forall k :: 0 <= k < acked ==> network(k) == GOOD
    ensures ok ==> node.files == if data == [] then old(node.files) else old(node.files)[path := data]
    ensures !ok ==> network(acked) != GOOD && CHUNK * acked < |data|
    ensures !ok ==> node.files == Stopped(old(node.files), path, data, acked, network(acked))
  {
    acked := 0;
    var offset := 0;
    while offset < |data|
      invariant offset == CHUNK * acked && acked <= Chunks(|data|)
      invariant node.files == Sent(old(node.files), path, data, acked)
      invariant forall k :: 0 <= k < acked ==> network(k) == GOOD
      decreases |data| - offset
    {
      ChunkCount(|data|, acked);
      var end := offset + CHUNK;
      if end > |data| {
        end := |data|;
      }
      var chunk := FileChunk(path, offset, data[offset..end], end == |data|);
      assert chunk == ChunkOf(path, data, acked);
      if network(acked) == Unsent {
        return acked, false;
      }
      NextChunk(old(node.files), path, data, acked);
      var accepted := node.WriteFileChunk(chunk, network(acked).fault);
      if !network(acked).answered || !accepted {
        return acked, false;
      }
      acked := acked + 1;
      offset := offset + CHUNK;
    }
    ChunkCount(|data|, acked);
    AllSent(data, acked);
    return acked, true;
  }

  lemma AllSent(data: Data, k: nat)
    requires k <= Chunks(|data|) && CHUNK * k >= |data|
    ensures k == Chunks(|data|) && (k == 0 <==> data == []) && data[..Min(CHUNK * k, |data|)] == data
  {
    ChunkCount(|data|, k);
  }

  /** One more chunk written in full. */
  lemma NextChunk(files: Files, path: string, data: Data, k: nat)
    requires CHUNK * k < |data|
    ensures Stored(Sent(files, path, data, k), ChunkOf(path, data, k), NoFault) == Sent(files, path, data, k + 1)
  {
    WriteExtends(data[..CHUNK * k], data, CHUNK * k, EndOf(|data|, k));
    if k == 0 {
      assert data[..0] == [] && CHUNK * k == 0;
    }
  }

  /** Whatever a failing chunk does, the file is left as a prefix of the data that is no shorter. */
  lemma FailureLeavesPrefix(files: Files, path: string, data: Data, k: nat, fault: Fault)
    requires CHUNK * k < |data| && (fault == OpenFails ==> k > 0)
    ensures var after := Stored(Sent(files, path, data, k), ChunkOf(path, data, k), fault);
      path in after && CHUNK * k <= |after[path]| && after[path] <= data
  {
    var chunk := ChunkOf(path, data, k);
    var n := match fault case WriteStops(n) => Min(n, |chunk.data|) case _ => |chunk.data|;
    assert chunk.data[..n] == data[CHUNK * k..CHUNK * k + n];
    if k == 0 {
      assert data[..0] == [];
    }
    WriteExtends(data[..CHUNK * k], data, CHUNK * k, CHUNK * k + n);
    assert chunk.data[..|chunk.data|] == chunk.data;
  }

  // ---------- Any order ----------

  /** The file after chunk zero and then the chunks of `order`. */
  function Assembled(data: Data, order: seq<nat>): Data
    requires forall i :: 0 <= i < |order| ==> 0 < order[i] < Chunks(|data|)
  {
    if order == [] then data[..Min(CHUNK, |data|)]
    else
      var n := |order| - 1;
      ChunkCount(|data|, order[n]);
      WriteAt(Assembled(data, order[..n]), CHUNK * order[n], data[CHUNK * order[n]..EndOf(|data|, order[n])])
  }

  /** The receiver does the same, whatever it stored before chunk zero. */
  function StoredAll(files: Files, path: string, data: Data, order: seq<nat>): Files
    requires forall i :: 0 <= i < |order| ==> order[i] < Chunks(|data|)
  {
    if order == [] then files
    else
      var n := |order| - 1;
      ChunkCount(|data|, order[n]);
      Stored(StoredAll(files, path, data, order[..n]), ChunkOf(path, data, order[n]), NoFault)
  }

  lemma StoredLast(files: Files, path: string, data: Data, order: seq<nat>)
    requires order != [] && forall i :: 0 <= i < |order| ==> order[i] < Chunks(|data|)
    ensures var n := |order| - 1;
      && CHUNK * order[n] < |data|
      && StoredAll(files, path, data, order)
         == Stored(StoredAll(files, path, data, order[..n]), ChunkOf(path, data, order[n]), NoFault)
  {
    ChunkCount(|data|, order[|order| - 1]);
  }

  lemma AssembledLast(data: Data, order: seq<nat>)
    requires order != [] && forall i :: 0 <= i < |order| ==> 0 < order[i] < Chunks(|data|)
    ensures var n := |order| - 1;
      && CHUNK * order[n] < |data|
      && Assembled(data, order)
         == WriteAt(Assembled(data, order[..n]), CHUNK * order[n], data[CHUNK * order[n]..EndOf(|data|, order[n])])
  {
    ChunkCount(|data|, order[|order| - 1]);
  }

  lemma StoredFirst(files: Files, path: string, data: Data)
    requires data != []
    ensures CHUNK * 0 < |data|
    ensures Stored(files, ChunkOf(path, data, 0), NoFault) == files[path := data[..Min(CHUNK, |data|)]]
  {
    ChunkCount(|data|, 0);
    WriteExtends([], data, 0, EndOf(|data|, 0));
    assert data[0..EndOf(|data|, 0)] == data[..EndOf(|data|, 0)];
  }

  lemma StoredLater(files: Files, path: string, content: Data, data: Data, k: nat)
    requires k > 0 && CHUNK * k < |data|
    ensures Stored(files[path := content], ChunkOf(path, data, k), NoFault)
         == files[path := WriteAt(content, CHUNK * k, data[CHUNK * k..EndOf(|data|, k)])]
  {
    hide WriteAt;
    var piece := data[CHUNK * k..EndOf(|data|, k)];
    assert piece[..|piece|] == piece;
  }

  lemma {:induction false} ReceiverAssembles(files: Files, path: string, data: Data, order: seq<nat>)
    requires data != [] && forall i :: 0 <= i < |order| ==> 0 < order[i] < Chunks(|data|)
    ensures CHUNK * 0 < |data|
    ensures var first := Stored(files, ChunkOf(path, data, 0), NoFault);
      StoredAll(first, path, data, order) == files[path := Assembled(data, order)]
  {
    hide WriteAt, Stored, ChunkOf;
    var first := Stored(files, ChunkOf(path, data, 0), NoFault);
    StoredFirst(files, path, data);
    if order != [] {
      var n := |order| - 1;
      ReceiverAssembles(files, path, data, order[..n]);
      StoredLast(first, path, data, order);
      AssembledLast(data, order);
      StoredLater(files, path, Assembled(data, order[..n]), data, order[n]);
    }
  }

  /** What an assembled file looks like: each chunk is there or reads as zeros or is cut off. */
  ghost predicate Shape(data: Data, content: Data, got: set<nat>) {
    && |content| <= |data|
    && (forall k :: k in got ==> k < Chunks(|data|) && EndOf(|data|, k) <= |content|)
    && (exists k :: k in got && |content| == EndOf(|data|, k))
    && forall j :: 0 <= j < |content| ==> content[j] == if j / CHUNK in got then data[j] else 0
  }

  /** Chunk zero and the chunks of `order`. */
  function Got(order: seq<nat>): set<nat> {
    {0} + set k | k in order
  }

  lemma {:induction false} AssembledShape(data: Data, order: seq<nat>)
    requires data != [] && forall i :: 0 <= i < |order| ==> 0 < order[i] < Chunks(|data|)
    ensures Shape(data, Assembled(data, order), Got(order))
  {
    if order == [] {
      assert EndOf(|data|, 0) == Min(CHUNK, |data|);
      ChunkCount(|data|, 0);
      assert 0 in Got(order);
    } else {
      hide Shape, WriteAt;
      var n := |order| - 1;
      AssembledShape(data, order[..n]);
      var got := Got(order[..n]);
      assert order == order[..n] + [order[n]];
      assert Got(order) == got + {order[n]};
      OneMore(data, Assembled(data, order[..n]), got, order[n]);
    }
  }

  lemma OneMore(data: Data, content: Data, got: set<nat>, k: nat)
    requires Shape(data, content, got) && 0 < k < Chunks(|data|)
    ensures CHUNK * k < |data|
    ensures Shape(data, WriteAt(content, CHUNK * k, data[CHUNK * k..EndOf(|data|, k)]), got + {k})
  {
    ChunkCount(|data|, k);
    var piece := data[CHUNK * k..EndOf(|data|, k)];
    var after := WriteAt(content, CHUNK * k, piece);
    forall j | 0 <= j < |after| ensures after[j] == if j / CHUNK in got + {k} then data[j] else 0 {
      InChunk(|data|, j, k);
      if !(CHUNK * k <= j < CHUNK * k + |piece|) {
        assert j / CHUNK != k;
        if j >= |content| {
          PastTheEnd(data, content, got, j);
        }
      }
    }
    if |after| == |content| {
      var l :| l in got && |content| == EndOf(|data|, l);
      assert l in got + {k};
    } else {
      assert k in got + {k};
    }
  }

  lemma InChunk(length: nat, j: nat, k: nat)
    requires j < length
    ensures j / CHUNK == k <==> CHUNK * k <= j < EndOf(length, k)
  {
  }

  lemma PastTheEnd(data: Data, content: Data, got: set<nat>, j: nat)
    requires Shape(data, content, got) && |content| <= j < |data|
    ensures j / CHUNK !in got
  {
    InChunk(|data|, j, j / CHUNK);
  }

  /** After chunk zero, any order and repetition that brings every other chunk rebuilds the file. */
  lemma AnyOrder(data: Data, order: seq<nat>)
    requires data != [] && forall i :: 0 <= i < |order| ==> 0 < order[i] < Chunks(|data|)
    requires forall k :: 0 < k < Chunks(|data|) ==> k in order
    ensures Assembled(data, order) == data
  {
    AssembledShape(data, order);
    CompleteShape(data, Assembled(data, order), Got(order));
  }

  lemma CompleteShape(data: Data, content: Data, got: set<nat>)
    requires data != [] && Shape(data, content, got) && forall k :: 0 <= k < Chunks(|data|) ==> k in got
    ensures content == data
  {
    var last := Chunks(|data|) - 1;
    ChunkCount(|data|, last);
    assert last in got;
    forall j | 0 <= j < |data| ensures j / CHUNK in got {
      ChunkCount(|data|, j / CHUNK);
    }
  }

  /** The file is rebuilt if and only if the last chunk came and every byte of a missing chunk is zero. */
  lemma AnyOrderIff(data: Data, order: seq<nat>)
    requires data != [] && forall i :: 0 <= i < |order| ==> 0 < order[i] < Chunks(|data|)
    ensures Assembled(data, order) == data
       <==> Chunks(|data|) - 1 in Got(order)
            && forall j :: 0 <= j < |data| && j / CHUNK !in Got(order) ==> data[j] == 0
  {
    AssembledShape(data, order);
    ShapeComplete(data, Assembled(data, order), Got(order));
  }

  lemma ShapeComplete(data: Data, content: Data, got: set<nat>)
    requires data != [] && Shape(data, content, got)
    ensures content == data
       <==> Chunks(|data|) - 1 in got && forall j :: 0 <= j < |data| && j / CHUNK !in got ==> data[j] == 0
  {
    var last := Chunks(|data|) - 1;
    ChunkCount(|data|, last);
    if |content| == |data| {
      var k :| k in got && |content| == EndOf(|data|, k);
      ChunkCount(|data|, k);
      assert k == last;
    }
  }

  lemma {:induction false} StoredInTurn(files: Files, path: string, data: Data, a: seq<nat>, b: seq<nat>)
    requires forall i :: 0 <= i < |a| ==> a[i] < Chunks(|data|)
    requires forall i :: 0 <= i < |b| ==> b[i] < Chunks(|data|)
    ensures StoredAll(files, path, data, a + b) == StoredAll(StoredAll(files, path, data, a), path, data, b)
  {
    if b == [] {
      assert a + b == a;
    } else {
      var n := |b| - 1;
      assert (a + b)[..|a + b| - 1] == a + b[..n];
      StoredInTurn(files, path, data, a, b[..n]);
      StoredLast(files, path, data, a + b);
      StoredLast(StoredAll(files, path, data, a), path, data, b);
    }
  }

  lemma {:induction false} OnlyThatFile(files: Files, path: string, data: Data, order: seq<nat>, x: Data)
    requires forall i :: 0 <= i < |order| ==> order[i] < Chunks(|data|)
    ensures StoredAll(files, path, data, order)[path := x] == files[path := x]
  {
    if order != [] {
      OnlyThatFile(files, path, data, order[..|order| - 1], x);
    }
  }

  /** In any sequence of chunks, repetitions of chunk zero included, only what follows the last chunk zero matters. */
  lemma LastStartDecides(files: Files, path: string, data: Data, before: seq<nat>, order: seq<nat>)
    requires data != [] && forall i :: 0 <= i < |before| ==> before[i] < Chunks(|data|)
    requires forall i :: 0 <= i < |order| ==> 0 < order[i] < Chunks(|data|)
    ensures StoredAll(files, path, data, before + [0] + order) == files[path := Assembled(data, order)]
  {
    ChunkCount(|data|, 0);
    var start := StoredAll(files, path, data, before);
    StoredInTurn(files, path, data, before, [0]);
    StoredInTurn(files, path, data, before + [0], order);
    assert [0][..0] == [];
    assert StoredAll(start, path, data, [0]) == Stored(start, ChunkOf(path, data, 0), NoFault);
    ReceiverAssembles(start, path, data, order);
    OnlyThatFile(files, path, data, before, Assembled(data, order));
  }
}
