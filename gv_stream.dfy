// Frame reassembly in the GigE Vision stream thread (arvgvstream.c).
//
// The thread receives one GVSP packet at a time and walks the buffer being
// filled through leader, data block and trailer packets. Socket polling and
// the asynchronous queues are outside the model: the received packets are
// given as a sequence, already classified (the packet accessors of this
// version live in arvgvsp.h, which is not part of this model), and a queue is
// a sequence whose front is popped.
//
// The file has two layers. `Step` and `Cancel` are the reference definition
// of one iteration of the receive loop and of the code after it, on values.
// `StreamThread` is the imperative thread state over mutable `Buffer`
// objects; its methods are proved to follow `Step` and `Cancel`.
module GvStream {
  import opened Common

  datatype BufferStatus = Success | MissingBlock | SizeMismatch | Filling | Aborted

  /** A received packet, classified by arv_gvsp_packet_get_packet_type. */
  datatype Packet =
    | Leader(width: uint32, height: uint32, frameId: nat)
    | Block(blockId: uint16, payload: seq<byte>)
    | Trailer
    | Other

  /** The value of an ArvBuffer: its fixed size, data bytes, status and the
      image fields the leader sets. */
  datatype BufferValue = BufferValue(size: nat, data: seq<byte>, status: BufferStatus,
                                     width: uint32, height: uint32, frameId: nat)

  /** The thread's variables: the buffer being filled, the last block id,
      the write offset, and the contents of the two queues. */
  datatype State = State(buffer: Option<BufferValue>, blockId: uint16, offset: nat,
                         input: seq<BufferValue>, output: seq<BufferValue>)

  predicate WellSized(b: BufferValue) { |b.data| == b.size }

  predicate Inv(s: State)
  {
    (s.buffer.Some? ==> WellSized(s.buffer.value) && s.offset <= s.buffer.value.size)
    && (forall i :: 0 <= i < |s.input| ==> WellSized(s.input[i]))
  }

  /** The memcpy of a block into the buffer at `offset`. */
  function Splice(data: seq<byte>, offset: nat, block: seq<byte>): (r: seq<byte>)
    requires offset + |block| <= |data|
    ensures |r| == |data|
    ensures r[..offset] == data[..offset] && r[offset..offset + |block|] == block
    ensures r[offset + |block|..] == data[offset + |block|..]
  {
    data[..offset] + block + data[offset + |block|..]
  }

  /** One iteration of the receive loop (arvgvstream.c:44-99). */
  function Step(s: State, p: Packet): (r: State)
    requires Inv(s)
  {
    match p
    case Leader(width, height, frameId) =>
      var output := if s.buffer.Some? then s.output + [s.buffer.value] else s.output;
      if |s.input| == 0 then s.(buffer := None, output := output)
      else
        var b := s.input[0];
        State(Some(b.(width := width, height := height, frameId := frameId, status := Filling)),
              0, 0, s.input[1..], output)
    case Block(blockId, payload) =>
      if s.buffer.None? then s
      else
        var b := s.buffer.value;
        var expected := ToU16(s.blockId + 1);
        if blockId != expected then
          s.(buffer := Some(b.(status := MissingBlock)), blockId := blockId)
        else if b.status != Filling then
          s.(blockId := expected)
        else if |payload| + s.offset > b.size then
          s.(buffer := Some(b.(status := SizeMismatch)), blockId := expected)
        else
          var offset := s.offset + |payload|;
          var data := Splice(b.data, s.offset, payload);
          s.(buffer := Some(b.(data := data, status := if offset == b.size then Success else Filling)),
             blockId := expected, offset := offset)
    case Trailer =>
      if s.buffer.None? then s
      else
        var b := s.buffer.value;
        var status := if b.status == Filling then SizeMismatch else b.status;
        s.(buffer := None, output := s.output + [b.(status := status)])
    case Other => s
  }

  /** The code after the loop (arvgvstream.c:103-106). */
  function Cancel(s: State): (r: State)
  {
    if s.buffer.None? then s
    else s.(buffer := None, output := s.output + [s.buffer.value.(status := Aborted)])
  }

  /** The packets processed in order. */
  function Run(s: State, packets: seq<Packet>): (r: State)
    requires Inv(s)
    ensures Inv(r)
    decreases |packets|
  {
    if |packets| == 0 then s
    else
      StepPreservesInv(s, packets[0]);
      Run(Step(s, packets[0]), packets[1..])
  }

  // ---------------------------------------------------------------------
  // Properties of one step

  /** The write offset never passes the end of the buffer, and every buffer
      keeps its size. */
  lemma StepPreservesInv(s: State, p: Packet)
    requires Inv(s)
    ensures Inv(Step(s, p))
  {
  }

  /** No buffer is created or lost: a step only moves buffers between the
      input queue, the thread and the output queue. */
  function Count(s: State): nat
  {
    |s.input| + |s.output| + (if s.buffer.Some? then 1 else 0)
  }

  lemma StepConservesBuffers(s: State, p: Packet)
    requires Inv(s)
    ensures Count(Step(s, p)) == Count(s)
    ensures |Step(s, p).output| >= |s.output| && Step(s, p).output[..|s.output|] == s.output
  {
  }

  /** A leader pushes any buffer in flight, then takes the next input buffer
      and starts it FILLING at offset 0 with block id 0. */
  lemma LeaderStartsBuffer(s: State, width: uint32, height: uint32, frameId: nat)
    requires Inv(s) && |s.input| > 0
    ensures var r := Step(s, Leader(width, height, frameId));
      r.buffer.Some? && r.buffer.value.status == Filling && r.offset == 0 && r.blockId == 0
      && r.buffer.value.width == width && r.buffer.value.height == height
      && r.buffer.value.frameId == frameId
      && r.buffer.value.data == s.input[0].data && r.input == s.input[1..]
      && r.output == s.output + (if s.buffer.Some? then [s.buffer.value] else [])
  {
  }

  /** With no free input buffer the leader leaves the thread without a
      buffer, and the blocks that follow change nothing. */
  lemma LeaderWithoutInputDropsFrame(s: State, width: uint32, height: uint32, frameId: nat, blocks: seq<Packet>)
    requires Inv(s) && |s.input| == 0
    requires forall i :: 0 <= i < |blocks| ==> blocks[i].Block?
    ensures var r := Step(s, Leader(width, height, frameId));
      r.buffer.None? && Run(r, blocks) == r
  {
    var r := Step(s, Leader(width, height, frameId));
    StepPreservesInv(s, Leader(width, height, frameId));
    BlocksWithoutBufferIgnored(r, blocks);
  }

  lemma {:induction false} BlocksWithoutBufferIgnored(s: State, blocks: seq<Packet>)
    requires Inv(s) && s.buffer.None?
    requires forall i :: 0 <= i < |blocks| ==> blocks[i].Block?
    ensures Run(s, blocks) == s
    decreases |blocks|
  {
    if |blocks| > 0 {
      assert Step(s, blocks[0]) == s;
      BlocksWithoutBufferIgnored(s, blocks[1..]);
    }
  }

  /** A block with an unexpected id marks the buffer MISSING_BLOCK (whatever
      its status was) and takes the received id as the new counter. */
  lemma UnexpectedBlockMarksMissing(s: State, blockId: uint16, payload: seq<byte>)
    requires Inv(s) && s.buffer.Some? && blockId != ToU16(s.blockId + 1)
    ensures var r := Step(s, Block(blockId, payload));
      r.buffer == Some(s.buffer.value.(status := MissingBlock)) && r.blockId == blockId
      && r.offset == s.offset && r.output == s.output && r.input == s.input
  {
  }

  /** An expected block that does not fit marks the buffer SIZE_MISMATCH and
      copies nothing. */
  lemma OversizedBlockMarksMismatch(s: State, payload: seq<byte>)
    requires Inv(s) && s.buffer.Some? && s.buffer.value.status == Filling
    requires |payload| + s.offset > s.buffer.value.size
    ensures var r := Step(s, Block(ToU16(s.blockId + 1), payload));
      r.buffer.value.status == SizeMismatch && r.buffer.value.data == s.buffer.value.data
      && r.offset == s.offset
  {
  }

  /** An expected block that fits is copied at the offset, the offset grows
      by its size, and the buffer is SUCCESS exactly when it is full. */
  lemma FittingBlockIsCopied(s: State, payload: seq<byte>)
    requires Inv(s) && s.buffer.Some? && s.buffer.value.status == Filling
    requires |payload| + s.offset <= s.buffer.value.size
    ensures var r := Step(s, Block(ToU16(s.blockId + 1), payload));
      r.offset == s.offset + |payload|
      && r.buffer.value.data[s.offset..r.offset] == payload
      && r.buffer.value.data[..s.offset] == s.buffer.value.data[..s.offset]
      && (r.buffer.value.status == Success <==> r.offset == s.buffer.value.size)
      && (r.buffer.value.status == Filling <==> r.offset < s.buffer.value.size)
  {
  }

  /** A block for a buffer that is no longer FILLING is ignored, apart from
      the block counter. */
  lemma BlockAfterFillingIgnored(s: State, payload: seq<byte>)
    requires Inv(s) && s.buffer.Some? && s.buffer.value.status != Filling
    ensures Step(s, Block(ToU16(s.blockId + 1), payload)) == s.(blockId := ToU16(s.blockId + 1))
  {
  }

  /** A trailer turns a still-FILLING buffer into SIZE_MISMATCH, keeps any
      other status, and pushes the buffer. */
  lemma TrailerPushesBuffer(s: State)
    requires Inv(s) && s.buffer.Some?
    ensures var r := Step(s, Trailer);
      var b := s.buffer.value;
      r.buffer.None? && r.input == s.input
      && r.output == s.output + [b.(status := if b.status == Filling then SizeMismatch else b.status)]
  {
  }

  /** Cancelling with a buffer in flight marks it ABORTED and pushes it. */
  lemma CancelAbortsBuffer(s: State)
    requires s.buffer.Some?
    ensures Cancel(s).buffer.None?
    ensures Cancel(s).output == s.output + [s.buffer.value.(status := Aborted)]
  {
  }

  // ---------------------------------------------------------------------
  // A whole frame

  function Concat(chunks: seq<seq<byte>>): (r: seq<byte>)
  {
    if |chunks| == 0 then [] else Concat(chunks[..|chunks| - 1]) + chunks[|chunks| - 1]
  }

  /** The data blocks of a frame, numbered from 1 as the camera sends them. */
  function BlocksOf(chunks: seq<seq<byte>>): (r: seq<Packet>)
    ensures |r| == |chunks|
    ensures forall i :: 0 <= i < |chunks| ==> r[i] == Block(ToU16(i + 1), chunks[i])
  {
    seq(|chunks|, i requires 0 <= i < |chunks| => Block(ToU16(i + 1), chunks[i]))
  }

  lemma {:induction false} RunAppend(s: State, packets: seq<Packet>, p: Packet)
    requires Inv(s)
    ensures Run(s, packets + [p]) == Step(Run(s, packets), p)
    decreases |packets|
  {
    if |packets| == 0 {
      assert packets + [p] == [p];
    } else {
      StepPreservesInv(s, packets[0]);
      assert (packets + [p])[1..] == packets[1..] + [p];
      RunAppend(Step(s, packets[0]), packets[1..], p);
    }
  }

  /** After a leader, blocks 1, 2, … carrying non-empty chunks whose total
      size is the buffer size reassemble the frame: the buffer holds the
      chunks in order and is SUCCESS. */
  lemma {:induction false} InOrderBlocksReassemble(s: State, chunks: seq<seq<byte>>)
    requires Inv(s) && s.buffer.Some? && s.buffer.value.status == Filling
    requires s.offset == 0 && s.blockId == 0
    requires forall i :: 0 <= i < |chunks| ==> |chunks[i]| > 0
    requires |Concat(chunks)| == s.buffer.value.size && |chunks| > 0
    ensures var r := Run(s, BlocksOf(chunks));
      r.buffer.Some? && r.buffer.value.status == Success && r.buffer.value.data == Concat(chunks)
      && r.input == s.input && r.output == s.output
  {
    PrefixReassembles(s, chunks, |chunks|);
    assert chunks[..|chunks|] == chunks;
    assert BlocksOf(chunks)[..|chunks|] == BlocksOf(chunks);
    assert Run(s, BlocksOf(chunks)).buffer.value.data[..|Concat(chunks)|] == Run(s, BlocksOf(chunks)).buffer.value.data;
  }

  lemma {:induction false} PrefixReassembles(s: State, chunks: seq<seq<byte>>, k: nat)
    requires Inv(s) && s.buffer.Some? && s.buffer.value.status == Filling
    requires s.offset == 0 && s.blockId == 0
    requires forall i :: 0 <= i < |chunks| ==> |chunks[i]| > 0
    requires |Concat(chunks)| == s.buffer.value.size
    requires 0 < |chunks| && k <= |chunks|
    ensures var r := Run(s, BlocksOf(chunks)[..k]);
      PrefixDone(r, s, chunks, k)
    decreases k
  {
    if k == 0 {
      assert BlocksOf(chunks)[..0] == [];
      assert chunks[..0] == [];
    } else {
      var blocks := BlocksOf(chunks);
      PrefixReassembles(s, chunks, k - 1);
      assert blocks[..k] == blocks[..k - 1] + [blocks[k - 1]];
      RunAppend(s, blocks[..k - 1], blocks[k - 1]);
      var q := Run(s, blocks[..k - 1]);
      ConcatPrefixLength(chunks, k);
      NextChunk(q, s, chunks, k);
    }
  }

  /** The state after the first k blocks of a frame: the buffer holds the
      first k chunks, and the counters agree. */
  predicate PrefixDone(r: State, s: State, chunks: seq<seq<byte>>, k: nat)
    requires s.buffer.Some? && k <= |chunks|
  {
    r.buffer.Some? && r.offset == |Concat(chunks[..k])|
    && r.offset <= |r.buffer.value.data|
    && r.buffer.value.data[..r.offset] == Concat(chunks[..k])
    && r.buffer.value.size == s.buffer.value.size == |r.buffer.value.data|
    && r.blockId == ToU16(k)
    && (r.buffer.value.status == Filling <==> k < |chunks|)
    && (k == |chunks| ==> r.buffer.value.status == Success)
    && r.input == s.input && r.output == s.output
  }

  lemma NextChunk(q: State, s: State, chunks: seq<seq<byte>>, k: nat)
    requires s.buffer.Some? && 0 < k <= |chunks|
    requires Inv(q) && PrefixDone(q, s, chunks, k - 1)
    requires |Concat(chunks)| == s.buffer.value.size
    requires |Concat(chunks[..k])| <= |Concat(chunks)|
    requires k < |chunks| ==> |Concat(chunks[..k])| < |Concat(chunks)|
    ensures PrefixDone(Step(q, Block(ToU16(k), chunks[k - 1])), s, chunks, k)
  {
    assert chunks[..k][..k - 1] == chunks[..k - 1];
    assert Concat(chunks[..k]) == Concat(chunks[..k - 1]) + chunks[k - 1];
    assert ToU16(q.blockId + 1) == ToU16(k);
    FittingBlockIsCopied(q, chunks[k - 1]);
    var r := Step(q, Block(ToU16(k), chunks[k - 1]));
    assert r.buffer.value.data[..r.offset]
        == r.buffer.value.data[..q.offset] + r.buffer.value.data[q.offset..r.offset];
    if k == |chunks| {
      assert chunks[..k] == chunks;
    }
  }

  /** The prefix of the chunks fills no more than the whole frame, and strictly
      less while chunks remain. */
  lemma {:induction false} ConcatPrefixLength(chunks: seq<seq<byte>>, k: nat)
    requires k <= |chunks|
    requires forall i :: 0 <= i < |chunks| ==> |chunks[i]| > 0
    ensures |Concat(chunks[..k])| <= |Concat(chunks)|
    ensures k < |chunks| ==> |Concat(chunks[..k])| < |Concat(chunks)|
    decreases |chunks|
  {
    if k < |chunks| {
      var init := chunks[..|chunks| - 1];
      assert init[..k] == chunks[..k];
      assert forall i :: 0 <= i < |init| ==> |init[i]| > 0;
      ConcatPrefixLength(init, k);
    } else {
      assert chunks[..k] == chunks;
    }
  }

  // ---------------------------------------------------------------------
  // The thread, in place

  /** An ArvBuffer: status and image fields the thread updates, and a data
      area of `size` bytes it copies blocks into. */
  class Buffer {
    const size: nat
    const data: array<byte>
    var status: BufferStatus
    var width: uint32
    var height: uint32
    var frameId: nat

    constructor (size: nat)
      ensures this.size == size && data.Length == size && fresh(data)
      ensures status == Filling && width == 0 && height == 0 && frameId == 0
    {
      this.size := size;
      data := new byte[size];
      status := Filling;
      width, height, frameId := 0, 0, 0;
    }
  }

  /** The value a buffer holds. */
  function ValueOf(b: Buffer): BufferValue
    reads b, b.data
  {
    BufferValue(b.size, b.data[..], b.status, b.width, b.height, b.frameId)
  }

  /** The values a queue of buffers holds. */
  ghost function Values(q: seq<Buffer>, repr: set<object>): (r: seq<BufferValue>)
    requires forall i :: 0 <= i < |q| ==> q[i] in repr && q[i].data in repr
    reads repr
    ensures |r| == |q| && forall i :: 0 <= i < |q| ==> r[i] == ValueOf(q[i])
  {
    if |q| == 0 then [] else [ValueOf(q[0])] + Values(q[1..], repr)
  }

  /** Each buffer appears once, owns its data area, and the area has the
      buffer's size. */
  predicate Owned(q: seq<Buffer>)
  {
    (forall i :: 0 <= i < |q| ==> q[i].data.Length == q[i].size)
    && (forall i, j :: 0 <= i < j < |q| ==> q[i] != q[j] && q[i].data != q[j].data)
  }

  /** The buffer at the end of an owned sequence shares neither identity
      nor data area with the others. */
  lemma OwnedLast(a: seq<Buffer>, b: seq<Buffer>, x: Buffer)
    requires Owned(a + b + [x])
    ensures forall i :: 0 <= i < |a| ==> a[i] != x && a[i].data != x.data
    ensures forall i :: 0 <= i < |b| ==> b[i] != x && b[i].data != x.data
    ensures x.data.Length == x.size
  {
    var q := a + b + [x];
    assert forall i :: 0 <= i < |a| ==> a[i] == q[i];
    assert forall i :: 0 <= i < |b| ==> b[i] == q[|a| + i];
    assert x == q[|q| - 1];
  }

  /** Moving the first buffer of an owned sequence to its end keeps it owned. */
  lemma OwnedRotate(y: Buffer, r: seq<Buffer>)
    requires Owned([y] + r)
    ensures Owned(r + [y])
  {
    var q, q' := [y] + r, r + [y];
    forall i | 0 <= i < |q'|
      ensures q'[i] == if i == |r| then q[0] else q[i + 1]
    {
    }
  }

  /** memcpy (data + offset, block, |block|), byte by byte. */
  method CopyBlock(data: array<byte>, offset: nat, block: seq<byte>)
    requires offset + |block| <= data.Length
    modifies data
    ensures data[..] == Splice(old(data[..]), offset, block)
  {
    var i := 0;
    while i < |block|
      invariant 0 <= i <= |block|
      invariant data[..offset] == old(data[..offset])
      invariant data[offset..offset + i] == block[..i]
      invariant data[offset + i..] == old(data[offset + i..])
    {
      data[offset + i] := block[i];
      i := i + 1;
      assert data[offset..offset + i] == data[offset..offset + i - 1] + [data[offset + i - 1]];
    }
    assert data[..] == data[..offset] + data[offset..offset + |block|] + data[offset + |block|..];
  }

  /** The variables of arv_gv_stream_thread and the queues it shares with
      the stream. */
  class StreamThread {
    var buffer: Buffer?
    var blockId: uint16
    var offset: nat
    var inputQueue: seq<Buffer>
    var outputQueue: seq<Buffer>
    ghost var Repr: set<object>

    function Buffers(): seq<Buffer>
      reads this
    {
      inputQueue + outputQueue + (if buffer == null then [] else [buffer])
    }

    /** Each buffer is in one place only, owns its data area, and the write
        offset lies inside the buffer being filled. */
    ghost predicate Valid()
      reads this, Repr
    {
      (forall i :: 0 <= i < |inputQueue| ==> inputQueue[i] in Repr && inputQueue[i].data in Repr)
      && (forall i :: 0 <= i < |outputQueue| ==> outputQueue[i] in Repr && outputQueue[i].data in Repr)
      && (buffer != null ==> buffer in Repr && buffer.data in Repr)
      && this !in Repr
      && Owned(Buffers())
      && (buffer != null ==> offset <= buffer.size)
    }

    /** The thread state as a value. */
    ghost function View(): (s: State)
      requires Valid()
      reads this, Repr
      ensures Inv(s)
    {
      assert forall i :: 0 <= i < |inputQueue| ==> inputQueue[i] == Buffers()[i];
      assert forall i :: 0 <= i < |outputQueue| ==> outputQueue[i] == Buffers()[|inputQueue| + i];
      assert buffer != null ==> buffer == Buffers()[|Buffers()| - 1];
      State(if buffer == null then None else Some(ValueOf(buffer)), blockId, offset,
            Values(inputQueue, Repr), Values(outputQueue, Repr))
    }

    constructor (input: seq<Buffer>)
      requires forall i :: 0 <= i < |input| ==> input[i].data.Length == input[i].size
      requires forall i, j :: 0 <= i < j < |input| ==> input[i] != input[j] && input[i].data != input[j].data
      ensures Valid() && buffer == null && blockId == 0 && offset == 0
      ensures inputQueue == input && outputQueue == []
    {
      buffer := null;
      blockId := 0;
      offset := 0;
      inputQueue := input;
      outputQueue := [];
      Repr := (set i | 0 <= i < |input| :: input[i]) + (set i | 0 <= i < |input| :: input[i].data);
      new;
      assert Buffers() == input;
    }

    /** Sets the status of the buffer in flight; nothing else changes. */
    method SetStatus(status: BufferStatus)
      requires Valid() && buffer != null
      modifies buffer
      ensures Valid()
      ensures View() == old(View()).(buffer := Some(old(View()).buffer.value.(status := status)))
    {
      ghost var inq, outq := inputQueue, outputQueue;
      ghost var inValues, outValues := Values(inq, Repr), Values(outq, Repr);
      OwnedLast(inq, outq, buffer);
      buffer.status := status;
      assert forall i :: 0 <= i < |inq| ==> ValueOf(inq[i]) == inValues[i];
      assert forall i :: 0 <= i < |outq| ==> ValueOf(outq[i]) == outValues[i];
    }

    /** The memcpy into the buffer in flight at the write offset; nothing
        else changes. */
    method CopyPayload(payload: seq<byte>)
      requires Valid() && buffer != null && offset + |payload| <= buffer.size
      modifies buffer.data
      ensures Valid()
      ensures View() == old(View()).(buffer := Some(old(View()).buffer.value.(
                          data := Splice(old(buffer.data[..]), offset, payload))))
    {
      ghost var inq, outq := inputQueue, outputQueue;
      ghost var inValues, outValues := Values(inq, Repr), Values(outq, Repr);
      OwnedLast(inq, outq, buffer);
      CopyBlock(buffer.data, offset, payload);
      assert forall i :: 0 <= i < |inq| ==> ValueOf(inq[i]) == inValues[i];
      assert forall i :: 0 <= i < |outq| ==> ValueOf(outq[i]) == outValues[i];
    }

    /** g_async_queue_push of the buffer in flight, if any. */
    method PushBuffer()
      requires Valid()
      modifies this
      ensures Valid() && Repr == old(Repr) && buffer == null
      ensures View() == old(View()).(buffer := None,
                                     output := old(View()).output
                                               + if old(View()).buffer.Some? then [old(View()).buffer.value] else [])
    {
      if buffer != null {
        ghost var all := Buffers();
        ghost var outValues := Values(outputQueue, Repr);
        ghost var value := ValueOf(buffer);
        outputQueue := outputQueue + [buffer];
        buffer := null;
        assert Buffers() == all;
        assert Values(outputQueue, Repr) == outValues + [value];
      }
    }

    /** Moves the front of the input queue into the thread and resets the
        block id and the write offset (the source resets them after setting
        the image fields; no field read in between depends on them). */
    method PopInput()
      requires Valid() && buffer == null && |inputQueue| > 0
      modifies this
      ensures Valid() && Repr == old(Repr) && buffer != null
      ensures var s := old(View());
        View() == State(Some(s.input[0]), 0, 0, s.input[1..], s.output)
    {
      ghost var rest, done := inputQueue[1..], outputQueue;
      ghost var s0 := View();
      ghost var restValues := Values(rest, Repr);
      assert restValues == s0.input[1..];
      assert Buffers() == [inputQueue[0]] + (rest + done);
      OwnedRotate(inputQueue[0], rest + done);
      buffer := inputQueue[0];
      inputQueue := inputQueue[1..];
      blockId := 0;
      offset := 0;
      assert Buffers() == rest + done + [buffer];
    }

    /** Stores the leader's image fields in the buffer in flight. */
    method SetImage(width: uint32, height: uint32, frameId: nat)
      requires Valid() && buffer != null
      modifies buffer
      ensures Valid()
      ensures View() == old(View()).(buffer := Some(old(View()).buffer.value.(
                          width := width, height := height, frameId := frameId)))
    {
      ghost var inq, outq := inputQueue, outputQueue;
      ghost var inValues, outValues := Values(inq, Repr), Values(outq, Repr);
      OwnedLast(inq, outq, buffer);
      buffer.width := width;
      buffer.height := height;
      buffer.frameId := frameId;
      assert forall i :: 0 <= i < |inq| ==> ValueOf(inq[i]) == inValues[i];
      assert forall i :: 0 <= i < |outq| ==> ValueOf(outq[i]) == outValues[i];
    }

    /** g_async_queue_try_pop of the next buffer, which starts FILLING at
        offset 0 with the leader's image fields. */
    method TakeBuffer(width: uint32, height: uint32, frameId: nat)
      requires Valid() && buffer == null
      modifies this, Repr
      ensures Valid() && Repr == old(Repr)
      ensures var s := old(View());
        View() == if |s.input| == 0 then s
                  else State(Some(s.input[0].(width := width, height := height, frameId := frameId,
                                              status := Filling)),
                             0, 0, s.input[1..], s.output)
    {
      if |inputQueue| != 0 {
        PopInput();
        SetImage(width, height, frameId);
        SetStatus(Filling);
      }
    }

    /** One pass of the receive loop: the switch on the packet type. */
    method Receive(p: Packet)
      requires Valid()
      modifies this, Repr
      ensures Valid() && Repr == old(Repr)
      ensures View() == Step(old(View()), p)
    {
      match p {
        case Leader(width, height, frameId) =>
          PushBuffer();
          TakeBuffer(width, height, frameId);
        case Block(id, payload) => ReceiveBlock(id, payload);
        case Trailer =>
          if buffer != null {
            if buffer.status == Filling {
              SetStatus(SizeMismatch);
            }
            PushBuffer();
          }
        case Other =>
      }
    }

    /** A data block: check the block id, then copy the block if it fits. */
    method ReceiveBlock(id: uint16, payload: seq<byte>)
      requires Valid()
      modifies this, Repr
      ensures Valid() && Repr == old(Repr)
      ensures View() == Step(old(View()), Block(id, payload))
    {
      if buffer != null {
        ghost var s0 := View();
        blockId := ToU16(blockId + 1);
        assert View() == s0.(blockId := blockId);
        if id != blockId {
          SetStatus(MissingBlock);
          blockId := id;
        } else if buffer.status == Filling {
          FillBlock(payload);
        }
      }
    }

    /** The part of a block's handling that applies to a FILLING buffer:
        a block that does not fit marks SIZE_MISMATCH, one that fits is
        copied and advances the offset, and the buffer is SUCCESS once full. */
    method FillBlock(payload: seq<byte>)
      requires Valid() && buffer != null && buffer.status == Filling
      modifies this, Repr
      ensures Valid() && Repr == old(Repr)
      ensures var s, b := old(View()), old(View()).buffer.value;
        View() == if |payload| + s.offset > b.size then s.(buffer := Some(b.(status := SizeMismatch)))
                  else s.(buffer := Some(b.(data := Splice(b.data, s.offset, payload),
                                            status := if s.offset + |payload| == b.size then Success else Filling)),
                          offset := s.offset + |payload|)
    {
      if |payload| + offset > buffer.size {
        SetStatus(SizeMismatch);
      } else {
        CopyPayload(payload);
        ghost var s1 := View();
        offset := offset + |payload|;
        assert View() == s1.(offset := offset);
        if offset == buffer.size {
          SetStatus(Success);
        }
      }
    }

    /** The whole thread: every packet received in order, then the code
        after the loop. */
    method Thread(packets: seq<Packet>)
      requires Valid()
      modifies this, Repr
      ensures Valid() && Repr == old(Repr)
      ensures View() == Cancel(Run(old(View()), packets))
    {
      var i := 0;
      while i < |packets|
        invariant 0 <= i <= |packets|
        invariant Valid() && Repr == old(Repr)
        invariant View() == Run(old(View()), packets[..i])
      {
        RunAppend(old(View()), packets[..i], packets[i]);
        assert packets[..i + 1] == packets[..i] + [packets[i]];
        Receive(packets[i]);
        i := i + 1;
      }
      assert packets[..i] == packets;
      if buffer != null {
        SetStatus(Aborted);
        PushBuffer();
      }
    }
  }
}
