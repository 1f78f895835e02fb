// The Metal 4 renderer's instance-buffer bookkeeping: a pool of equally
// sized buffers reused last-in first-out, and the per-frame placement of
// each batch's instance data at 256-byte aligned offsets of one buffer.
//
// Buffers are identified by an opaque id; the device call that creates a
// new buffer is represented by the `created` id handed to `Acquire`. What is
// uploaded, bound and drawn is left out: a batch is described by the byte
// lengths of its uploads.
module Metal4Renderer {

  /** Size of every buffer a new pool hands out: 2 MiB. */
  const PoolBufferSize: nat := 2 * 1024 * 1024

  /** Offsets into an instance buffer are rounded up to this. */
  const OffsetAlignment: nat := 256

  type BufferId = int

  datatype InstanceBuffer = InstanceBuffer(buffer: BufferId, size: nat)

  class InstanceBufferPool {
    var bufferSize: nat
    var free: seq<BufferId>

    /** `InstanceBufferPool::new`. */
    constructor()
      ensures bufferSize == PoolBufferSize && free == []
    {
      bufferSize := PoolBufferSize;
      free := [];
    }

    /**
     * `acquire`: the most recently released buffer if there is one,
     * otherwise the newly created `created`; either way of the pool's size.
     */
    method Acquire(created: BufferId) returns (b: InstanceBuffer)
      modifies this`free
      ensures b.size == bufferSize
      ensures old(free) == [] ==> b.buffer == created && free == []
      ensures old(free) != [] ==>
        && b.buffer == old(free)[|old(free)| - 1]
        && free == old(free)[..|old(free)| - 1]
    {
      if free != [] {
        b := InstanceBuffer(free[|free| - 1], bufferSize);
        free := free[..|free| - 1];
      } else {
        b := InstanceBuffer(created, bufferSize);
      }
    }

    /** `release`: only a buffer of the pool's size is kept for reuse. */
    method Release(b: InstanceBuffer)
      modifies this`free
      ensures b.size == bufferSize ==> free == old(free) + [b.buffer]
      ensures b.size != bufferSize ==> free == old(free)
    {
      if b.size == bufferSize {
        free := free + [b.buffer];
      }
    }
  }

  // ------------------------------------------------------------ offsets

  /** `align_offset`: the least multiple of 256 not below `offset`. */
  function AlignOffset(offset: nat): (r: nat)
    ensures r % OffsetAlignment == 0
    ensures offset <= r < offset + OffsetAlignment
  {
    (offset + 255) / 256 * 256
  }

  /** Aligning twice is aligning once. */
  lemma AlignOffsetIdempotent(offset: nat)
    ensures AlignOffset(AlignOffset(offset)) == AlignOffset(offset)
  {
    var a := AlignOffset(offset);
    assert a == a / 256 * 256;
    assert (a + 255) / 256 == a / 256;
  }

  /** A batch as the draw loop sees it: the byte lengths of its uploads. */
  datatype Batch =
      /**
       * Quads, underlines and monochrome sprites: one upload; skipped when
       * empty, and the whole pass stops when it does not fit.
       */
    | Instances(bytes: nat)
      /**
       * Paths: the vertex upload and then the sprite upload; each one is
       * skipped when it does not fit.
       */
    | PathUploads(uploads: seq<nat>)
      /**
       * Surfaces: one upload of `bytes` per surface; the first that does
       * not fit ends this batch only.
       */
    | SurfaceUploads(count: nat, bytes: nat)
      /** Shadows and polychrome sprites: nothing is uploaded. */
    | Unported

  /** Where one upload went. */
  datatype Placement = Placement(batch: nat, start: nat, length: nat)

  /** The aligned offset the next upload would start at. */
  function Frontier(placed: seq<Placement>): nat {
    if placed == [] then 0 else AlignOffset(placed[|placed| - 1].start + placed[|placed| - 1].length)
  }

  /**
   * Each upload starts at the aligned end of the one before (the first at
   * 0), ends inside the buffer, and belongs to the same batch as the one
   * before or a later one.
   */
  predicate Packed(placed: seq<Placement>, bufferSize: nat)
    decreases |placed|
  {
    if placed == [] then true
    else
      var init := placed[..|placed| - 1];
      var p := placed[|placed| - 1];
      && Packed(init, bufferSize)
      && p.start == Frontier(init) && p.start + p.length <= bufferSize
      && (init != [] ==> init[|init| - 1].batch <= p.batch)
  }

  /** Appending an upload at the frontier keeps the uploads packed. */
  lemma PackedSnoc(placed: seq<Placement>, bufferSize: nat, p: Placement)
    requires Packed(placed, bufferSize)
    requires p.start == Frontier(placed) && p.start + p.length <= bufferSize
    requires placed != [] ==> placed[|placed| - 1].batch <= p.batch
    ensures Packed(placed + [p], bufferSize)
  {
    assert (placed + [p])[..|placed|] == placed;
  }

  /** In packed uploads every start is aligned and every upload fits. */
  lemma {:induction false} PackedAligned(placed: seq<Placement>, bufferSize: nat)
    requires Packed(placed, bufferSize)
    ensures forall i | 0 <= i < |placed| ::
      placed[i].start % OffsetAlignment == 0 && placed[i].start + placed[i].length <= bufferSize
    decreases |placed|
  {
    if placed != [] {
      var init := placed[..|placed| - 1];
      PackedAligned(init, bufferSize);
      assert forall i | 0 <= i < |init| :: placed[i] == init[i];
    }
  }

  /** Packed uploads never overlap, and batches come in order. */
  lemma {:induction false} PackedDisjoint(placed: seq<Placement>, bufferSize: nat, i: nat, j: nat)
    requires Packed(placed, bufferSize) && i < j < |placed|
    ensures placed[i].start + placed[i].length <= placed[j].start
    ensures placed[i].batch <= placed[j].batch
    decreases |placed|
  {
    var init := placed[..|placed| - 1];
    if j < |placed| - 1 {
      PackedDisjoint(init, bufferSize, i, j);
      assert init[i] == placed[i] && init[j] == placed[j];
    } else if i < |init| - 1 {
      PackedDisjoint(init, bufferSize, i, |init| - 1);
      assert init[i] == placed[i] && init[|init| - 1] == placed[|placed| - 2];
    } else {
      assert init[|init| - 1] == placed[i];
    }
  }

  /** Some upload of batch `b` had exactly `bytes` bytes. */
  predicate Uploaded(placed: seq<Placement>, b: nat, bytes: nat) {
    exists i | 0 <= i < |placed| :: placed[i].batch == b && placed[i].length == bytes
  }

  lemma UploadedExtend(placed: seq<Placement>, extra: seq<Placement>, b: nat, bytes: nat)
    requires Uploaded(placed, b, bytes)
    ensures Uploaded(placed + extra, b, bytes)
  {
    var i :| 0 <= i < |placed| && placed[i].batch == b && placed[i].length == bytes;
    assert (placed + extra)[i] == placed[i];
  }

  /** The last upload belongs to batch `b` or an earlier one. */
  predicate LastAtMost(placed: seq<Placement>, b: nat) {
    placed != [] ==> placed[|placed| - 1].batch <= b
  }

  /**
   * One upload: the offset is aligned, and the upload is placed there and
   * the offset moved past it only if it fits in the buffer.
   */
  method PlaceUpload(placed0: seq<Placement>, offset0: nat, b: nat, bytes: nat, bufferSize: nat)
    returns (placed: seq<Placement>, offset: nat, fits: bool)
    requires Packed(placed0, bufferSize) && AlignOffset(offset0) == Frontier(placed0) && LastAtMost(placed0, b)
    ensures Packed(placed, bufferSize) && AlignOffset(offset) == Frontier(placed) && LastAtMost(placed, b)
    ensures fits <==> AlignOffset(offset0) + bytes <= bufferSize
    ensures fits ==> placed == placed0 + [Placement(b, AlignOffset(offset0), bytes)]
    ensures !fits ==> placed == placed0
  {
    offset := AlignOffset(offset0);
    AlignOffsetIdempotent(offset0);
    fits := offset + bytes <= bufferSize;
    if fits {
      PackedSnoc(placed0, bufferSize, Placement(b, offset, bytes));
      placed := placed0 + [Placement(b, offset, bytes)];
      offset := offset + bytes;
    } else {
      placed := placed0;
    }
  }

  /**
   * The path batch's uploads: each is placed if it fits and skipped
   * otherwise, the offset being aligned before each either way.
   */
  method PlacePathUploads(placed0: seq<Placement>, offset0: nat, b: nat, uploads: seq<nat>, bufferSize: nat)
    returns (placed: seq<Placement>, offset: nat)
    requires Packed(placed0, bufferSize) && AlignOffset(offset0) == Frontier(placed0) && LastAtMost(placed0, b)
    ensures Packed(placed, bufferSize) && AlignOffset(offset) == Frontier(placed) && LastAtMost(placed, b)
    ensures |placed0| <= |placed| <= |placed0| + |uploads| && placed[..|placed0|] == placed0
  {
    placed, offset := placed0, offset0;
    var k := 0;
    while k < |uploads|
      invariant k <= |uploads| && |placed0| <= |placed| <= |placed0| + k
      invariant Packed(placed, bufferSize) && AlignOffset(offset) == Frontier(placed) && LastAtMost(placed, b)
      invariant placed[..|placed0|] == placed0
    {
      ghost var prev := placed;
      var fits;
      placed, offset, fits := PlaceUpload(placed, offset, b, uploads[k], bufferSize);
      assert placed[..|placed0|] == prev[..|placed0|];
      k := k + 1;
    }
  }

  /** The surface batch: one upload per surface until one does not fit. */
  method PlaceSurfaces(placed0: seq<Placement>, offset0: nat, b: nat, count: nat, bytes: nat, bufferSize: nat)
    returns (placed: seq<Placement>, offset: nat)
    requires Packed(placed0, bufferSize) && AlignOffset(offset0) == Frontier(placed0) && LastAtMost(placed0, b)
    ensures Packed(placed, bufferSize) && AlignOffset(offset) == Frontier(placed) && LastAtMost(placed, b)
    ensures |placed0| <= |placed| <= |placed0| + count && placed[..|placed0|] == placed0
    ensures |placed| < |placed0| + count ==> Frontier(placed) + bytes > bufferSize
  {
    placed, offset := placed0, offset0;
    var k := 0;
    while k < count
      invariant k <= count && |placed| == |placed0| + k
      invariant Packed(placed, bufferSize) && AlignOffset(offset) == Frontier(placed) && LastAtMost(placed, b)
      invariant placed[..|placed0|] == placed0
    {
      ghost var prev := placed;
      var fits;
      placed, offset, fits := PlaceUpload(placed, offset, b, bytes, bufferSize);
      if !fits {
        break;
      }
      assert placed[..|placed0|] == prev[..|placed0|];
      k := k + 1;
    }
  }

  /**
   * One pass of the batch loop: `stop` when an instance batch does not
   * fit, which ends the pass.
   */
  method PlaceBatch(placed0: seq<Placement>, offset0: nat, b: nat, batch: Batch, bufferSize: nat)
    returns (placed: seq<Placement>, offset: nat, stop: bool)
    requires Packed(placed0, bufferSize) && AlignOffset(offset0) == Frontier(placed0) && LastAtMost(placed0, b)
    ensures Packed(placed, bufferSize) && AlignOffset(offset) == Frontier(placed) && LastAtMost(placed, b)
    ensures |placed0| <= |placed| && placed == placed0 + placed[|placed0|..]
    ensures stop <==> batch.Instances? && batch.bytes > 0 && Frontier(placed0) + batch.bytes > bufferSize
    ensures stop ==> placed == placed0
    ensures !stop && batch.Instances? && batch.bytes > 0 ==> Uploaded(placed, b, batch.bytes)
  {
    placed, offset, stop := placed0, offset0, false;
    match batch {
      case Instances(bytes) =>
        if bytes > 0 {
          var fits;
          placed, offset, fits := PlaceUpload(placed, offset, b, bytes, bufferSize);
          stop := !fits;
          if fits {
            assert placed[|placed| - 1].batch == b && placed[|placed| - 1].length == bytes;
          }
        }
      case PathUploads(uploads) =>
        placed, offset := PlacePathUploads(placed, offset, b, uploads, bufferSize);
      case SurfaceUploads(count, bytes) =>
        placed, offset := PlaceSurfaces(placed, offset, b, count, bytes, bufferSize);
      case Unported =>
    }
  }

  /**
   * The batch loop of `draw`: where each upload of each batch goes in a
   * buffer of `bufferSize` bytes. `processed` batches were handled before
   * the loop stopped; if it stopped early, it was at a non-empty instance
   * batch that did not fit. Every non-empty instance batch before that
   * point was uploaded whole.
   */
  method PlaceBatches(batches: seq<Batch>, bufferSize: nat) returns (placed: seq<Placement>, processed: nat)
    ensures Packed(placed, bufferSize)
    ensures processed <= |batches|
    ensures forall i | 0 <= i < |placed| :: placed[i].batch < processed
    ensures processed < |batches| ==>
      && batches[processed].Instances? && batches[processed].bytes > 0
      && Frontier(placed) + batches[processed].bytes > bufferSize
    ensures forall b | 0 <= b < processed && batches[b].Instances? && batches[b].bytes > 0 ::
      Uploaded(placed, b, batches[b].bytes)
  {
    placed := [];
    var offset: nat := 0;
    processed := 0;
    while processed < |batches|
      invariant processed <= |batches|
      invariant Packed(placed, bufferSize) && AlignOffset(offset) == Frontier(placed)
      invariant placed != [] ==> placed[|placed| - 1].batch < processed
      invariant forall b | 0 <= b < processed && batches[b].Instances? && batches[b].bytes > 0 ::
        Uploaded(placed, b, batches[b].bytes)
    {
      var before := placed;
      var stop;
      placed, offset, stop := PlaceBatch(placed, offset, processed, batches[processed], bufferSize);
      if stop {
        break;
      }
      forall b | 0 <= b < processed && batches[b].Instances? && batches[b].bytes > 0
        ensures Uploaded(placed, b, batches[b].bytes)
      {
        UploadedExtend(before, placed[|before|..], b, batches[b].bytes);
      }
      processed := processed + 1;
    }
    forall i | 0 <= i < |placed|
      ensures placed[i].batch < processed
    {
      if i < |placed| - 1 {
        PackedDisjoint(placed, bufferSize, i, |placed| - 1);
      }
    }
  }

  /**
   * One frame's uploads: a new pool's buffer, the batches placed in it,
   * and the buffer handed back.
   */
  method DrawUploads(batches: seq<Batch>, created: BufferId) returns (placed: seq<Placement>, processed: nat)
    ensures Packed(placed, PoolBufferSize)
    ensures processed < |batches| ==>
      batches[processed].Instances? && Frontier(placed) + batches[processed].bytes > PoolBufferSize
  {
    var pool := new InstanceBufferPool();
    var inst := pool.Acquire(created);
    placed, processed := PlaceBatches(batches, inst.size);
    pool.Release(inst);
  }
}
