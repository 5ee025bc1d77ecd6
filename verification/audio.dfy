/**
 * gambaterm/audio.py: AudioOut packs the resampled stereo stream into blocks
 * of 800 frames, lowers each completed block's volume, and offers it to a
 * queue of at most six blocks that the sound device's callback drains. The
 * resampler is not part of this model: `Send` takes the frames it produced.
 */
module Audio {

  /** `int(48000.0 // 60)`: frames per block, one sixtieth of a second at 48 kHz. */
  const BufferSize: nat := 800

  /** `Queue(maxsize=6)`: 100 ms of audio. */
  const QueueCapacity: nat := 6

  /** A signed 16-bit sample. */
  type Sample = x: int | -0x8000 <= x < 0x8000

  /** One stereo frame, a row of the (n, 2) int16 array. */
  datatype Frame = Frame(left: Sample, right: Sample)

  const Silence: Frame := Frame(0, 0)

  /** `//= 4` on one frame: floor division, which Dafny's `/` is for a positive divisor. */
  function Attenuate(f: Frame): (r: Frame)
    ensures 4 * r.left <= f.left < 4 * r.left + 4
    ensures 4 * r.right <= f.right < 4 * r.right + 4
  {
    Frame(f.left / 4, f.right / 4)
  }

  /** A block with every frame attenuated. */
  function AttenuateAll(fs: seq<Frame>): (r: seq<Frame>)
    ensures |r| == |fs|
    ensures forall i :: 0 <= i < |fs| ==> r[i] == Attenuate(fs[i])
  {
    seq(|fs|, i requires 0 <= i < |fs| => Attenuate(fs[i]))
  }

  /** The completed blocks of a stream: every full run of 800 frames, in order, attenuated. */
  function Blocks(stream: seq<Frame>): (r: seq<seq<Frame>>)
    ensures |r| == |stream| / BufferSize
    ensures forall k :: 0 <= k < |r| ==> k * BufferSize + BufferSize <= |stream|
    ensures forall k :: 0 <= k < |r| ==> r[k] == AttenuateAll(stream[k * BufferSize..k * BufferSize + BufferSize])
  {
    seq(|stream| / BufferSize, k requires 0 <= k < |stream| / BufferSize =>
      AttenuateAll(stream[k * BufferSize..k * BufferSize + BufferSize]))
  }

  /** `put_nowait`, with the Full exception swallowed: the block is dropped when the queue is full. */
  function Push(q: seq<seq<Frame>>, b: seq<Frame>): seq<seq<Frame>>
  {
    if |q| < QueueCapacity then q + [b] else q
  }

  /** Offering the blocks one after the other. */
  function Offer(q: seq<seq<Frame>>, bs: seq<seq<Frame>>): seq<seq<Frame>>
  {
    if bs == [] then q else Push(Offer(q, bs[..|bs| - 1]), bs[|bs| - 1])
  }

  function Min(a: int, b: int): int
  {
    if a < b then a else b
  }

  /** The queue keeps what it held and accepts the first blocks that fit; the rest are dropped. */
  lemma {:induction false} OfferKeepsFirst(q: seq<seq<Frame>>, bs: seq<seq<Frame>>)
    requires |q| <= QueueCapacity
    ensures Offer(q, bs) == q + bs[..Min(|bs|, QueueCapacity - |q|)]
    ensures |Offer(q, bs)| <= QueueCapacity
  {
    if bs != [] {
      var init := bs[..|bs| - 1];
      OfferKeepsFirst(q, init);
      if |bs| <= QueueCapacity - |q| {
        assert bs[..|bs|] == init + [bs[|bs| - 1]];
      } else {
        assert init[..Min(|init|, QueueCapacity - |q|)] == bs[..Min(|bs|, QueueCapacity - |q|)];
      }
    }
  }

  /** Sending fewer frames than complete a block completes nothing. */
  lemma NothingCompleted(pending: seq<Frame>, q: seq<seq<Frame>>)
    requires |pending| < BufferSize
    ensures Blocks(pending) == [] && Offer(q, Blocks(pending)) == q
  {
  }

  /** One more block completes when the pending frames and the rest of the data reach 800. */
  lemma {:induction false} StreamStep(stream: seq<Frame>, done: nat, filled: seq<Frame>, rest: seq<Frame>)
    requires done * BufferSize + |filled| + |rest| == |stream|
    requires filled + rest == stream[done * BufferSize..]
    requires |filled| < BufferSize <= |filled| + |rest|
    ensures (done + 1) * BufferSize + |rest| - (BufferSize - |filled|) == |stream|
    ensures done < |Blocks(stream)|
    ensures Blocks(stream)[done] == AttenuateAll(filled + rest[..BufferSize - |filled|])
    ensures rest[BufferSize - |filled|..] == stream[(done + 1) * BufferSize..]
  {
    var at := done * BufferSize;
    assert (done + 1) * BufferSize == at + BufferSize;
    assert |stream| / BufferSize >= done + 1;
    assert (filled + rest)[..BufferSize] == filled + rest[..BufferSize - |filled|];
    assert stream[at..][..BufferSize] == stream[at..at + BufferSize];
    assert stream[at..][BufferSize..] == stream[at + BufferSize..];
    assert (filled + rest)[BufferSize..] == rest[BufferSize - |filled|..];
  }

  /** Fewer than 800 frames remain: no further block, and they are the stream's tail. */
  lemma {:induction false} StreamEnd(stream: seq<Frame>, done: nat, filled: seq<Frame>, rest: seq<Frame>)
    requires done * BufferSize + |filled| + |rest| == |stream|
    requires filled + rest == stream[done * BufferSize..]
    requires |filled| + |rest| < BufferSize
    ensures |Blocks(stream)| == done
    ensures Blocks(stream)[..done] == Blocks(stream)
    ensures |stream| % BufferSize == |filled| + |rest|
    ensures filled + rest == stream[|stream| - (|filled| + |rest|)..]
  {
  }

  /** Offering one more block of a sequence pushes it. */
  lemma {:induction false} OfferStep(q: seq<seq<Frame>>, bs: seq<seq<Frame>>, n: nat)
    requires n < |bs|
    ensures Offer(q, bs[..n + 1]) == Push(Offer(q, bs[..n]), bs[n])
  {
    assert bs[..n + 1][..n] == bs[..n];
  }

  /**
   * AudioOut. `blocks` is the contents of the queued arrays, oldest first;
   * `buffer[..offset]` holds the frames of the block being filled.
   */
  class AudioOut {
    var buffer: array<Frame>
    var offset: nat
    var queue: seq<array<Frame>>
    ghost var blocks: seq<seq<Frame>>

    ghost predicate Valid()
      reads this, buffer, queue
    {
      buffer.Length == BufferSize && offset < BufferSize
      && (forall i :: offset <= i < BufferSize ==> buffer[i] == Silence)
      && QueueValid()
    }

    /** The queue holds at most six blocks, none of them the buffer being filled. */
    ghost predicate QueueValid()
      reads this, queue
    {
      |queue| == |blocks| <= QueueCapacity
      && (forall j :: 0 <= j < |queue| ==>
            queue[j] != buffer && queue[j].Length == BufferSize && queue[j][..] == blocks[j])
    }

    /** `__init__`: an empty queue and an all-zero buffer. */
    constructor()
      ensures Valid() && fresh(buffer)
      ensures offset == 0 && queue == [] && blocks == []
    {
      buffer := new Frame[BufferSize](_ => Silence);
      offset := 0;
      queue := [];
      blocks := [];
    }

    /** `self.buffer[self.offset:stop] = data[:stop - self.offset]`. */
    method Write(rest: seq<Frame>) returns (stop: nat)
      requires buffer.Length == BufferSize && offset < BufferSize
      modifies buffer
      ensures rest != [] ==> offset < stop
      ensures stop == Min(BufferSize, offset + |rest|)
      ensures buffer[..stop] == old(buffer[..offset]) + rest[..stop - offset]
      ensures buffer[stop..] == old(buffer[stop..])
    {
      stop := Min(BufferSize, offset + |rest|);
      forall i | offset <= i < stop {
        buffer[i] := rest[i - offset];
      }
      assert buffer[..stop] == old(buffer[..offset]) + rest[..stop - offset];
    }

    /** A full buffer: lower its volume, offer it to the queue, start a new one. */
    method Complete()
      requires QueueValid() && buffer.Length == BufferSize
      modifies this, buffer
      ensures QueueValid() && fresh(buffer) && buffer.Length == BufferSize && offset == old(offset)
      ensures forall i :: 0 <= i < BufferSize ==> buffer[i] == Silence
      ensures blocks == Push(old(blocks), AttenuateAll(old(buffer[..])))
      ensures old(queue) <= queue
    {
      forall i | 0 <= i < BufferSize {
        buffer[i] := Attenuate(buffer[i]);
      }
      assert buffer[..] == AttenuateAll(old(buffer[..]));
      if |queue| < QueueCapacity {
        queue := queue + [buffer];
        blocks := blocks + [buffer[..]];
      }
      buffer := new Frame[BufferSize](_ => Silence);
    }

    /** The frames of the block being filled. */
    ghost function Pending(): seq<Frame>
      reads this, buffer
      requires offset <= buffer.Length
    {
      buffer[..offset]
    }

    /**
     * One pass of the loop in `send`: copy what fits into the buffer; if it
     * is full, complete it and hand back the frames that did not fit.
     */
    method Step(rest: seq<Frame>) returns (remaining: seq<Frame>, finished: bool)
      requires Valid()
      modifies this, buffer
      ensures Valid() && old(queue) <= queue
      ensures buffer == old(buffer) || fresh(buffer)
      ensures finished <==> |old(Pending()) + rest| < BufferSize
      ensures finished ==> Pending() == old(Pending()) + rest && blocks == old(blocks) && buffer == old(buffer)
      ensures !finished ==>
                remaining == rest[BufferSize - old(offset)..] && offset == 0
                && blocks == Push(old(blocks), AttenuateAll(old(Pending()) + rest[..BufferSize - old(offset)]))
    {
      var stop := Write(rest);
      if stop != BufferSize {
        offset := stop;
        return rest, true;
      }
      assert buffer[..] == buffer[..stop];
      Complete();
      remaining := rest[stop - offset..];
      offset := 0;
      finished := false;
    }

    /**
     * `send`: the stream is the frames already in the buffer followed by `data`.
     * Every completed block is offered to the queue; the rest stays in the buffer.
     */
    method Send(data: seq<Frame>)
      requires Valid()
      modifies this, buffer
      ensures Valid()
      ensures var stream := old(buffer[..offset]) + data;
              blocks == Offer(old(blocks), Blocks(stream))
              && offset == |stream| % BufferSize
              && buffer[..offset] == stream[|stream| - offset..]
      ensures old(offset) + |data| == BufferSize * |Blocks(old(buffer[..offset]) + data)| + offset
      ensures old(queue) <= queue
      ensures data == [] ==> blocks == old(blocks) && offset == old(offset) && buffer == old(buffer)
    {
      ghost var stream := Pending() + data;
      ghost var done := 0;
      var rest := data;
      while true
        invariant Valid()
        invariant done * BufferSize + offset + |rest| == |stream|
        invariant Pending() + rest == stream[done * BufferSize..]
        invariant blocks == Offer(old(blocks), Blocks(stream)[..done])
        invariant old(queue) <= queue
        invariant buffer == old(buffer) || fresh(buffer)
        invariant done == 0 ==> buffer == old(buffer) && rest == data
        decreases |rest|
      {
        ghost var filled := Pending();
        var remaining, finished := Step(rest);
        if finished {
          StreamEnd(stream, done, filled, rest);
          return;
        }
        StreamStep(stream, done, filled, rest);
        OfferStep(old(blocks), Blocks(stream), done);
        rest := remaining;
        done := done + 1;
      }
    }

    /** `stream_callback`: the oldest queued block, or silence when the queue is empty. */
    method StreamCallback(output: array<Frame>)
      requires Valid() && output.Length == BufferSize
      requires output != buffer && output !in queue
      modifies this, output
      ensures Valid() && buffer == old(buffer) && offset == old(offset)
      ensures old(blocks) == [] ==> output[..] == seq(BufferSize, _ => Silence) && blocks == []
      ensures old(blocks) != [] ==> output[..] == old(blocks[0]) && blocks == old(blocks[1..])
    {
      if queue == [] {
        forall i | 0 <= i < BufferSize {
          output[i] := Silence;
        }
      } else {
        var block := queue[0];
        forall i | 0 <= i < BufferSize {
          output[i] := block[i];
        }
        assert output[..] == block[..];
        queue := queue[1..];
        blocks := blocks[1..];
      }
    }
  }
}
