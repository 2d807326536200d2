/** SpeedyTextureReader: reads the RGBA8 pixels of a texture into host
    memory, either synchronously or through pixel buffer objects (PBOs),
    optionally with N buffers that are passed between the GPU (producer)
    and the caller (consumer). The WebGL context is not modelled: a pixel
    read is `ReadRect` of the texture's contents, and the loss of the context
    is a boolean parameter. */
module Readback {
  import opened Texels
  import opened BufferPool

  /** `IllegalArgumentError`: the output buffer is too small for the pixels. */
  datatype Error = IllegalArgument

  datatype Result<T> = Ok(value: T) | Err(error: Error)

  /** The bytes a PBO transfer delivers into an output buffer of `capacity`
      bytes: the PBO is as large as the output buffer and starts zeroed,
      `readPixels` fills its first bytes with the rectangle, and the whole
      PBO is copied out. A buffer shorter than the rectangle's pixels is an
      error. */
  function PboTransfer(capacity: nat, tex: Texture, r: Rect): (res: Result<seq<byte>>)
    requires tex.Valid() && Within(r, tex.width, tex.height)
    ensures res.Ok? <==> ByteSize(r) <= capacity
    ensures res.Ok? ==> |res.value| == capacity
    ensures res.Ok? ==> res.value[..ByteSize(r)] == ReadRect(tex, r)
    ensures res.Ok? ==> forall k :: ByteSize(r) <= k < capacity ==> res.value[k] == 0
  {
    if !(capacity >= ByteSize(r)) then Err(IllegalArgument)
    else Ok(ReadRect(tex, r) + Zeros(capacity - ByteSize(r)))
  }

  /** Where the bytes of a completed transfer end up, as the source does it:
      they are written into the very buffer object that was passed to the
      transfer when it started. A reallocation in between replaces every
      buffer by a longer one, so a buffer whose length no longer matches the
      transfer is not the one written to, and keeps its old bytes. */
  function LandAsWritten(buffer: seq<byte>, bytes: seq<byte>): (after: seq<byte>)
    requires |bytes| <= |buffer|
    ensures |after| == |buffer|
    ensures |bytes| == |buffer| ==> after == Landed(buffer, bytes)
    ensures |bytes| < |buffer| ==> after == buffer
  {
    if |bytes| == |buffer| then bytes else buffer
  }

  /** The corrected completion: the transferred bytes are copied into the
      start of the buffer that now holds the index, whatever its length. */
  function Landed(buffer: seq<byte>, bytes: seq<byte>): (after: seq<byte>)
    requires |bytes| <= |buffer|
    ensures |after| == |buffer|
    ensures after[..|bytes|] == bytes
    ensures forall k :: |bytes| <= k < |buffer| ==> after[k] == buffer[k]
  {
    bytes + buffer[|bytes|..]
  }

  /** A reallocation while a transfer is in flight makes the source drop the
      transferred pixels: a 1x1 read left a 4-byte buffer, a transfer of
      the pixel 0xff 0xff 0xff 0xff started into it, a 2x2 read grew the buffer
      to 16 bytes, and when the transfer completes the buffer the consumer
      will read still starts with zeros. The corrected completion keeps them. */
  lemma TransferLostAfterGrowth()
    ensures var pixel: seq<byte> := [255, 255, 255, 255];
            var grown := Enlarged(Zeros(4), 16);
            && LandAsWritten(grown, pixel)[..4] == Zeros(4)
            && LandAsWritten(grown, pixel)[..4] != pixel
            && Landed(grown, pixel)[..4] == pixel
  {
    var pixel: seq<byte> := [255, 255, 255, 255];
    var grown := Enlarged(Zeros(4), 16);
    assert LandAsWritten(grown, pixel)[..4][0] == 0;
  }

  /** What a read step of `readPixelsAsync` did on the producer side. */
  datatype Production =
    | NoProduction               // lost context or unbuffered read
    | Started(index: nat)        // a transfer into this buffer is in flight
    | AwaitingProducer(rect: Rect) // waits for the producer queue; the transfer of `rect` starts later

  /** What a read step of `readPixelsAsync` hands to the caller. */
  datatype Delivery =
    | Delivered(view: seq<byte>)  // the promise resolves to these bytes
    | AwaitingConsumer(size: nat) // waits for the consumer queue; a view of `size` bytes is handed out later

  function Rest(s: seq<nat>): seq<nat> {
    if s == [] then [] else s[1..]
  }

  function First(s: seq<nat>): seq<nat> {
    if s == [] then [] else [s[0]]
  }

  class SpeedyTextureReader {
    /** The pixel buffers; the array never changes, its slots are replaced. */
    const pixelBuffer: array<seq<byte>>
    /** Indices of buffers the GPU may fill next. */
    var producerQueue: seq<nat>
    /** Indices of buffers whose bytes are ready for the caller. */
    var consumerQueue: seq<nat>
    /** Transfers in flight: buffer index to the bytes the PBO captured. */
    var inFlight: map<nat, seq<byte>>

    ghost predicate Valid()
      reads this, pixelBuffer
    {
      && pixelBuffer.Length > 0
      && Uniform(pixelBuffer[..])
      && Partition(pixelBuffer.Length, producerQueue, consumerQueue, inFlight.Keys)
      && (forall k :: 0 <= k < |producerQueue| ==> producerQueue[k] < pixelBuffer.Length)
      && (forall k :: 0 <= k < |consumerQueue| ==> consumerQueue[k] < pixelBuffer.Length)
      && (forall i :: i in inFlight ==> i < pixelBuffer.Length && |inFlight[i]| <= |pixelBuffer[i]|)
    }

    /** Byte length shared by all buffers. */
    function Capacity(): nat
      reads this, pixelBuffer
      requires Valid()
    {
      |pixelBuffer[0]|
    }

    /** N empty buffers, all of them ready for the consumer: the first
        buffered read hands back a buffer no transfer has written. */
    constructor (numberOfBuffers: nat)
      requires numberOfBuffers > 0
      ensures Valid() && fresh(pixelBuffer)
      ensures pixelBuffer.Length == numberOfBuffers
      ensures forall i :: 0 <= i < numberOfBuffers ==> pixelBuffer[i] == []
      ensures consumerQueue == Indices(numberOfBuffers)
      ensures producerQueue == [] && inFlight == map[]
    {
      pixelBuffer := new seq<byte>[numberOfBuffers](_ => []);
      consumerQueue := Indices(numberOfBuffers);
      producerQueue := [];
      inFlight := map[];
      new;
      InitialPartition(numberOfBuffers);
    }

    /** `_reallocate`: nothing happens when `size` bytes fit; otherwise every
        buffer is replaced by one of exactly `size` bytes that starts with its
        old bytes. */
    method Reallocate(size: nat)
      requires Valid()
      modifies pixelBuffer
      ensures Valid()
      ensures pixelBuffer[..] == Grown(old(pixelBuffer[..]), size)
    {
      if size <= |pixelBuffer[0]| {
        return;
      }
      for i := 0 to pixelBuffer.Length
        invariant forall k :: 0 <= k < i ==> pixelBuffer[k] == Enlarged(old(pixelBuffer[k]), size)
        invariant forall k :: i <= k < pixelBuffer.Length ==> pixelBuffer[k] == old(pixelBuffer[k])
      {
        pixelBuffer[i] := Enlarged(pixelBuffer[i], size);
      }
    }

    /** `readPixelsSync`: clamps the rectangle, grows the buffers, and reads
        the pixels into buffer 0, unless the context is lost, in which case
        buffer 0 is returned as it is. The queues are not touched. */
    method ReadPixelsSync(tex: Texture, x: int, y: int, width: int, height: int, contextLost: bool)
      returns (view: seq<byte>)
      requires Valid() && tex.Valid()
      modifies pixelBuffer
      ensures Valid()
      ensures unchanged(this)
      ensures var r := Clamp(tex.width, tex.height, x, y, width, height);
              var grown := Grown(old(pixelBuffer[..]), ByteSize(r));
              && Capacity() == |grown[0]|
              && |view| == ByteSize(r)
              && pixelBuffer[..][1..] == grown[1..]
              && (contextLost ==> pixelBuffer[0] == grown[0] && view == grown[0][..ByteSize(r)])
              && (!contextLost ==> view == ReadRect(tex, r)
                                   && pixelBuffer[0] == ReadRect(tex, r) + grown[0][ByteSize(r)..])
    {
      var r := Clamp(tex.width, tex.height, x, y, width, height);
      var size := ByteSize(r);
      Reallocate(size);
      if contextLost {
        return Subarray(pixelBuffer[0], size);
      }
      pixelBuffer[0] := ReadRect(tex, r) + pixelBuffer[0][size..];
      view := Subarray(pixelBuffer[0], size);
    }

    /** The start of a buffered transfer: the head of the producer queue goes
        in flight with the bytes the PBO captures now. Waiting for a non-empty
        producer queue is the precondition; the buffers were grown for the
        rectangle when the read was issued, so the size check passes. */
    method StartProduction(tex: Texture, r: Rect) returns (index: nat)
      requires Valid() && tex.Valid() && Within(r, tex.width, tex.height)
      requires ByteSize(r) <= Capacity()
      requires producerQueue != []
      modifies this
      ensures Valid()
      ensures index == old(producerQueue[0])
      ensures producerQueue == old(producerQueue[1..]) && consumerQueue == old(consumerQueue)
      ensures inFlight == old(inFlight)[index := PboTransfer(Capacity(), tex, r).value]
    {
      var transfer := PboTransfer(Capacity(), tex, r);
      index := producerQueue[0];
      StartKeepsPartition(pixelBuffer.Length, producerQueue, consumerQueue, inFlight.Keys);
      assert (inFlight[index := transfer.value]).Keys == inFlight.Keys + {index};
      producerQueue := producerQueue[1..];
      inFlight := inFlight[index := transfer.value];
    }

    /** The completion of a transfer: its bytes land in the buffer, and the
        index is appended to the consumer queue. A transfer that fails never
        completes, and its index stays in flight. */
    method CompleteProduction(index: nat)
      requires Valid() && index in inFlight
      modifies this, pixelBuffer
      ensures Valid()
      ensures index < pixelBuffer.Length
      ensures pixelBuffer[..] == old(pixelBuffer[..])[index := Landed(old(pixelBuffer[index]), old(inFlight[index]))]
      ensures consumerQueue == old(consumerQueue) + [index] && producerQueue == old(producerQueue)
      ensures inFlight == old(inFlight) - {index}
    {
      CompleteKeepsPartition(pixelBuffer.Length, producerQueue, consumerQueue, inFlight.Keys, index);
      assert (inFlight - {index}).Keys == inFlight.Keys - {index};
      pixelBuffer[index] := Landed(pixelBuffer[index], inFlight[index]);
      consumerQueue := consumerQueue + [index];
      inFlight := inFlight - {index};
    }

    /** The completion of a transfer as the source does it: the bytes reach
        the buffer only when it is still the one the transfer was started
        with, which `LandAsWritten` tells by its length; otherwise they are
        lost. The index is appended to the consumer queue either way. */
    method CompleteProductionAsWritten(index: nat)
      requires Valid() && index in inFlight
      modifies this, pixelBuffer
      ensures Valid()
      ensures index < pixelBuffer.Length
      ensures pixelBuffer[..] == old(pixelBuffer[..])[index := LandAsWritten(old(pixelBuffer[index]), old(inFlight[index]))]
      ensures consumerQueue == old(consumerQueue) + [index] && producerQueue == old(producerQueue)
      ensures inFlight == old(inFlight) - {index}
    {
      CompleteKeepsPartition(pixelBuffer.Length, producerQueue, consumerQueue, inFlight.Keys, index);
      assert (inFlight - {index}).Keys == inFlight.Keys - {index};
      pixelBuffer[index] := LandAsWritten(pixelBuffer[index], inFlight[index]);
      consumerQueue := consumerQueue + [index];
      inFlight := inFlight - {index};
    }

    /** The caller's side of a buffered read: the head of the consumer queue
        is handed out as a view of `size` bytes, and only then is the same
        index appended to the producer queue. Waiting for a non-empty
        consumer queue is the precondition. */
    method Consume(size: nat) returns (view: seq<byte>)
      requires Valid() && consumerQueue != []
      modifies this
      ensures Valid()
      ensures old(consumerQueue[0]) < pixelBuffer.Length
      ensures view == Subarray(pixelBuffer[old(consumerQueue[0])], size)
      ensures size <= Capacity() ==> |view| == size
      ensures consumerQueue == old(consumerQueue[1..])
      ensures producerQueue == old(producerQueue) + [old(consumerQueue[0])]
      ensures inFlight == old(inFlight)
    {
      var ready := consumerQueue[0];
      ConsumeKeepsPartition(pixelBuffer.Length, producerQueue, consumerQueue, inFlight.Keys);
      view := Subarray(pixelBuffer[ready], size);
      consumerQueue := consumerQueue[1..];
      producerQueue := producerQueue + [ready];
    }

    /** `readPixelsAsync`, up to its first suspension point. It clamps the
        rectangle and grows the buffers. With a lost context it hands back
        buffer 0 as it is; unbuffered, it reads the rectangle into buffer 0
        through a PBO. Either way the queues are not touched. Buffered, it
        starts a transfer into the head of the producer queue (or leaves it
        waiting) and hands out the head of the consumer queue (or leaves the
        caller waiting). */
    method ReadPixelsAsync(tex: Texture, useBufferedDownloads: bool,
                           x: int, y: int, width: int, height: int, contextLost: bool)
      returns (delivery: Delivery, production: Production)
      requires Valid() && tex.Valid()
      modifies this, pixelBuffer
      ensures Valid()
      ensures var r := Clamp(tex.width, tex.height, x, y, width, height);
              var size := ByteSize(r);
              var grown := Grown(old(pixelBuffer[..]), size);
              && Capacity() == |grown[0]|
              && (delivery.Delivered? ==> |delivery.view| == size)
              && (delivery.AwaitingConsumer? ==> delivery.size == size)
              && (production.AwaitingProducer? ==> production.rect == r)
              && (contextLost || !useBufferedDownloads ==>
                    && delivery.Delivered? && production == NoProduction
                    && producerQueue == old(producerQueue) && consumerQueue == old(consumerQueue)
                    && inFlight == old(inFlight)
                    && pixelBuffer[..][1..] == grown[1..])
              && (!contextLost ==> PboTransfer(|grown[0]|, tex, r).Ok?)
              && (contextLost ==> pixelBuffer[0] == grown[0] && delivery.view == grown[0][..size])
              && (!contextLost && !useBufferedDownloads ==>
                    && delivery.view == ReadRect(tex, r)
                    && pixelBuffer[0] == PboTransfer(|grown[0]|, tex, r).value)
              && (!contextLost && useBufferedDownloads ==>
                    && pixelBuffer[..] == grown
                    && production == (if old(producerQueue) == [] then AwaitingProducer(r)
                                      else Started(old(producerQueue)[0]))
                    && inFlight == (if old(producerQueue) == [] then old(inFlight)
                                    else old(inFlight)[old(producerQueue)[0] := PboTransfer(|grown[0]|, tex, r).value])
                    && delivery == (if old(consumerQueue) == [] then AwaitingConsumer(size)
                                    else Delivered(grown[old(consumerQueue)[0]][..size]))
                    && consumerQueue == Rest(old(consumerQueue))
                    && producerQueue == Rest(old(producerQueue)) + First(old(consumerQueue)))
    {
      var r := Clamp(tex.width, tex.height, x, y, width, height);
      var size := ByteSize(r);
      Reallocate(size);
      if contextLost {
        return Delivered(Subarray(pixelBuffer[0], size)), NoProduction;
      }
      if !useBufferedDownloads {
        var transfer := PboTransfer(Capacity(), tex, r);
        pixelBuffer[0] := Landed(pixelBuffer[0], transfer.value);
        return Delivered(Subarray(pixelBuffer[0], size)), NoProduction;
      }
      if producerQueue != [] {
        var index := StartProduction(tex, r);
        production := Started(index);
      } else {
        production := AwaitingProducer(r);
      }
      if consumerQueue != [] {
        var view := Consume(size);
        delivery := Delivered(view);
      } else {
        delivery := AwaitingConsumer(size);
      }
    }
  }
}
