/** Sequences of reads on a SpeedyTextureReader, with what their callers
    get back. The asynchronous continuations of `readPixelsAsync` (a
    transfer that starts once the producer queue is non-empty, a transfer
    that completes, a caller served once the consumer queue is non-empty)
    are the explicit steps StartProduction, CompleteProduction and Consume. */
module ReadbackScenarios {
  import opened Texels
  import opened BufferPool
  import opened Readback

  /** Buffered downloads with one buffer hand back the pixels of the
      previous read: the first read gets the untouched (zeroed) buffer, and
      the second read gets what the first read's transfer captured from
      `before`, not the contents of `after`. */
  method OneCallLatency(before: Texture, after: Texture) returns (first: Delivery, second: Delivery)
    requires before.Valid() && after.Valid()
    requires after.width == before.width && after.height == before.height
    ensures var full := Rect(0, 0, before.width, before.height);
            && first == Delivered(Zeros(ByteSize(full)))
            && second == Delivered(ReadRect(before, full))
  {
    var full := Rect(0, 0, before.width, before.height);
    var size := ByteSize(full);
    ClampKeepsValidRequest(before.width, before.height, full);
    var reader := new SpeedyTextureReader(1);
    assert reader.consumerQueue == [0];
    assert reader.pixelBuffer[..] == [Zeros(0)];

    // first read: buffer 0 is handed out; the transfer waits for it
    var production;
    first, production := reader.ReadPixelsAsync(before, true, 0, 0, before.width, before.height, false);
    GrownZeros(0, size);
    assert reader.pixelBuffer[0] == Zeros(size);
    assert production == AwaitingProducer(full);

    // the waiting transfer starts once buffer 0 is back in the producer queue
    var index := reader.StartProduction(before, production.rect);
    var captured := PboTransfer(size, before, full).value;
    assert captured == ReadRect(before, full) by {
      assert captured == ReadRect(before, full) + Zeros(0);
    }
    assert index == 0 && reader.inFlight[0] == captured;
    reader.CompleteProductionAsWritten(index);
    assert reader.pixelBuffer[0] == ReadRect(before, full);

    // second read: buffer 0 now holds the first read's pixels
    second, production := reader.ReadPixelsAsync(after, true, 0, 0, after.width, after.height, false);
  }

  /** The buffers grow while a transfer is in flight: a 1x1 read starts a
      transfer into buffer 0, a 2x2 read grows the buffers to 16 bytes and
      waits, and when the transfer completes the waiting read is handed a
      16-byte view that starts with the 1x1 read's pixel. */
  method GrowthDuringTransfer(tex: Texture) returns (view: seq<byte>)
    requires tex.Valid() && tex.width >= 2 && tex.height >= 2
    ensures |view| == 16
    ensures view[..4] == ReadRect(tex, Rect(0, 0, 1, 1))
  {
    var small := Rect(0, 0, 1, 1);
    var large := Rect(0, 0, 2, 2);
    ClampKeepsValidRequest(tex.width, tex.height, small);
    ClampKeepsValidRequest(tex.width, tex.height, large);
    var reader := new SpeedyTextureReader(1);
    assert reader.consumerQueue == [0];

    var first, production := reader.ReadPixelsAsync(tex, true, 0, 0, 1, 1, false);
    var index := reader.StartProduction(tex, production.rect);
    assert reader.inFlight[index] == ReadRect(tex, small) by {
      assert PboTransfer(4, tex, small).value == ReadRect(tex, small) + Zeros(0);
    }

    var second, later := reader.ReadPixelsAsync(tex, true, 0, 0, 2, 2, false);
    assert second == AwaitingConsumer(16);
    reader.CompleteProduction(index);
    view := reader.Consume(second.size);
  }

  /** Growing one zeroed buffer gives one zeroed buffer. */
  lemma GrownZeros(m: nat, n: nat)
    ensures Grown([Zeros(m)], n) == [Zeros(Max(m, n))]
  {
    if m < n {
      assert Enlarged(Zeros(m), n) == Zeros(n);
    }
  }

  lemma ZerosPrefix(n: nat, m: nat)
    requires m <= n
    ensures Zeros(n)[..m] == Zeros(m)
  {
  }

  /** The same reads with the completion as the source does it: the
      transfer of the 1x1 read was started into the 4-byte buffer, the 2x2
      read replaced that buffer by a 16-byte one, so the waiting read is
      handed a view that starts with zeros and the pixel is lost. */
  method GrowthDuringTransferAsWritten(tex: Texture) returns (view: seq<byte>)
    requires tex.Valid() && tex.width >= 2 && tex.height >= 2
    ensures |view| == 16
    ensures view[..4] == Zeros(4)
    ensures ReadRect(tex, Rect(0, 0, 1, 1)) != Zeros(4) ==> view[..4] != ReadRect(tex, Rect(0, 0, 1, 1))
  {
    var small := Rect(0, 0, 1, 1);
    var large := Rect(0, 0, 2, 2);
    ClampKeepsValidRequest(tex.width, tex.height, small);
    ClampKeepsValidRequest(tex.width, tex.height, large);
    var reader := new SpeedyTextureReader(1);
    assert reader.consumerQueue == [0];
    assert reader.pixelBuffer[..] == [Zeros(0)];

    var first, production := reader.ReadPixelsAsync(tex, true, 0, 0, 1, 1, false);
    GrownZeros(0, 4);
    var index := reader.StartProduction(tex, production.rect);
    assert |reader.inFlight[index]| == 4;

    var second, later := reader.ReadPixelsAsync(tex, true, 0, 0, 2, 2, false);
    assert second == AwaitingConsumer(16);
    GrownZeros(4, 16);
    assert reader.pixelBuffer[0] == Zeros(16);
    assert index == 0 && |reader.inFlight[0]| < |reader.pixelBuffer[0]|;
    reader.CompleteProductionAsWritten(index);
    assert reader.pixelBuffer[0] == Zeros(16);
    view := reader.Consume(second.size);
    assert view == Zeros(16);
    ZerosPrefix(16, 4);
  }
}
