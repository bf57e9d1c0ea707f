/** Concrete runs of the transmit buffer at its capacity boundary. The free
    space of an enqueue is the capacity minus the occupancy, so a write can
    fill every slot; the cursors then coincide and the occupancy reads zero. */
module UsartTxScenarios {
  import opened TxArith
  import opened UsartTx

  /** Eight slots: five bytes are accepted in full, then only the three free
      slots of a six-byte request, after which the occupancy reads zero
      although all eight accepted bytes are still waiting. */
  method ExactFillReadsEmpty() returns (first: nat, second: nat, pendingAfter: nat, ghost waiting: nat)
    ensures first == 5 && second == 3 && pendingAfter == 0
    ensures waiting == 8
  {
    var ring := new TxBuffer.Setup(8);
    first := ring.UsartWriteDma([1, 2, 3, 4, 5], 5);
    second := ring.UsartWriteDma([6, 7, 8, 9, 10, 11], 6);
    pendingAfter := ring.NInBuff();
    waiting := |ring.written| - |ring.emitted|;
  }

  /** The ring of the previous run after its two writes: all eight slots
      hold queued bytes, the cursors are both at slot 0, and the run of
      slots 0 to 4 is in flight. */
  method FilledRing() returns (ring: TxBuffer)
    ensures fresh(ring) && fresh(ring.buff) && ring.Valid() && ring.capacity == 8
    ensures ring.rd == 0 && ring.wr == 0 && ring.dmaBusy && ring.xferLen == 5
    ensures ring.written == [1, 2, 3, 4, 5, 6, 7, 8] && ring.emitted == []
  {
    ring := new TxBuffer.Setup(8);
    var first := ring.UsartWriteDma([1, 2, 3, 4, 5], 5);
    var second := ring.UsartWriteDma([6, 7, 8, 9, 10, 11], 6);
  }

  /** Continuing from a full buffer whose first run (slots 0 to 4) is in
      flight: the zero occupancy lets an eight-byte write through, which
      overwrites all eight unsent bytes, the five of the run in flight and
      the three queued in slots 5 to 7. The completion of the first run
      schedules slots 5 to 7, now holding bytes of the later write, and the
      completion of that run leaves the stream idle with the cursors equal.
      Sixteen bytes were accepted; the eight carried out are those of the
      later write, and the eight bytes 1 to 8 of the first two writes are
      never sent. */
  method WriteIntoFullBufferLosesBytes()
    returns (third: nat, nextRunLen: nat, nextRunHead: Byte, idleAfter: bool,
             ghost accepted: seq<Byte>, ghost sent: seq<Byte>)
    ensures third == 8
    ensures nextRunLen == 3 && nextRunHead == 25
    ensures idleAfter
    ensures accepted == [1, 2, 3, 4, 5, 6, 7, 8, 20, 21, 22, 23, 24, 25, 26, 27]
    ensures sent == [20, 21, 22, 23, 24, 25, 26, 27]
  {
    var ring := FilledRing();
    ghost var full := ring.buff[..];
    third := ring.UsartWriteDma([20, 21, 22, 23, 24, 25, 26, 27], 8);
    assert ring.buff[..] == [20, 21, 22, 23, 24, 25, 26, 27] by {
      StoredPlacesData(full, 0, [20, 21, 22, 23, 24, 25, 26, 27]);
    }
    assert ring.written == [1, 2, 3, 4, 5, 6, 7, 8, 20, 21, 22, 23, 24, 25, 26, 27];
    assert ring.emitted == [];
    var outcome := ring.Dma2Stream7Isr(TransferComplete);
    nextRunLen := ring.xferLen;
    nextRunHead := ring.buff[ring.rd];
    outcome := ring.Dma2Stream7Isr(TransferComplete);
    idleAfter := !ring.dmaBusy && ring.rd == ring.wr;
    accepted := ring.written;
    sent := ring.emitted;
  }
}
