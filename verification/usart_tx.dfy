/** The USART1 transmit path: a ring buffer that producers fill and that DMA2
    stream 7 drains in contiguous runs, one run per transfer-complete
    interrupt. Interrupt masking is not modelled; each method below runs as
    one atomic step. */
module UsartTx {
  import opened TxArith

  /** Why DMA2 stream 7 raised its interrupt: transfer complete, or one of
      the error interrupts enabled at setup (direct mode, transfer, FIFO). */
  datatype IrqCause = TransferComplete | DirectModeError | TransferError | FifoError

  /** How the interrupt handler ends: it serviced a completed transfer, or it
      met any other cause and the device halts irrecoverably. */
  datatype IsrOutcome = Serviced | Halted

  /** The transmit buffer `buff` with its cursors `rd` and `wr` and the length
      `xferLen` of the transfer most recently handed to the DMA stream. */
  class TxBuffer {
    /** Number of slots of the buffer (`USART_TX_BUFFER_LEN`). */
    const capacity: nat
    const buff: array<Byte>
    var rd: nat
    var wr: nat
    var xferLen: nat
    /** The stream's enable bit is set, or its transfer-complete flag is
        still waiting for the interrupt handler. */
    var dmaBusy: bool

    /** Every byte the enqueue operation has accepted, in order. */
    ghost var written: seq<Byte>
    /** Every byte carried to the USART by a finished transfer, in order. */
    ghost var emitted: seq<Byte>

    /** Bounds every operation keeps, whatever its callers do: both cursors
        inside the array, and a run in flight that is non-empty and ends at
        or before the end of the array. */
    ghost predicate Valid()
      reads this
    {
      && 0 < capacity <= MAX_BUFFER_LEN
      && buff.Length == capacity
      && rd < capacity && wr < capacity && xferLen <= capacity
      && (dmaBusy ==> 1 <= xferLen && rd + xferLen <= capacity)
    }

    /** The bytes accepted and not yet carried out sit in the ring, in order,
        from the read cursor up to the write cursor. */
    ghost predicate QueueInRing()
      reads this, buff
    {
      Valid() && QueueLaidOut(buff[..], rd, wr, written, emitted)
    }

    /** The FIFO abstraction: the queue lies in the ring, a run in flight
        carries only queued bytes, and an idle stream means an empty queue. */
    ghost predicate Coherent()
      reads this, buff
    {
      && QueueInRing()
      && (dmaBusy ==> xferLen <= |written| - |emitted|)
      && (!dmaBusy ==> |written| == |emitted|)
    }

    /** Cursor reset of `usart_tx_dma_setup`: the buffer starts empty and the
        stream disabled. */
    constructor Setup(len: nat)
      requires 0 < len <= MAX_BUFFER_LEN
      ensures Coherent() && fresh(buff)
      ensures capacity == len && rd == 0 && wr == 0 && !dmaBusy
      ensures Occupancy(rd, wr, capacity) == 0
      ensures written == [] && emitted == []
    {
      capacity := len;
      buff := new Byte[len](_ => 0);
      rd, wr, xferLen := 0, 0, 0;
      dmaBusy := false;
      written, emitted := [], [];
    }

    /** `usart_tx_n_in_buff`: the number of bytes waiting in the buffer. It
        equals the queued byte count except when the queue holds exactly
        `capacity` bytes, which it reports as zero. */
    method NInBuff() returns (n: nat)
      requires Valid()
      ensures n == Occupancy(rd, wr, capacity) && n < capacity
      ensures Coherent() && |written| - |emitted| < capacity ==> n == |written| - |emitted|
      ensures Coherent() && |written| - |emitted| == capacity ==> n == 0
    {
      if wr >= rd {
        n := wr - rd;
      } else {
        n := capacity - (rd - wr);
      }
      if Coherent() {
        OccupancyOfQueue(buff[..], rd, wr, written, emitted);
      }
    }

    /** `dma_schedule`: hands the next contiguous run, from the read cursor up
        to the write cursor or to the end of the array, to an idle stream. */
    method DmaSchedule()
      requires Valid() && !dmaBusy
      modifies this
      ensures Valid() && dmaBusy
      ensures xferLen == RunLength(rd, wr, capacity)
      ensures rd == old(rd) && wr == old(wr)
      ensures written == old(written) && emitted == old(emitted)
      ensures old(QueueInRing()) ==> QueueInRing()
    {
      if rd < wr {
        xferLen := wr - rd;
      } else {
        xferLen := capacity - rd;
      }
      dmaBusy := true;
    }

    /** `dma2_stream7_isr`: on transfer complete, the finished run is carried
        out, the read cursor moves past it, and the next run is scheduled if
        bytes remain; on any other cause the device halts. */
    method Dma2Stream7Isr(cause: IrqCause) returns (outcome: IsrOutcome)
      requires Valid()
      requires cause == TransferComplete ==> dmaBusy
      modifies this
      ensures Valid()
      ensures outcome == Halted <==> cause != TransferComplete
      ensures outcome == Halted ==> unchanged(this)
      ensures outcome == Serviced ==>
        && rd == (old(rd) + old(xferLen)) % capacity
        && wr == old(wr)
        && written == old(written)
        && emitted == old(emitted) + old(buff[rd..rd + xferLen])
        && (dmaBusy <==> wr != rd)
        && (dmaBusy ==> xferLen == RunLength(rd, wr, capacity))
      ensures old(Coherent()) ==> Coherent()
    {
      if cause != TransferComplete {
        outcome := Halted;
        return;
      }
      outcome := Serviced;
      ghost var wasCoherent := Coherent();
      ghost var run := buff[rd..rd + xferLen];
      if wasCoherent {
        CompletionKeepsFifo(buff[..], rd, wr, written, emitted, xferLen);
      }
      dmaBusy := false;
      emitted := emitted + run;
      rd := (rd + xferLen) % capacity;
      if wr != rd {
        DmaSchedule();
        if wasCoherent {
          RunWithinQueue(rd, wr, |written| - |emitted|, capacity);
        }
      }
    }

    /** `memcpy` into the buffer: copies `count` bytes of `src` from index
        `from` to the slots starting at `at`, leaving the other slots alone. */
    method CopyIn(at: nat, src: seq<Byte>, from: nat, count: nat)
      requires Valid()
      requires at + count <= capacity && from + count <= |src|
      modifies buff
      ensures forall j :: at <= j < at + count ==> buff[j] == src[from + (j - at)]
      ensures forall j :: 0 <= j < capacity && !(at <= j < at + count) ==> buff[j] == old(buff[j])
    {
      var k := 0;
      while k < count
        invariant 0 <= k <= count
        invariant forall j :: at <= j < at + k ==> buff[j] == src[from + (j - at)]
        invariant forall j :: 0 <= j < capacity && !(at <= j < at + k) ==> buff[j] == old(buff[j])
      {
        buff[at + k] := src[from + k];
        k := k + 1;
      }
    }

    /** The two-part copy of `usart_write_dma`: the first `count` bytes of
        `data` go to the `count` slots from `w` on, continuing at slot 0 when
        they pass the end of the array; every slot at least `count` slots past
        `w` keeps its byte. */
    method StoreWrapped(w: nat, data: seq<Byte>, count: nat)
      requires Valid()
      requires w < capacity && count <= capacity && count <= |data|
      modifies buff
      ensures buff[..] == Stored(old(buff[..]), w, data[..count])
    {
      if w + count <= capacity {
        CopyIn(w, data, 0, count);
      } else {
        var head := capacity - w;
        CopyIn(w, data, 0, head);
        CopyIn(0, data, head, count - head);
      }
      ghost var expected := Stored(old(buff[..]), w, data[..count]);
      forall j | 0 <= j < capacity
        ensures buff[j] == expected[j]
      {
      }
    }

    /** The closing critical section of `usart_write_dma`: schedules a run
        unless a transfer is in flight or its completion is unserviced. */
    method StartIfIdle()
      requires Valid()
      modifies this
      ensures Valid()
      ensures old(dmaBusy) ==> unchanged(this)
      ensures !old(dmaBusy) ==> dmaBusy && xferLen == RunLength(rd, wr, capacity)
      ensures rd == old(rd) && wr == old(wr) && written == old(written) && emitted == old(emitted)
      ensures old(QueueInRing()) && |written| > |emitted| && (old(dmaBusy) ==> old(xferLen) <= |written| - |emitted|) ==> Coherent()
    {
      if !dmaBusy {
        DmaSchedule();
        if old(QueueInRing()) && |written| > |emitted| {
          RunWithinQueue(rd, wr, |written| - |emitted|, capacity);
        }
      }
    }

    /** The first critical section of `usart_write_dma`: moves the write
        cursor past `count` slots, modulo the capacity, and returns its old
        value. */
    method Reserve(count: nat) returns (oldWr: nat)
      requires Valid()
      requires 0 < count && Occupancy(rd, wr, capacity) + count <= capacity
      modifies this
      ensures Valid() && oldWr == old(wr) && oldWr < capacity
      ensures wr == (oldWr + count) % capacity
      ensures rd == old(rd) && xferLen == old(xferLen) && dmaBusy == old(dmaBusy)
      ensures written == old(written) && emitted == old(emitted)
      ensures old(Occupancy(rd, wr, capacity)) + count < capacity ==>
        Occupancy(rd, wr, capacity) == old(Occupancy(rd, wr, capacity)) + count
      ensures old(Occupancy(rd, wr, capacity)) + count == capacity ==> wr == rd
    {
      oldWr := wr;
      wr := (wr + count) % capacity;
      if Occupancy(rd, oldWr, capacity) + count < capacity {
        OccupancyAfterWrite(rd, oldWr, count, capacity);
      } else {
        OccupancyAtCapacity(rd, oldWr, count, capacity);
      }
    }

    /** Bookkeeping for an enqueue: the bytes just stored after `oldWr` join
        the written bytes. When the queue plus these bytes fit in the ring,
        they extend the queue laid out from the read cursor. */
    ghost method RecordAccepted(before: seq<Byte>, oldWr: nat, stored: seq<Byte>)
      requires Valid() && oldWr < capacity && |stored| <= capacity
      requires |before| == capacity && buff[..] == Stored(before, oldWr, stored)
      requires wr == (oldWr + |stored|) % capacity
      modifies this
      ensures written == old(written) + stored
      ensures Valid() && emitted == old(emitted)
      ensures rd == old(rd) && wr == old(wr) && xferLen == old(xferLen) && dmaBusy == old(dmaBusy)
      ensures
        (QueueLaidOut(before, rd, oldWr, old(written), emitted) && |old(written)| - |emitted| + |stored| <= capacity)
        ==> QueueInRing()
    {
      if QueueLaidOut(before, rd, oldWr, written, emitted) && |written| - |emitted| + |stored| <= capacity {
        WriteKeepsFifo(before, rd, oldWr, written, emitted, stored);
      }
      written := written + stored;
    }

    /** `usart_write_dma`: accepts as many of the first `n` bytes of `data` as
        the free space allows, reserves them by moving the write cursor, copies
        them in (in two pieces when they wrap), and starts a transfer if the
        stream is idle. Returns the number of bytes accepted. */
    method UsartWriteDma(data: seq<Byte>, n: nat) returns (accepted: nat)
      requires Valid()
      requires n <= |data| && IsU32(n)
      modifies this, buff
      ensures Valid()
      ensures accepted == Accepted(n, old(Occupancy(rd, wr, capacity)), capacity)
      ensures rd == old(rd) && wr == (old(wr) + accepted) % capacity
      ensures written == old(written) + data[..accepted] && emitted == old(emitted)
      ensures buff[..] == Stored(old(buff[..]), old(wr), data[..accepted])
      ensures old(Occupancy(rd, wr, capacity)) + accepted < capacity ==>
        Occupancy(rd, wr, capacity) == old(Occupancy(rd, wr, capacity)) + accepted
      ensures old(Occupancy(rd, wr, capacity)) + accepted == capacity ==>
        wr == rd && Occupancy(rd, wr, capacity) == 0
      ensures old(dmaBusy) ==> dmaBusy && xferLen == old(xferLen)
      ensures !old(dmaBusy) ==>
        (dmaBusy <==> accepted > 0) && (dmaBusy ==> xferLen == RunLength(rd, wr, capacity))
      ensures accepted == 0 ==> unchanged(this) && buff[..] == old(buff[..])
      ensures old(Coherent()) && old(|written| - |emitted|) < capacity ==> Coherent()
    {
      ghost var wasCoherent := Coherent() && |written| - |emitted| < capacity;
      ghost var before := buff[..];
      var pending := NInBuff();
      var nFree := capacity - pending;
      accepted := n;
      if accepted > nFree {
        accepted := nFree;
      }
      if accepted == 0 {
        ModNear(wr, capacity);
        StoredNothing(before, wr);
        assert data[..accepted] == [];
        return;
      }
      var oldWr := Reserve(accepted);
      StoreWrapped(oldWr, data, accepted);
      RecordAccepted(before, oldWr, data[..accepted]);
      StartIfIdle();
    }

    /** The stream keeps raising transfer-complete interrupts until it goes
        idle: at that point the cursors meet and every written byte has been
        carried out, in the order it was written. */
    method DrainUntilIdle()
      requires Coherent()
      modifies this
      ensures Coherent() && !dmaBusy && rd == wr && wr == old(wr)
      ensures written == old(written) && emitted == written
    {
      while dmaBusy
        invariant Coherent() && written == old(written) && wr == old(wr)
        decreases |written| - |emitted|
      {
        ghost var before := |emitted|;
        var outcome := Dma2Stream7Isr(TransferComplete);
        assert outcome == Serviced;
        assert |emitted| > before;
      }
      OccupancyOfQueue(buff[..], rd, wr, written, emitted);
      assert emitted <= written;
    }
  }
}
