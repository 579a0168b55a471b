/** The serial driver with its two rings in place (circle/lib/serial.cpp, interrupt mode). */
module SerialDriver {
  import opened Basics
  import opened SerialSpec

  class CSerialDevice {
    const txBuffer: array<uint8>
    const rxBuffer: array<uint8>
    var txInPtr: nat
    var txOutPtr: nat
    var rxInPtr: nat
    var rxOutPtr: nat
    var rxStatus: int
    // UART
    const depth: nat
    const trigger: nat
    var fifo: seq<uint8>
    var wire: seq<uint8>
    var intTx: bool
    var raised: bool
    // history
    ghost var accepted: seq<uint8>
    ghost var words: seq<DataWord>
    ghost var stored: seq<bool>
    ghost var returned: seq<uint8>
    ghost var checked: nat

    constructor (depth: nat, trigger: nat)
      requires trigger < depth
      ensures Valid() && accepted == wire == returned == [] && words == []
      ensures fresh(txBuffer) && fresh(rxBuffer)
    {
      this.depth, this.trigger := depth, trigger;
      txBuffer := new uint8[SERIAL_BUF_SIZE](_ => 0);
      rxBuffer := new uint8[SERIAL_BUF_SIZE](_ => 0);
      txInPtr, txOutPtr, rxInPtr, rxOutPtr, rxStatus := 0, 0, 0, 0, 0;
      fifo, wire, intTx, raised := [], [], false, false;
      accepted, words, stored, returned, checked := [], [], [], [], 0;
    }

    ghost function Tx(): Ring
      reads this, txBuffer
    {
      Ring(txBuffer[..], txInPtr, txOutPtr)
    }

    ghost function RxState(): Rx
      reads this, rxBuffer
    {
      Rx(Ring(rxBuffer[..], rxInPtr, rxOutPtr), rxStatus, words, stored, returned, checked)
    }

    ghost predicate TxValid()
      reads this, txBuffer
    {
      && Tx().Valid() && trigger < depth && |fifo| <= depth
      && wire + fifo + Tx().Contents() == accepted
    }

    /** No task is inside Write: bytes that wait have an interrupt on its way. */
    ghost predicate Awake()
      reads this, txBuffer
    {
      !Tx().Empty() ==> intTx && (raised || |fifo| > trigger)
    }

    ghost predicate Valid()
      reads this, txBuffer, rxBuffer
    {
      txBuffer != rxBuffer && TxValid() && Awake() && RxInv(RxState())
    }

    /** Time passes: the UART sends any number of bytes. */
    method Elapse()
      requires TxValid()
      modifies `fifo, `wire, `raised
      ensures TxValid() && wire + fifo == old(wire + fifo)
      ensures |fifo| <= old(|fifo|)
      ensures raised == (old(raised) || old(|fifo|) > trigger >= |fifo|)
    {
      hide Ring.Contents, Ring.Valid;
      var n: nat :| n <= |fifo|;
      raised := raised || (|fifo| > trigger && |fifo| - n <= trigger);
      assert fifo[..n] + fifo[n..] == fifo;
      wire := wire + fifo[..n];
      fifo := fifo[n..];
    }

    /** Reads the flag register. Before that and afterwards time passes. */
    method ReadFlags() returns (txff: bool)
      requires TxValid()
      modifies `fifo, `wire, `raised
      ensures TxValid() && wire + fifo == old(wire + fifo)
      ensures |fifo| <= old(|fifo|) && (!txff ==> |fifo| < depth)
      ensures txff ==> old(|fifo|) == depth && (raised || |fifo| > trigger)
      ensures raised <==> old(raised) || old(|fifo|) > trigger >= |fifo|
    {
      hide Ring.Contents, Ring.Valid;
      Elapse();
      txff := |fifo| >= depth;
      Elapse();
    }

    /** write32 (ARM_UART_DR, m_TxBuffer[m_nTxOutPtr++]) */
    method TransmitNext()
      requires TxValid() && !Tx().Empty() && |fifo| < depth
      modifies `fifo, `txOutPtr
      ensures TxValid() && fifo == old(fifo) + [old(txBuffer[txOutPtr])]
      ensures |Tx().Contents()| == old(|Tx().Contents()|) - 1
    {
      hide Ring.Contents, Next;
      TakeRemovesFirst(Tx());
      fifo := fifo + [txBuffer[txOutPtr]];
      txOutPtr := Next(txOutPtr);
      assert Tx() == old(Tx()).Take();
    }

    /** Write of one character: takes it unless the ring is full. */
    method PutChar(uchChar: uint8) returns (ok: bool)
      requires TxValid() && txBuffer != rxBuffer
      modifies `txInPtr, `accepted, txBuffer
      ensures TxValid() && rxBuffer[..] == old(rxBuffer[..])
      ensures ok <==> |old(Tx().Contents())| < 2047
      ensures Tx().Contents() == old(Tx().Contents()) + if ok then [uchChar] else []
      ensures accepted == old(accepted) + if ok then [uchChar] else []
    {
      hide Ring.Contents, Next;
      ok := true;
      RingSize(Tx());
      if Next(txInPtr) != txOutPtr {
        PutAppends(Tx(), uchChar);
        txBuffer[txInPtr] := uchChar;
        txInPtr := Next(txInPtr);
        accepted := accepted + [uchChar];
        assert Tx() == old(Tx()).Put(uchChar);
      } else {
        ok := false;
      }
    }

    /** Takes a prefix of the text, and stops early only when the ring is full. Between two
        characters the interrupt handler may run, if interrupts is true. No byte is left without a
        wake-up. A text that fits the ring is taken as a whole. If a newline still fits but its carriage
        return does not, the newline is sent but not counted. */
    method Write(pBuffer: seq<uint8>, onlcr: bool, interrupts: bool) returns (count: nat)
      requires Valid()
      modifies this, txBuffer, rxBuffer
      ensures Valid() && count <= |pBuffer|
      ensures old(accepted) <= accepted
      ensures var sent := accepted[|old(accepted)|..]; var t := Translated(pBuffer[..count], onlcr);
        sent == t || (onlcr && count < |pBuffer| && pBuffer[count] == NEWLINE && sent == t + [NEWLINE])
      ensures |Translated(pBuffer, onlcr)| <= old(Room()) ==>
        count == |pBuffer| && accepted == old(accepted) + Translated(pBuffer, onlcr)
      ensures !interrupts ==> WriteOutcome(pBuffer, onlcr, old(Room()), count, accepted[|old(accepted)|..])
      ensures returned == old(returned)
    {
      hide Ring.Contents, Next, Translated, RxInv, Awake;
      ghost var sent;
      count, sent := FillRing(pBuffer, onlcr, interrupts);
      assert accepted[|old(accepted)|..] == sent;
      Drain();
      if |Translated(pBuffer, onlcr)| <= old(Room()) {
        FittingTextTaken(pBuffer, onlcr, old(Room()), count, sent);
      }
    }

    /** Free places of the ring */
    ghost function Room(): (n: nat)
      requires Tx().Valid()
      reads this, txBuffer
    {
      RingSize(Tx());
      SERIAL_BUF_SIZE - 1 - |Tx().Contents()|
    }

    /** The loop of Write */
    method FillRing(pBuffer: seq<uint8>, onlcr: bool, interrupts: bool) returns (count: nat, ghost sent: seq<uint8>)
      requires TxValid() && txBuffer != rxBuffer && RxInv(RxState())
      modifies this, txBuffer, rxBuffer
      ensures TxValid() && RxInv(RxState()) && returned == old(returned)
      ensures count <= |pBuffer| && accepted == old(accepted) + sent
      ensures var t := Translated(pBuffer[..count], onlcr);
        sent == t || (onlcr && count < |pBuffer| && pBuffer[count] == NEWLINE && sent == t + [NEWLINE])
      ensures count < |pBuffer| ==> |sent| >= old(Room())
      ensures !interrupts ==> |sent| <= old(Room()) && (count < |pBuffer| ==> |sent| == old(Room()))
    {
      hide Ring.Contents, Next, Translated, RxInv, Ring.Full;
      count, sent := 0, [];
      EmptyText(pBuffer, onlcr);
      ghost var t0 := Tx();
      while count < |pBuffer|
        invariant count <= |pBuffer| && TxValid() && RxInv(RxState()) && returned == old(returned)
        invariant sent == Translated(pBuffer[..count], onlcr) && accepted == old(accepted) + sent
        invariant |wire + fifo| >= old(|wire + fifo|) && (!interrupts ==> wire + fifo == old(wire + fifo))
        decreases |pBuffer| - count
      {
        MaybeInterrupt(interrupts);
        TranslatedNext(pBuffer, count, onlcr);
        RingSize(Tx());
        var ok := PutChar(pBuffer[count]);
        if !ok {
          break;
        }
        ghost var before := sent;
        sent := sent + [pBuffer[count]];
        if pBuffer[count] == NEWLINE && onlcr {
          MaybeInterrupt(interrupts);
          RingSize(Tx());
          ok := PutChar(RETURN);
          if !ok {
            break;
          }
          sent := sent + [RETURN];
          assert sent == before + [NEWLINE, RETURN];
        }
        count := count + 1;
      }
      RingSize(t0);
      RingSize(Tx());
    }

    method MaybeInterrupt(interrupts: bool)
      requires TxValid() && txBuffer != rxBuffer && RxInv(RxState())
      modifies this, rxBuffer
      ensures TxValid() && RxInv(RxState()) && (!interrupts ==> Tx() == old(Tx()) && wire + fifo == old(wire + fifo))
      ensures accepted == old(accepted) && returned == old(returned) && |wire + fifo| >= old(|wire + fifo|)
    {
      hide Ring.Contents, RxInv;
      var happens: bool := *;
      if happens && interrupts {
        var arriving: seq<DataWord> := *;
        ReceiveAllRecords(RxState(), arriving);
        InterruptHandler(arriving);
      }
    }

    /** The words are those which the UART holds until its receive FIFO is found empty. */
    method InterruptHandler(arriving: seq<DataWord>)
      requires TxValid() && txBuffer != rxBuffer && RxInv(RxState())
      modifies `rxInPtr, `rxStatus, `words, `stored, rxBuffer, `txOutPtr, `fifo, `wire, `raised, `intTx
      ensures TxValid() && RxState() == ReceiveAll(old(RxState()), arriving)
      ensures words == old(words) + arriving && returned == old(returned)
      ensures old(Awake()) ==> Awake()
      ensures (Tx().Empty() && !intTx) || |wire + fifo| >= old(|wire|) + depth
      ensures |wire + fifo| >= old(|wire + fifo|)
    {
      hide Ring.Contents, Next, RxInv, Receive;
      raised := raised && !intTx;
      var k := 0;
      while k < |arriving|
        invariant k <= |arriving| && TxValid() && RxState() == ReceiveAll(old(RxState()), arriving[..k])
        invariant wire == old(wire) && fifo == old(fifo) && intTx == old(intTx)
        invariant accepted == old(accepted) && Tx() == old(Tx())
      {
        assert arriving[..k + 1][..k] == arriving[..k];
        ReceiveWord(arriving[k]);
        k := k + 1;
      }
      assert arriving[..k] == arriving;
      ReceiveAllRecords(old(RxState()), arriving);
      TransmitInterrupt();
    }

    /** The body of the first loop of the handler */
    method ReceiveWord(d: DataWord)
      requires RxInv(RxState()) && txBuffer != rxBuffer
      modifies `rxInPtr, `rxStatus, `words, `stored, rxBuffer
      ensures RxState() == Receive(old(RxState()), d)
    {
      hide Ring.Contents, Next;
      if d.breakError {
        if rxStatus == 0 { rxStatus := -SERIAL_ERROR_BREAK; }
      } else if d.overrun {
        if rxStatus == 0 { rxStatus := -SERIAL_ERROR_OVERRUN; }
      } else if d.framing {
        if rxStatus == 0 { rxStatus := -SERIAL_ERROR_FRAMING; }
      } else if d.parity {
        if rxStatus == 0 { rxStatus := -SERIAL_ERROR_PARITY; }
      }
      words := words + [d];
      if Next(rxInPtr) != rxOutPtr {
        rxBuffer[rxInPtr] := d.data;
        rxInPtr := Next(rxInPtr);
        stored := stored + [true];
      } else {
        if rxStatus == 0 { rxStatus := -SERIAL_ERROR_OVERRUN; }
        stored := stored + [false];
      }
    }

    /** The second loop of the handler: it ends with an empty ring and the interrupt disabled, or after
        the FIFO has been full. */
    method TransmitInterrupt()
      requires TxValid()
      modifies `txOutPtr, `fifo, `wire, `raised, `intTx
      ensures TxValid()
      ensures Tx().Empty() || (!old(Tx().Empty()) && intTx == old(intTx) && (raised || |fifo| > trigger))
      ensures (Tx().Empty() && !intTx) || |wire + fifo| >= old(|wire|) + depth
      ensures |wire + fifo| >= old(|wire + fifo|)
    {
      hide Ring.Contents, Next;
      while true
        invariant TxValid() && intTx == old(intTx) && (old(Tx().Empty()) ==> Tx().Empty())
        invariant |wire + fifo| >= old(|wire + fifo|) && |wire| >= old(|wire|)
        decreases |Tx().Contents()|
      {
        var txff := ReadFlags();
        if txff {
          break;
        }
        if txInPtr != txOutPtr {
          TransmitNext();
        } else {
          intTx := false;
          break;
        }
      }
    }

    /** The drain section of Write: it ends with an empty ring, or after it has found the FIFO full. Until
        it enables the interrupt the UART may have sent all of the FIFO. */
    method Drain()
      requires TxValid()
      modifies `txOutPtr, `fifo, `wire, `raised, `intTx
      ensures TxValid() && Awake()
      ensures Tx().Empty() || |wire + fifo| >= old(|wire|) + depth
      ensures |wire + fifo| >= old(|wire + fifo|)
    {
      hide Ring.Contents, Next;
      while txInPtr != txOutPtr
        invariant TxValid() && |wire + fifo| >= old(|wire + fifo|) && |wire| >= old(|wire|)
        decreases |Tx().Contents()|
      {
        var txff := ReadFlags();
        if !txff {
          TransmitNext();
        } else {
          intTx := true;
          break;
        }
      }
    }

    /** An error is reported first, and alone. Else the oldest bytes are returned, in order. */
    method Read(nCount: nat) returns (result: int, bytes: seq<uint8>)
      requires Valid()
      modifies `rxOutPtr, `rxStatus, `returned, `checked
      ensures Valid()
      ensures old(rxStatus) < 0 ==> result == old(rxStatus) && bytes == [] && RxState() == Report(old(RxState()))
      ensures forall k | FirstFault(old(RxState()), k) ::
        Reports(result, old(words)[k]) && bytes == [] && checked == |words| && returned == old(returned)
      ensures (forall k | old(checked) <= k < |words| :: !Wrong(words[k], stored[k])) <==> result >= 0
      ensures old(rxStatus) == 0 ==>
        && result == |bytes| <= nCount && returned == old(returned) + bytes && rxStatus == 0
        && RxState().ring.Contents() == old(RxState().ring.Contents())[|bytes|..]
        && (|bytes| < nCount ==> RxState().ring.Empty())
    {
      hide Ring.Contents, Next;
      StatusOfFirstFault(RxState());
      hide FirstFault, Wrong, Reports;
      if rxStatus < 0 {
        ReportKeeps(RxState());
        result, bytes := rxStatus, [];
        rxStatus := 0;
        checked := |words|;
      } else {
        result, bytes := Fetch(nCount);
      }
    }

    /** The loop of Read */
    method Fetch(nCount: nat) returns (result: int, bytes: seq<uint8>)
      requires Valid()
      modifies `rxOutPtr, `returned
      ensures Valid() && result == |bytes| <= nCount && returned == old(returned) + bytes
      ensures old(RxState().ring.Contents()) == bytes + RxState().ring.Contents()
      ensures |bytes| < nCount ==> RxState().ring.Empty()
    {
      hide Ring.Contents, Next, FirstFault;
      result, bytes := 0, [];
      var left := nCount;
      while left > 0
        invariant 0 <= left && left + |bytes| == nCount && result == |bytes|
        invariant Valid() && returned == old(returned) + bytes
        invariant old(RxState().ring.Contents()) == bytes + RxState().ring.Contents()
      {
        if rxInPtr == rxOutPtr {
          break;
        }
        TakeRemovesFirst(RxState().ring);
        ReturnKeeps(RxState());
        bytes := bytes + [rxBuffer[rxOutPtr]];
        returned := returned + [rxBuffer[rxOutPtr]];
        rxOutPtr := Next(rxOutPtr);
        assert RxState().ring == Ring(rxBuffer[..], rxInPtr, rxOutPtr);
        left := left - 1;
        result := result + 1;
      }
    }

    /** Exactly this many characters find room in the ring. */
    method AvailableForWrite() returns (n: nat)
      requires Valid()
      ensures n == SERIAL_BUF_SIZE - 1 - |Tx().Contents()|
    {
      if txOutPtr <= txInPtr {
        n := SERIAL_BUF_SIZE + txOutPtr - txInPtr - 1;
      } else {
        n := txOutPtr - txInPtr - 1;
      }
    }

    /** Exactly this many received bytes are waiting. */
    method AvailableForRead() returns (n: nat)
      requires Valid()
      ensures n == |RxState().ring.Contents()|
    {
      if rxInPtr < rxOutPtr {
        n := SERIAL_BUF_SIZE + rxInPtr - rxOutPtr;
      } else {
        n := rxInPtr - rxOutPtr;
      }
    }
  }

  lemma EmptyText(text: seq<uint8>, onlcr: bool)
    ensures Translated(text[..0], onlcr) == []
  {}
}
