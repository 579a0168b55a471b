/** The transfer loop of the RP1 I2C master in place (circle/lib/i2cmaster-rp1.cpp). */
module Rp1I2cMaster {
  import opened Basics
  import opened Rp1I2cSpec

  const I2C_MASTER_ERROR_NACK := 2
  const I2C_MASTER_TIMEOUT := 5
  const I2C_MASTER_BUS_BUSY := 6

  /** The bits of DW_IC_INTR_STAT that the driver looks at */
  datatype Status = Status(txAbrt: bool, rxFull: bool, txEmpty: bool, stopDet: bool)

  class CI2CMaster {
    var bRead: bool
    var buffer: array<uint8>
    var rxPtr: nat
    var rxLen: nat
    var txPtr: nat
    var txLen: nat
    var outstanding: int
    var result: int
    // controller
    var tx: seq<Command>
    var rx: seq<uint8>
    var stopDet: bool
    var aborted: bool
    var txEmptyOn: bool
    // history: contents of the buffer at the start, bytes fetched to it, commands executed,
    // bytes from the device
    ghost var asked: seq<uint8>
    ghost var got: seq<uint8>
    ghost var executed: seq<Command>
    ghost var received: seq<uint8>
    ghost var polled: seq<bool>  // for each poll so far, whether it has ended the transfer

    constructor () {
      bRead, buffer, rxPtr, rxLen, txPtr, txLen, outstanding, result := false, new uint8[0], 0, 0, 0, 0, 0, 0;
      tx, rx, stopDet, aborted, txEmptyOn := [], [], false, false, false;
      asked, got, executed, received, polled := [], [], [], [], [];
    }

    ghost function Value(): Xfer
      reads this
    {
      Xfer(bRead, asked, rxLen, txLen, outstanding, got, txEmptyOn, tx, rx, stopDet, aborted, executed, received)
    }

    ghost predicate Valid()
      reads this, buffer
    {
      && Inv(Value()) && |asked| == buffer.Length
      && rxPtr + rxLen == buffer.Length && (bRead ==> buffer[..rxPtr] == got)
      && (!bRead ==> txPtr + txLen == buffer.Length && buffer[..] == asked)
    }

    /** The controller executes a command. */
    method ExecuteNext()
      requires Valid() && tx != [] && !aborted
      modifies `tx, `rx, `stopDet, `executed, `received
      ensures Valid() && |tx| == old(|tx|) - 1 && |rx| >= old(|rx|) && (old(stopDet) ==> stopDet)
    {
      hide Inv, CommandAt, Commands, ReadsAccounted, Issued, Masked;
      var b: uint8 := *;
      ghost var v := Value();
      ExecuteKeeps(v, b);
      var c := tx[0];
      if c.ReadByte? {
        rx := rx + [b];
        received := received + [b];
      }
      tx := tx[1..];
      executed := executed + [c];
      stopDet := stopDet || HasStop(c);
      assert Value() == Execute(v, b);
    }

    /** The controller gives up, because the device does not acknowledge. */
    method GiveUp()
      requires Valid() && tx != []
      modifies `tx, `stopDet, `aborted
      ensures Valid() && tx == [] && aborted && (old(stopDet) ==> stopDet)
    {
      hide Inv, CommandAt, Commands;
      var withStop: bool := *;
      ghost var v := Value();
      AbortKeeps(v, withStop);
      tx := [];
      aborted := true;
      stopDet := stopDet || withStop;
      assert Value() == Abort(v, withStop);
    }

    /** Time passes: the controller executes some of the commands, or gives up. */
    method Elapse()
      requires Valid()
      modifies `tx, `rx, `stopDet, `aborted, `executed, `received
      ensures Valid() && |tx| <= old(|tx|) && |rx| >= old(|rx|) && (old(aborted) ==> aborted)
      ensures old(tx) == [] ==> Value() == old(Value())
      ensures old(stopDet) ==> stopDet
    {
      hide Inv;
      if tx == [] {
        return;
      }
      var n: nat :| n <= |tx|;
      while n > 0 && !aborted
        invariant Valid() && n <= |tx| <= old(|tx|) && |rx| >= old(|rx|)
        invariant (old(stopDet) ==> stopDet) && aborted == old(aborted)
        decreases n
      {
        ExecuteNext();
        n := n - 1;
      }
      var fails: bool := *;
      if fails && tx != [] {
        GiveUp();
      }
    }

    method ReadClearIntrbits() returns (stat: Status)
      requires Valid()
      modifies `tx, `rx, `stopDet, `aborted, `executed, `received
      ensures Valid() && |rx| >= old(|rx|) && (old(aborted) ==> aborted)
      ensures stat.txAbrt == aborted && stat.rxFull == (rx != []) && (stat.txEmpty ==> txEmptyOn)
      ensures !aborted && stat.stopDet ==> AllExecuted(Value())
      ensures stopDet <==> stat.stopDet && outstanding != 0 && !stat.rxFull
      ensures old(stopDet) && !old(aborted) ==> stat.stopDet && !aborted
    {
      hide Inv, AllExecuted;
      if stopDet && !aborted {
        StopMeansAll(Value());
        NothingToDo(Value());
      }
      Elapse();
      stat := Status(aborted, rx != [], txEmptyOn && |tx| <= FIFO_SIZE / 2, stopDet);
      if stopDet && !aborted {
        StopMeansAll(Value());
      }
      ClearStopKeeps(Value());
      if stat.stopDet && (outstanding == 0 || stat.rxFull) {
        ghost var v := Value();
        stopDet := false;
        assert Value() == v.(stopDet := false);
        StillAllExecuted(v);
      }
    }

    /** Reads the data register. */
    method FetchNext()
      requires Valid() && rx != []
      modifies `rx, `rxPtr, `rxLen, `outstanding, `got, buffer
      ensures Valid() && |rx| == old(|rx|) - 1 && rxLen == old(rxLen) - 1
      ensures old(AllExecuted(Value())) ==> AllExecuted(Value())
    {
      hide Inv, Commands, CommandAt;
      ghost var v := Value();
      FetchKeeps(v);
      SameCommands(v, Fetch(v));
      buffer[rxPtr] := rx[0];
      rxPtr := rxPtr + 1;
      got := got + [rx[0]];
      rx := rx[1..];
      rxLen := rxLen - 1;
      outstanding := outstanding - 1;
      assert Value() == Fetch(v);
    }

    /** Fetches the bytes that have arrived. */
    method Read()
      requires Valid()
      modifies `tx, `rx, `stopDet, `aborted, `executed, `received, `rxPtr, `rxLen, `outstanding, `got, buffer
      ensures Valid()
      ensures bRead ==> rxLen <= old(rxLen) - old(|rx|)
      ensures old(AllExecuted(Value())) ==> AllExecuted(Value()) && outstanding == 0
    {
      hide Inv, Commands;
      Bounds(Value());
      if !bRead {
        return;
      }
      Elapse();
      var valid := |rx|;
      Bounds(Value());
      while rxLen > 0 && valid > 0
        invariant Valid() && 0 <= valid <= |rx| <= rxLen && rxLen - valid <= old(rxLen) - old(|rx|)
        invariant old(AllExecuted(Value())) ==> AllExecuted(Value()) && |rx| == valid
        decreases valid
      {
        FetchNext();
        valid := valid - 1;
        Elapse();
        Bounds(Value());
      }
    }

    /** Writes the next command to the data register. */
    method IssueNext()
      requires Valid() && txLen > 0 && |tx| < FIFO_SIZE && (bRead ==> outstanding < FIFO_SIZE)
      modifies `tx, `txPtr, `txLen, `outstanding
      ensures Valid() && txLen == old(txLen) - 1 && |tx| <= old(|tx|) + 1
      ensures outstanding == old(outstanding) + if bRead then 1 else 0
    {
      hide Inv, Commands, CommandAt, ReadsAccounted, Issued, Masked;
      ghost var v := Value();
      Bounds(v);
      IssueKeeps(v);
      NextToIssue(v);
      var stop := txLen == 1;
      var c := if bRead then ReadByte(stop) else WriteByte(buffer[txPtr], stop);
      if !aborted {
        tx := tx + [c];
      }
      if bRead {
        outstanding := outstanding + 1;
      } else {
        txPtr := txPtr + 1;
      }
      txLen := txLen - 1;
      assert Value() == Issue(v);
    }

    /** Writes the command of a transfer without data and masks the interrupt. */
    method WriteQuick()
      requires Valid() && buffer.Length == 0 && txEmptyOn
      modifies `tx, `txEmptyOn
      ensures Valid() && !txEmptyOn
    {
      hide Inv, Commands;
      ghost var v := Value();
      QuickKeeps(v);
      if !aborted {
        tx := tx + [Quick(bRead)];
      }
      txEmptyOn := false;
      assert Value() == IssueQuick(v);
    }

    method WriteMask(on: bool)
      requires Valid() && buffer.Length > 0
      modifies `txEmptyOn
      ensures Valid() && txEmptyOn == on
    {
      hide Inv, Commands;
      ghost var v := Value();
      MaskKeeps(v, on);
      txEmptyOn := on;
      assert Value() == v.(txEmptyOn := on);
    }

    /** The loop of XferMsg, with the room that was read from the controller */
    method IssueAll(txLimit: nat, rxLimit: nat)
      requires Valid() && buffer.Length > 0 && |tx| + txLimit <= FIFO_SIZE
      requires if bRead then txLimit >= FIFO_SIZE - outstanding && rxLimit >= FIFO_SIZE - outstanding else rxLimit > 0
      modifies `tx, `rx, `stopDet, `aborted, `executed, `received, `txPtr, `txLen, `outstanding
      ensures Valid() && txLen <= old(txLen)
      ensures bRead ==> old(txLen) - txLen == Min(old(txLen), FIFO_SIZE - old(outstanding))
      ensures !bRead ==> old(txLen) - txLen == Min(old(txLen), txLimit)
    {
      hide Inv, Commands, Fetch, Execute, Abort, Issued, ReadsAccounted, AllExecuted, Masked;
      Bounds(Value());
      var txLeft, rxLeft := txLimit, rxLimit;
      while txLen > 0 && txLeft > 0 && rxLeft > 0
        invariant Valid() && |tx| + txLeft <= FIFO_SIZE && txLen <= old(txLen)
        invariant txLimit - txLeft == old(txLen) - txLen
        invariant !bRead ==> rxLeft == rxLimit
        invariant bRead ==> rxLimit - rxLeft == outstanding - old(outstanding) == old(txLen) - txLen
        invariant bRead ==> outstanding <= FIFO_SIZE
        decreases txLen
      {
        if bRead {
          if outstanding >= FIFO_SIZE {
            break;
          }
          rxLeft := rxLeft - 1;
        }
        IssueNext();
        txLeft := txLeft - 1;
        Elapse();
      }
    }

    /** Issues as many commands as both FIFOs have room for, for a read so many that as many bytes are
        outstanding as the FIFO holds. The interrupt stays enabled exactly while commands remain. */
    method XferMsg()
      requires Valid() && Masked(Value()) && txEmptyOn && result == 0
      modifies `tx, `rx, `stopDet, `aborted, `executed, `received, `txPtr, `txLen, `outstanding, `txEmptyOn
      ensures Valid() && Masked(Value())
      ensures txEmptyOn <==> txLen > 0
      ensures buffer.Length > 0 && bRead ==> old(txLen) - txLen == Min(old(txLen), FIFO_SIZE - old(outstanding))
      ensures buffer.Length > 0 && !bRead ==> old(txLen) - txLen >= Min(old(txLen), FIFO_SIZE - old(|tx|))
    {
      hide Inv, Commands, Fetch, Execute, Abort, Issued, ReadsAccounted, AllExecuted;
      Elapse();
      Bounds(Value());
      var txLimit := FIFO_SIZE - |tx|;
      var rxLimit := FIFO_SIZE - |rx|;
      if txLen == 0 {
        WriteQuick();
        return;
      }
      if !bRead {
        NothingReceived(Value());
      }
      IssueAll(txLimit, rxLimit);
      WriteMask(txLen > 0);
    }

    method Reset()
      modifies `tx, `rx, `stopDet, `aborted, `txEmptyOn
      ensures tx == [] && rx == [] && !stopDet && !aborted && txEmptyOn
    {
      tx, rx, stopDet, aborted, txEmptyOn := [], [], false, false, true;
    }

    /** The controller is disabled, which empties it, and enabled again. */
    method XferInit()
      requires rxPtr == txPtr == 0 && rxLen == txLen == buffer.Length && outstanding == 0
      modifies `tx, `rx, `stopDet, `aborted, `txEmptyOn, `asked, `got, `executed, `received
      ensures Valid() && Masked(Value()) && asked == buffer[..]
    {
      Reset();
      hide Inv, Commands, Masked;
      asked, got, executed, received := buffer[..], [], [], [];
      StartInv(Value());
    }

    /** Masks all interrupts after an abort. */
    method Fail()
      requires Valid()
      modifies `result, `outstanding, `txEmptyOn
      ensures result == -I2C_MASTER_ERROR_NACK && outstanding == 0 && executed <= Commands(Value())
    {
      hide Inv, Commands;
      Bounds(Value());
      ghost var v := Value();
      result := -I2C_MASTER_ERROR_NACK;
      outstanding := 0;
      txEmptyOn := false;
      SameCommands(v, Value());
    }

    /** One round of the loop of Transfer. It ends after an abort, or when a STOP condition has been
        seen and no byte is outstanding. */
    method Poll() returns (ended: bool)
      requires Valid() && Masked(Value()) && result == 0
      modifies `tx, `rx, `stopDet, `aborted, `executed, `received, `rxPtr, `rxLen, `outstanding, `got, `txPtr, `txLen,
               `txEmptyOn, `result, `polled, buffer
      ensures polled == old(polled) + [ended]
      ensures !ended ==> Valid() && Masked(Value()) && result == 0 && (bRead ==> rxLen <= old(rxLen) - old(|rx|))
      ensures ended ==> result == (if aborted then -I2C_MASTER_ERROR_NACK else 0) && executed <= Commands(Value())
      ensures ended && !aborted ==> Valid() && AllExecuted(Value()) && outstanding == 0
      ensures !bRead ==> buffer[..] == asked
      ensures old(stopDet) || old(aborted) ==> ended && (old(aborted) <==> aborted)
    {
      hide Inv, Commands, AllExecuted;
      var stat := ReadClearIntrbits();
      if stat.txAbrt {
        Fail();
        ended := true;
      } else {
        Service(stat);
        ended := (stat.stopDet || result != 0) && outstanding == 0;
      }
      polled := polled + [ended];
    }

    /** Answers the interrupts of a round in which there was no abort. */
    method Service(stat: Status)
      requires Valid() && Masked(Value()) && result == 0
      requires (stat.stopDet ==> AllExecuted(Value())) && (stat.txEmpty ==> txEmptyOn) && stat.rxFull == (rx != [])
      modifies `tx, `rx, `stopDet, `aborted, `executed, `received, `rxPtr, `rxLen, `outstanding, `got, `txPtr, `txLen,
               `txEmptyOn, buffer
      ensures Valid() && Masked(Value()) && (bRead ==> rxLen <= old(rxLen) - old(|rx|))
      ensures stat.stopDet ==> AllExecuted(Value()) && outstanding == 0 && !aborted && executed <= Commands(Value())
      ensures !bRead ==> buffer[..] == asked
    {
      hide Inv, Commands, AllExecuted;
      if stat.stopDet {
        AllMeans(Value());
      }
      if stat.rxFull {
        Read();
      }
      if stat.stopDet {
        AllMeans(Value());
      }
      if stat.txEmpty {
        XferMsg();
      }
    }

    /** The loop of Transfer */
    method PollFor(polls: nat) returns (ended: bool)
      requires Valid() && Masked(Value()) && result == 0
      modifies `tx, `rx, `stopDet, `aborted, `executed, `received, `rxPtr, `rxLen, `outstanding, `got, `txPtr, `txLen,
               `txEmptyOn, `result, `polled, buffer
      ensures executed <= Commands(Value())
      ensures Polled(old(polled), polled, polls) && (ended <==> Ended(old(polled), polled))
      ensures result == if ended && aborted then -I2C_MASTER_ERROR_NACK else 0
      ensures ended && !aborted ==> Valid() && AllExecuted(Value()) && outstanding == 0
      ensures !bRead ==> buffer[..] == old(buffer[..])
    {
      hide Inv, Commands, AllExecuted;
      ended := false;
      for i := 0 to polls
        invariant Valid() && Masked(Value()) && result == 0
        invariant !bRead ==> buffer[..] == old(buffer[..])
        invariant Polled(old(polled), polled, i) && !Ended(old(polled), polled)
      {
        ended := Poll();
        if ended {
          return;
        }
      }
      Bounds(Value());
    }

    /** What Transfer returns behind its loop */
    method Outcome(ended: bool) returns (r: int)
      requires result == if ended && aborted then -I2C_MASTER_ERROR_NACK else 0
      requires ended && !aborted ==> Valid() && AllExecuted(Value()) && outstanding == 0
      modifies `result
      ensures r == if !ended then -I2C_MASTER_TIMEOUT else if aborted then -I2C_MASTER_ERROR_NACK else buffer.Length
      ensures r >= 0 ==> |executed| == Max(buffer.Length, 1) && (bRead ==> buffer[..] == received)
    {
      hide Inv, Commands;
      if !ended {
        result := -I2C_MASTER_TIMEOUT;
      }
      if result != 0 {
        return result;
      }
      AllMeans(Value());
      if bRead {
        NothingOutstanding(Value());
        return buffer.Length - rxLen;
      }
      return buffer.Length - txLen;
    }

    /** A transfer of the whole buffer. The driver polls the controller until the transfer has ended
        or the clock has run out, which is after the given number of polls. Success means that all
        bytes went over the bus in order, the last one with the STOP flag. */
    method Transfer(read: bool, buf: array<uint8>, busBusy: bool, polls: nat) returns (r: int)
      modifies this, buf
      ensures buffer == buf && bRead == read
      ensures r == -I2C_MASTER_BUS_BUSY <==> busBusy
      ensures busBusy ==> buf[..] == old(buf[..])
      ensures !busBusy ==> asked == old(buf[..]) && Executed(read, old(buf[..]), executed)
      ensures !busBusy ==> Polled(old(polled), polled, polls)
      ensures !busBusy ==> (r == -I2C_MASTER_TIMEOUT <==> !Ended(old(polled), polled))
      ensures !busBusy ==> (r == -I2C_MASTER_ERROR_NACK <==> Ended(old(polled), polled) && aborted)
      ensures !busBusy ==> (r == buf.Length <==> Ended(old(polled), polled) && !aborted)
      ensures r >= 0 ==> r == buf.Length && |executed| == Max(buf.Length, 1)
      ensures r >= 0 && read ==> buf[..] == received
      ensures !read ==> buf[..] == old(buf[..])
    {
      hide Inv, Commands, AllExecuted, Executed, Masked, Polled, Ended;
      bRead, buffer := read, buf;
      rxPtr, txPtr, rxLen, txLen := 0, 0, buf.Length, buf.Length;
      outstanding, result := 0, 0;
      if busBusy {
        return -I2C_MASTER_BUS_BUSY;
      }
      r := Attempt(polls);
    }

    /** The part of Transfer that uses the bus */
    method Attempt(polls: nat) returns (r: int)
      requires rxPtr == txPtr == 0 && rxLen == txLen == buffer.Length && outstanding == result == 0
      modifies `tx, `rx, `stopDet, `aborted, `asked, `executed, `received, `rxPtr, `rxLen, `outstanding, `got, `txPtr,
               `txLen, `txEmptyOn, `result, `polled, buffer
      ensures asked == old(buffer[..]) && Executed(bRead, old(buffer[..]), executed)
      ensures Polled(old(polled), polled, polls)
      ensures r == if !Ended(old(polled), polled) then -I2C_MASTER_TIMEOUT
                   else if aborted then -I2C_MASTER_ERROR_NACK else buffer.Length
      ensures r >= 0 ==> |executed| == Max(buffer.Length, 1) && (bRead ==> buffer[..] == received)
      ensures !bRead ==> buffer[..] == old(buffer[..])
    {
      hide Inv, Commands, AllExecuted, Executed, Masked, Polled, Ended;
      XferInit();
      var ended := PollFor(polls);
      PrefixIsExecuted(Value());
      r := Outcome(ended);
    }
  }

  /** The last poll has ended the transfer. */
  ghost predicate Ended(before: seq<bool>, after: seq<bool>) {
    |after| > |before| && after[|after| - 1]
  }

  /** The polls of one transfer: none ended it except the last one. If that did not either, there were as
      many of them as the clock allowed. */
  ghost predicate Polled(before: seq<bool>, after: seq<bool>, polls: nat) {
    && before <= after && |after| <= |before| + polls
    && (forall k :: |before| <= k < |after| - 1 ==> !after[k])
    && (!Ended(before, after) ==> |after| == |before| + polls)
  }

  /** The commands on the bus: one for each byte from the first one on, and the last one has the STOP
      flag. Without data it is the quick command. */
  ghost predicate Executed(read: bool, data: seq<uint8>, executed: seq<Command>) {
    && |executed| <= Max(|data|, 1)
    && forall k :: 0 <= k < |executed| ==>
         if |data| == 0 then executed[k] == Quick(read)
         else if read then executed[k] == ReadByte(k == |data| - 1)
         else executed[k] == WriteByte(data[k], k == |data| - 1)
  }

  lemma PrefixIsExecuted(s: Xfer)
    requires s.executed <= Commands(s)
    ensures Executed(s.read, s.data, s.executed)
  {}

  lemma AllMeans(s: Xfer)
    requires AllExecuted(s)
    ensures !s.aborted && s.txLen == 0 && |s.executed| == Max(s.Count(), 1) && s.executed <= Commands(s)
    ensures (Masked(s) ==> !s.txEmptyOn) && s.outstanding == |s.rx|
  {}

  lemma NextToIssue(s: Xfer)
    requires 0 < s.txLen <= s.Count()
    ensures CommandAt(s, s.Count() - s.txLen) ==
      if s.read then ReadByte(s.txLen == 1) else WriteByte(s.data[s.Count() - s.txLen], s.txLen == 1)
  {}

  lemma NothingReceived(s: Xfer)
    requires Inv(s) && !s.read
    ensures s.rx == []
  {
    hide Commands;
  }

  lemma NothingToDo(s: Xfer)
    requires AllExecuted(s)
    ensures s.tx == [] && !s.aborted && s.outstanding == |s.rx|
  {}

  lemma StillAllExecuted(s: Xfer)
    ensures AllExecuted(s.(stopDet := false)) <==> AllExecuted(s)
  {
    SameCommands(s, s.(stopDet := false));
    hide Commands;
  }

  lemma StartInv(s: Xfer)
    requires s.rxLen == s.txLen == s.Count() && s.outstanding == 0 && s.got == s.rx == s.received == []
    requires s.tx == s.executed == [] && !s.stopDet && !s.aborted && s.txEmptyOn
    ensures Inv(s) && Masked(s)
  {}
}
