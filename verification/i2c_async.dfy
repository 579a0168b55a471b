/** The interrupt-driven I2C master with its state in place (src/i2cmasterasync.cpp). */
module I2cMasterAsync {
  import opened Basics
  import opened DisplaySpec

  /** What a read of the status register shows */
  datatype Status = Status(err: bool, txd: bool, txw: bool, done: bool, ta: bool)

  class CI2CMasterAsync {
    var busy: bool
    var buf: array<uint8>       // m_pBuf points into it
    var pos: nat                // at this position
    var remaining: nat
    // controller
    var fifo: seq<uint8>
    var wire: seq<uint8>
    var dlen: nat
    var active: bool
    var done: bool
    var err: bool
    var ints: bool
    ghost var shown: seq<Status>  // what the reads of the status register have shown
    const doneAfterErr: bool    // whether the controller reports DONE also after an error

    constructor (doneAfterErr: bool)
      ensures !busy && !ints && Idle() && fresh(buf) && this.doneAfterErr == doneAfterErr
    {
      this.doneAfterErr := doneAfterErr;
      busy, buf, pos, remaining := false, new uint8[0], 0, 0;
      fifo, wire, dlen, active, done, err, ints := [], [], 0, false, false, false, false;
      shown := [];
    }

    /** No interrupt and no transfer, as after every transfer */
    ghost predicate Idle()
      reads this
    {
      !ints && !active && |fifo| <= FIFO_SIZE
    }

    /** No interrupt, but an earlier transfer may still be active; the controller has the bytes that
        it needs to end it. */
    ghost predicate Settling()
      reads this
    {
      !ints && |fifo| <= FIFO_SIZE && (active ==> |wire| < dlen <= |wire| + |fifo|)
    }

    /** The buffer is on its way to the wire. */
    ghost predicate Sending()
      reads this, buf
    {
      && |fifo| <= FIFO_SIZE && |wire| <= dlen == buf.Length && pos + remaining == buf.Length
      && Conserved(wire, fifo, buf[..], pos, buf[..])
      && (done && !err ==> |wire| == dlen && !active) && (err ==> !active && (doneAfterErr ==> done))
    }

    ghost predicate InTransfer()
      reads this, buf
    {
      busy && ints && Sending()
    }

    /** Until the status register is read the controller may have sent bytes, ended the transfer or
        failed. */
    method ReadStatus() returns (s: Status)
      requires Sending()
      modifies `fifo, `wire, `active, `done, `err, `shown
      ensures shown == old(shown) + [s]
      ensures Sending() && |fifo| <= old(|fifo|) && |wire| >= old(|wire|)
      ensures s.err == err && s.done == done && s.ta == active
      ensures !old(active) ==> !active && done == old(done) && err == old(err) && wire == old(wire) && fifo == old(fifo)
      ensures s.txd <==> |fifo| < FIFO_SIZE
      ensures old(active) ==> active || done || err
    {
      if active {
        var n: nat :| n <= |fifo|;
        ghost var w, f := wire, fifo;
        ManySent(wire, fifo, buf[..], pos, n);
        wire := wire + fifo[..n];
        fifo := fifo[n..];
        var fails: bool := *;
        if fails {
          var withDone: bool := *;
          err, active, done := true, false, done || withDone || doneAfterErr;
        } else if |wire| == dlen {
          done, active := true, false;
        }
      }
      var txw: bool := *;
      s := Status(err, |fifo| < FIFO_SIZE, txw, done, active);
      shown := shown + [s];
    }

    method FillFIFO()
      requires Sending()
      modifies `fifo, `wire, `active, `done, `err, `shown, `pos, `remaining
      ensures old(shown) <= shown
      ensures Sending() && remaining <= old(remaining) && |wire| >= old(|wire|)
      ensures !old(active) ==> !active && done == old(done) && err == old(err) && wire == old(wire)
      ensures old(active) ==> active || done || err
      ensures remaining == 0 || |fifo| == FIFO_SIZE
    {
      hide Conserved;
      while remaining > 0
        invariant Sending() && remaining <= old(remaining) && |wire| >= old(|wire|) && old(shown) <= shown
        invariant !old(active) ==> !active && done == old(done) && err == old(err) && wire == old(wire)
        invariant old(active) ==> active || done || err
        decreases remaining
      {
        var s := ReadStatus();
        if !s.txd {
          break;
        }
        PushConserves(wire, fifo, buf[..], pos, buf[..]);
        fifo := fifo + [buf[pos]];
        pos := pos + 1;
        remaining := remaining - 1;
      }
    }

    /** Waits until no transfer is active: in every read of the status register the controller sends
        something, ends the transfer, or fails. */
    method AwaitInactive()
      requires Settling()
      modifies `fifo, `wire, `active, `done, `err
      ensures !active && |fifo| <= FIFO_SIZE
    {
      while active
        invariant |fifo| <= FIFO_SIZE && (active ==> |wire| < dlen <= |wire| + |fifo|)
        decreases |fifo| + if active then 1 else 0
      {
        var n: nat :| 0 < n <= |fifo| && n <= dlen - |wire|;
        wire, fifo := wire + fifo[..n], fifo[n..];
        var fails: bool := *;
        active := !fails && |wire| < dlen;
        done, err := done || (!fails && !active), err || fails;
      }
    }

    /** Waits, clears the status and the FIFO and sets the number of bytes to send. */
    method Prepare()
      requires Settling() && pos == 0 && remaining == buf.Length
      modifies `fifo, `wire, `active, `done, `err, `dlen
      ensures Sending() && !active && !done && !err && wire == fifo == []
    {
      hide Conserved;
      AwaitInactive();
      done, err := false, false;
      dlen := buf.Length;
      fifo, wire := [], [];
      NothingSent(buf[..]);
    }

    /** Starts to send the buffer and returns at once. */
    method WriteAsync(buffer: array<uint8>)
      requires Settling()
      modifies this
      ensures InTransfer() && buf == buffer && active && wire == [] && !done && !err
      ensures dlen == buffer.Length && fifo == buffer[..Min(16, buffer.Length)]
    {
      hide Conserved;
      buf := buffer;
      pos := 0;
      remaining := buffer.Length;
      busy := true;
      Prepare();
      FillFIFO();
      StartedWith(fifo, buffer[..], pos);
      active, ints := true, true;
    }

    /** The handler ends the transfer only when all of the buffer is on the wire, or after an
        error, when a prefix is. It fills the FIFO whenever the status it has read first asks for it. */
    method IRQHandler()
      requires InTransfer()
      modifies `busy, `pos, `remaining, `fifo, `wire, `active, `done, `err, `ints, `shown
      ensures |shown| > |old(shown)| && old(shown) == shown[..|old(shown)|]
      ensures var seen := shown[|old(shown)|];
        && (busy <==> !seen.err && !seen.done)
        && (if busy then InTransfer() else Idle())
        && (!busy && !seen.err ==> wire == buf[..])
        && (seen.err ==> wire <= buf[..])
        && (seen.txw && !seen.err ==> remaining == 0 || |fifo| == FIFO_SIZE)
      ensures old(done || err) ==> !busy
    {
      hide Conserved;
      var nStatus := ReadStatus();
      SentIsPrefix(wire, fifo, buf[..], pos, buf[..]);
      if nStatus.err {
        busy := false;
        err := false;
        ints := false;
        return;
      }
      if nStatus.txw {
        FillFIFO();
      }
      SentIsPrefix(wire, fifo, buf[..], pos, buf[..]);
      if nStatus.done {
        busy := false;
        done := false;
        ints := false;
      }
    }

    /** A read of the status register in the loop of the blocking write. Meanwhile an active
        controller sends something, or fails, or all has been sent and the transfer ends. */
    method AwaitStatus() returns (s: Status)
      requires Sending() && (active || done) && (err ==> done) && doneAfterErr
      modifies `fifo, `wire, `active, `done, `err, `shown
      ensures shown == old(shown) + [s] && s.err == err
      ensures Sending() && (active || done) && (err ==> done) && s.done == done
      ensures |wire| >= old(|wire|) && |fifo| <= old(|fifo|)
      ensures !done ==> |wire| < dlen && (old(fifo) != [] ==> |wire| > old(|wire|))
    {
      hide Conserved;
      if active {
        SentIsPrefix(wire, fifo, buf[..], pos, buf[..]);
        var n: nat :| n <= |fifo| && (fifo != [] ==> n > 0);
        ManySent(wire, fifo, buf[..], pos, n);
        wire, fifo := wire + fifo[..n], fifo[n..];
        var fails: bool := *;
        if fails {
          err, active, done := true, false, true;
        } else if |wire| == dlen {
          done, active := true, false;
        }
      }
      s := Status(err, |fifo| < FIFO_SIZE, false, done, active);
      shown := shown + [s];
    }

    /** The blocking write, with a controller that reports DONE also after an error; without that
        the loop never ends when the device does not acknowledge. All of the buffer gets on the
        wire, or after an error, which stays in the status register, a prefix. */
    method Write(buffer: array<uint8>)
      requires Settling() && !busy && doneAfterErr
      modifies this
      ensures Idle() && !busy && !done
      ensures |shown| > |old(shown)| && var last := shown[|shown| - 1];
        last.done && last.err == err && if last.err then wire <= buffer[..] else wire == buffer[..]
    {
      hide Conserved;
      buf, pos, remaining := buffer, 0, buffer.Length;
      Prepare();
      active := true;
      var s := AwaitStatus();
      while !s.done
        invariant Sending() && buf == buffer && !ints && !busy && (active || done) && (err ==> done) && s.done == done
        invariant |shown| > |old(shown)| && shown[|shown| - 1] == s && s.err == err
        decreases remaining + buffer.Length - |wire|, if done then 0 else 1
      {
        FillFIFO();
        SentIsPrefix(wire, fifo, buf[..], pos, buf[..]);
        s := AwaitStatus();
      }
      SentIsPrefix(wire, fifo, buf[..], pos, buf[..]);
      done := false;
    }
  }

  /** With nothing on the wire the FIFO has the first bytes of the buffer. */
  lemma StartedWith(fifo: seq<uint8>, buffer: seq<uint8>, pos: nat)
    requires Conserved([], fifo, buffer, pos, buffer)
    ensures pos == |fifo| && fifo == buffer[..pos]
  {
    var all := fifo + buffer[pos..];
    assert [] + fifo + buffer[pos..] == all == buffer;
    assert all[..|fifo|] == fifo;
  }

  lemma NothingSent(buffer: seq<uint8>)
    ensures Conserved([], [], buffer, 0, buffer)
  {
    assert [] + [] + buffer[0..] == buffer;
  }

  lemma {:induction false} ManySent(wire: seq<uint8>, fifo: seq<uint8>, buffer: seq<uint8>, pos: nat, n: nat)
    requires Conserved(wire, fifo, buffer, pos, buffer) && n <= |fifo|
    ensures Conserved(wire + fifo[..n], fifo[n..], buffer, pos, buffer)
    ensures |wire| + |fifo| <= |buffer|
  {
    assert fifo == fifo[..n] + fifo[n..];
    SentIsPrefix(wire, fifo, buffer, pos, buffer);
  }
}
