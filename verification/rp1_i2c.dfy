/**
 Transfers of the DesignWare I2C master of the RP1 (circle/lib/i2cmaster-rp1.cpp): the driver
 issues commands to one FIFO and fetches received bytes from another, while the controller
 executes the commands.
*/
module Rp1I2cSpec {
  import opened Basics

  const FIFO_SIZE := 32

  /** Words written to DW_IC_DATA_CMD. Quick is the command of a transfer without data. */
  datatype Command = WriteByte(data: uint8, stop: bool) | ReadByte(stop: bool) | Quick(read: bool)

  datatype Xfer = Xfer(
    // driver
    read: bool, data: seq<uint8>, rxLen: nat, txLen: nat, outstanding: int, got: seq<uint8>, txEmptyOn: bool,
    // controller: FIFOs and flags
    tx: seq<Command>, rx: seq<uint8>, stopDet: bool, aborted: bool,
    // history: commands executed and bytes the device has sent
    executed: seq<Command>, received: seq<uint8>)
  {
    function Count(): nat {
      |data|
    }
  }

  /** The k-th command of a transfer: only the last one has the STOP flag. */
  function CommandAt(s: Xfer, k: nat): Command
    requires k < s.Count()
  {
    var stop := k == s.Count() - 1;
    if s.read then ReadByte(stop) else WriteByte(s.data[k], stop)
  }

  /** All commands of a transfer */
  function Commands(s: Xfer): (c: seq<Command>)
    ensures |c| == if s.Count() == 0 then 1 else s.Count()
  {
    if s.Count() == 0 then [Quick(s.read)] else seq(s.Count(), k requires 0 <= k < s.Count() => CommandAt(s, k))
  }

  /** Number of commands issued so far */
  function Issued(s: Xfer): int {
    if s.Count() == 0 then (if s.txEmptyOn then 0 else 1) else s.Count() - s.txLen
  }

  function HasStop(c: Command): bool {
    c.Quick? || c.stop
  }

  /** The bytes that have arrived but are not fetched, and those still to come */
  predicate ReadsAccounted(s: Xfer) {
    && s.received == s.got + s.rx && |s.got| == s.Count() - s.rxLen
    && if !s.read || s.Count() == 0 then s.outstanding == 0 && s.rx == [] && s.got == []
       else
         && s.outstanding == s.rxLen - s.txLen <= FIFO_SIZE
         && |s.rx| + |s.tx| <= s.outstanding
         && (!s.aborted ==> |s.rx| + |s.tx| == s.outstanding && |s.received| == |s.executed|)
  }

  /** The interrupt for an empty FIFO is enabled only while there is a command to issue. */
  predicate Masked(s: Xfer) {
    s.Count() > 0 && s.txEmptyOn ==> s.txLen > 0
  }

  ghost predicate Inv(s: Xfer) {
    && s.txLen <= s.Count() && s.rxLen <= s.Count() && (!s.read ==> s.rxLen == s.Count())
    && |s.tx| <= FIFO_SIZE && |s.rx| <= FIFO_SIZE
    && ReadsAccounted(s)
    && (!s.aborted ==> s.executed + s.tx == Commands(s)[..Issued(s)])
    && s.executed <= Commands(s)
    && (s.stopDet && !s.aborted ==> |s.executed| == |Commands(s)|)
  }

  // ---------------------------------------------------------------- driver

  /** The next command is written. After an abort the controller discards what is written. */
  function Issue(s: Xfer): Xfer
    requires 0 < s.txLen <= s.Count()
  {
    var c := CommandAt(s, s.Count() - s.txLen);
    s.(txLen := s.txLen - 1, tx := if s.aborted then s.tx else s.tx + [c],
       outstanding := if s.read then s.outstanding + 1 else s.outstanding)
  }

  function IssueQuick(s: Xfer): Xfer {
    s.(tx := if s.aborted then s.tx else s.tx + [Quick(s.read)], txEmptyOn := false)
  }

  function Fetch(s: Xfer): Xfer
    requires s.rx != [] && s.rxLen > 0
  {
    s.(got := s.got + [s.rx[0]], rx := s.rx[1..], rxLen := s.rxLen - 1, outstanding := s.outstanding - 1)
  }

  // ---------------------------------------------------------------- controller

  function Execute(s: Xfer, b: uint8): Xfer
    requires s.tx != []
  {
    var c := s.tx[0];
    var s1 := s.(tx := s.tx[1..], executed := s.executed + [c], stopDet := s.stopDet || HasStop(c));
    if c.ReadByte? then s1.(rx := s.rx + [b], received := s.received + [b]) else s1
  }

  /** A command is not acknowledged: the controller drops all commands. */
  function Abort(s: Xfer, withStop: bool): Xfer {
    s.(tx := [], aborted := true, stopDet := s.stopDet || withStop)
  }

  // ---------------------------------------------------------------- invariant

  lemma IssuedPrefix(s: Xfer, n: nat)
    requires n < |Commands(s)|
    ensures Commands(s)[..n + 1] == Commands(s)[..n] + [Commands(s)[n]]
  {}

  /** With room for one more command both FIFOs stay within their size. */
  lemma IssueKeeps(s: Xfer)
    requires Inv(s) && s.txLen > 0 && |s.tx| < FIFO_SIZE && (s.read ==> s.outstanding < FIFO_SIZE)
    ensures Inv(Issue(s))
  {
    var s', n := Issue(s), s.Count() - s.txLen;
    SameCommands(s, s');
    IssuedPrefix(s, n);
    assert Commands(s)[n] == CommandAt(s, n);
    hide Commands, CommandAt;
    if !s.aborted {
      assert s'.executed + s'.tx == (s.executed + s.tx) + [CommandAt(s, n)];
    }
  }

  lemma QuickKeeps(s: Xfer)
    requires Inv(s) && s.Count() == 0 && s.txEmptyOn
    ensures Inv(IssueQuick(s))
  {
    if !s.aborted {
      assert s.executed + s.tx == Commands(s)[..0] == [];
      assert s.executed == [] && s.tx == [];
    }
  }

  lemma FetchKeeps(s: Xfer)
    requires Inv(s) && s.rx != []
    ensures s.read && s.Count() > 0 && s.rxLen > 0 && Inv(Fetch(s))
  {
    hide Commands;
    assert s.rx == [s.rx[0]] + s.rx[1..];
    var s' := Fetch(s);
    SameCommands(s, s');
  }

  lemma SameCommands(s: Xfer, s': Xfer)
    requires s.read == s'.read && s.data == s'.data
    ensures Commands(s) == Commands(s')
  {}

  lemma NextCommand(s: Xfer)
    requires Inv(s) && s.tx != []
    ensures !s.aborted ==>
      && |s.executed| < |Commands(s)| && s.tx[0] == Commands(s)[|s.executed|]
      && (HasStop(s.tx[0]) <==> |s.executed| == |Commands(s)| - 1)
      && (s.tx[0].ReadByte? <==> s.read && s.Count() > 0)
  {
    if !s.aborted {
      var e := |s.executed|;
      assert s.tx[0] == (s.executed + s.tx)[e] == Commands(s)[..Issued(s)][e];
    }
  }

  lemma ExecuteKeeps(s: Xfer, b: uint8)
    requires Inv(s) && s.tx != [] && !s.aborted
    ensures Inv(Execute(s, b))
  {
    NextCommand(s);
    ReadsStayAccounted(s, b);
    SameCommands(s, Execute(s, b));
    hide Commands, CommandAt, ReadsAccounted;
    FirstMoves(s.executed, s.tx, Commands(s), Issued(s));
  }

  lemma FirstMoves(done: seq<Command>, todo: seq<Command>, all: seq<Command>, n: nat)
    requires todo != [] && |done| < n <= |all| && done + todo == all[..n]
    ensures (done + [todo[0]]) + todo[1..] == all[..n] && done + [todo[0]] <= all
  {
    assert (done + todo)[|done|] == todo[0];
  }

  lemma ReadsStayAccounted(s: Xfer, b: uint8)
    requires ReadsAccounted(s) && s.tx != [] && !s.aborted && |s.rx| <= FIFO_SIZE
    requires s.tx[0].ReadByte? <==> s.read && s.Count() > 0
    ensures ReadsAccounted(Execute(s, b)) && |Execute(s, b).rx| <= FIFO_SIZE
  {
    if s.tx[0].ReadByte? {
      assert s.got + (s.rx + [b]) == (s.got + s.rx) + [b];
    }
  }

  lemma AbortKeeps(s: Xfer, withStop: bool)
    requires Inv(s)
    ensures Inv(Abort(s, withStop))
  {
    SameCommands(s, Abort(s, withStop));
    hide Commands;
  }

  // ---------------------------------------------------------------- what it means

  /** Neither FIFO overruns, and what has been executed is a prefix of the transfer: so the STOP
      flag was on the last command only, and for a non-zero count no quick command was issued. */
  lemma NoOverrunAndPrefix(s: Xfer)
    requires Inv(s)
    ensures |s.tx| <= FIFO_SIZE && |s.rx| <= FIFO_SIZE
    ensures s.read && s.Count() > 0 ==> s.outstanding == s.rxLen - s.txLen <= FIFO_SIZE
    ensures s.executed <= Commands(s)
    ensures forall k :: 0 <= k < |s.executed| ==> (HasStop(s.executed[k]) <==> k == |Commands(s)| - 1)
    ensures s.Count() > 0 && !s.aborted ==> forall c :: c in s.executed + s.tx ==> !c.Quick?
  {
    if s.Count() > 0 && !s.aborted {
      assert forall c :: c in Commands(s) ==> !c.Quick?;
      assert forall c :: c in Commands(s)[..Issued(s)] ==> c in Commands(s);
    }
  }

  /** Every command has been issued and executed. */
  ghost predicate AllExecuted(s: Xfer) {
    && !s.aborted && s.tx == [] && s.txLen == 0 && s.executed == Commands(s)
    && s.outstanding == |s.rx| <= s.rxLen && (Masked(s) ==> !s.txEmptyOn)
  }

  /** That is so when a STOP condition is seen without an abort. */
  lemma StopMeansAll(s: Xfer)
    requires Inv(s) && s.stopDet && !s.aborted
    ensures AllExecuted(s)
  {
    var c := Commands(s);
    assert s.executed + s.tx == c[..Issued(s)];
    assert |s.executed| == |c|;
    assert Issued(s) == |c| && |s.tx| == 0;
  }

  /** If then nothing is outstanding, every byte has been fetched, in order. */
  lemma NothingOutstanding(s: Xfer)
    requires Inv(s) && AllExecuted(s) && s.outstanding == 0 && s.read
    ensures s.rxLen == 0 && s.got == s.received && |s.got| == s.Count()
  {}

  lemma Bounds(s: Xfer)
    requires Inv(s)
    ensures |s.tx| <= FIFO_SIZE && |s.rx| <= s.rxLen && s.txLen <= s.Count() && s.executed <= Commands(s)
    ensures s.rx != [] ==> s.read && s.rxLen > 0
    ensures s.read && s.Count() > 0 ==>
      s.outstanding == s.rxLen - s.txLen && |s.rx| + |s.tx| <= s.outstanding <= FIFO_SIZE
    ensures s.Count() == 0 && s.txEmptyOn && !s.aborted ==> s.tx == []
  {
    if s.Count() == 0 && s.txEmptyOn && !s.aborted {
      assert s.executed + s.tx == Commands(s)[..0];
    }
  }

  lemma ClearStopKeeps(s: Xfer)
    requires Inv(s)
    ensures Inv(s.(stopDet := false)) && Commands(s.(stopDet := false)) == Commands(s)
  {
    SameCommands(s, s.(stopDet := false));
    hide Commands;
  }

  lemma MaskKeeps(s: Xfer, on: bool)
    requires Inv(s) && s.Count() > 0
    ensures Inv(s.(txEmptyOn := on))
  {
    SameCommands(s, s.(txEmptyOn := on));
    hide Commands;
  }
}
