/**
 Initialisation of static objects inside functions (circle/lib/cxa_guard.cpp), executed by
 any number of cores. A step is one access to the shared variables; a run is any
 interleaving of such steps. A constructor may run into other static objects, hence every
 core has a stack of guard calls.
*/
module CxaGuardSpec {
  import opened Basics

  /** Where a core is in __cxa_guard_acquire, in the constructor, or in __cxa_guard_release */
  datatype PC =
    | Enter        // first look at INDEX_HAS_RUN
    | Spin         // compare and exchange in GuardAcquire
    | Count        // increment of the acquire count
    | Recheck      // second look at INDEX_HAS_RUN, under the lock
    | SkipRelease  // GuardRelease, another core was faster
    | SkipFree     // the count went to zero, the lock is still to be freed
    | Construct    // 1 was returned, the constructor is running
    | DoneRelease  // INDEX_HAS_RUN was written by __cxa_guard_release
    | DoneFree

  datatype Call = Call(obj: nat, pc: PC)

  datatype State = State(
    guardCore: Option<nat>, acquireCount: int,  // None is LOCK_FREE
    hasRun: set<nat>, inUse: set<nat>,          // the bytes of the guard objects
    stacks: seq<seq<Call>>,                     // per core, the innermost call is the last one
    started: seq<nat>, skipped: seq<nat>)       // history: constructors started, calls told to skip

  datatype Move = Begin(obj: nat) | Continue

  function Top(st: seq<Call>): Call
    requires st != []
  {
    st[|st| - 1]
  }

  function SetTop(st: seq<Call>, pc: PC): seq<Call>
    requires st != []
  {
    st[|st| - 1 := Top(st).(pc := pc)]
  }

  function Pop(st: seq<Call>): seq<Call>
    requires st != []
  {
    st[..|st| - 1]
  }

  predicate MayBegin(st: seq<Call>, obj: nat) {
    && (st != [] ==> Top(st).pc == Construct)
    && forall i :: 0 <= i < |st| ==> st[i].obj != obj  // an object does not need itself
  }

  function With(s: State, c: nat, st: seq<Call>): State
    requires c < |s.stacks|
  {
    s.(stacks := s.stacks[c := st])
  }

  function Skip(s: State, c: nat): State
    requires c < |s.stacks| && s.stacks[c] != []
  {
    With(s, c, Pop(s.stacks[c])).(skipped := s.skipped + [Top(s.stacks[c]).obj])
  }

  /** The next access of core c */
  function Advance(s: State, c: nat): State
    requires c < |s.stacks| && s.stacks[c] != []
  {
    var st := s.stacks[c];
    var o := Top(st).obj;
    match Top(st).pc
    case Enter =>
      if o in s.hasRun then Skip(s, c) else With(s, c, SetTop(st, Spin))
    case Spin =>
      if s.guardCore == None || s.guardCore == Some(c)
      then With(s, c, SetTop(st, Count)).(guardCore := Some(c))
      else s
    case Count =>
      With(s, c, SetTop(st, Recheck)).(acquireCount := s.acquireCount + 1)
    case Recheck =>
      if o in s.hasRun then With(s, c, SetTop(st, SkipRelease))
      else With(s, c, SetTop(st, Construct)).(inUse := s.inUse + {o}, started := s.started + [o])
    case SkipRelease =>
      var s1 := s.(acquireCount := s.acquireCount - 1);
      if s1.acquireCount == 0 then With(s1, c, SetTop(st, SkipFree)) else Skip(s1, c)
    case SkipFree =>
      Skip(s, c).(guardCore := None)
    case Construct =>
      With(s, c, SetTop(st, DoneRelease)).(hasRun := s.hasRun + {o})
    case DoneRelease =>
      var s1 := s.(acquireCount := s.acquireCount - 1);
      if s1.acquireCount == 0 then With(s1, c, SetTop(st, DoneFree)) else With(s1, c, Pop(st))
    case DoneFree =>
      With(s, c, Pop(st)).(guardCore := None)
  }

  function Step(s: State, c: nat, m: Move): State {
    if c >= |s.stacks| then s
    else
      match m
      case Begin(o) =>
        if MayBegin(s.stacks[c], o) then With(s, c, s.stacks[c] + [Call(o, Enter)]) else s
      case Continue =>
        if s.stacks[c] == [] then s else Advance(s, c)
  }

  function Init(cores: nat): State {
    State(None, 0, {}, {}, seq(cores, _ => []), [], [])
  }

  // ---------------------------------------------------------------- invariant

  predicate Owns(pc: PC) {
    !pc.Enter? && !pc.Spin?
  }

  predicate Counted(pc: PC) {
    pc.Recheck? || pc.SkipRelease? || pc.Construct? || pc.DoneRelease?
  }

  /** The core is past a successful GuardAcquire and has not freed the lock yet. */
  predicate Holds(st: seq<Call>) {
    |st| > 1 || (|st| == 1 && Owns(st[0].pc))
  }

  function Weight(st: seq<Call>): nat {
    if st == [] then 0 else |st| - 1 + if Counted(Top(st).pc) then 1 else 0
  }

  ghost predicate StackInv(s: State, c: nat)
    requires c < |s.stacks|
  {
    var st := s.stacks[c];
    && (forall i :: 0 <= i < |st| - 1 ==> st[i].pc == Construct)
    && (forall i, j :: 0 <= i < j < |st| ==> st[i].obj != st[j].obj)
    && (forall i :: 0 <= i < |st| && st[i].pc == Construct ==> st[i].obj in s.inUse && st[i].obj !in s.hasRun)
    && (st != [] && Top(st).pc in {SkipRelease, SkipFree, DoneRelease, DoneFree} ==> Top(st).obj in s.hasRun)
    && (st != [] && Top(st).pc in {SkipFree, DoneFree} ==> |st| == 1)
    && (Holds(st) <==> s.guardCore == Some(c))
  }

  ghost predicate Constructing(st: seq<Call>, o: nat) {
    exists i :: 0 <= i < |st| && st[i] == Call(o, Construct)
  }

  /** An object whose constructor was started and is not done is on the stack of the lock holder. */
  ghost predicate UnfinishedIsRunning(s: State)
    requires s.guardCore.Some? ==> s.guardCore.value < |s.stacks|
  {
    forall o :: o in s.inUse && o !in s.hasRun ==>
      s.guardCore.Some? && Constructing(s.stacks[s.guardCore.value], o)
  }

  ghost predicate Inv(s: State) {
    && (forall c :: 0 <= c < |s.stacks| ==> StackInv(s, c))
    && (s.guardCore.Some? ==> s.guardCore.value < |s.stacks|)
    && s.acquireCount == (if s.guardCore.None? then 0 else Weight(s.stacks[s.guardCore.value]))
    && s.hasRun <= s.inUse
    && UnfinishedIsRunning(s)
    && (forall o :: o in s.started <==> o in s.inUse)
    && (forall i, j :: 0 <= i < j < |s.started| ==> s.started[i] != s.started[j])
    && (forall i :: 0 <= i < |s.skipped| ==> s.skipped[i] in s.hasRun)
  }

  /** The assertions of the source hold where the next access of core c would check them. */
  ghost predicate AssertionsHold(s: State, c: nat)
    requires c < |s.stacks|
  {
    var st := s.stacks[c];
    st != [] ==>
      && (Top(st).pc == Recheck && Top(st).obj !in s.hasRun ==> Top(st).obj !in s.inUse)
      && (Top(st).pc in {SkipRelease, DoneRelease} ==> s.acquireCount > 0)
  }

  lemma InvImpliesAssertions(s: State, c: nat)
    requires Inv(s) && c < |s.stacks|
    ensures AssertionsHold(s, c)
  {
    assert StackInv(s, c);
  }

  lemma BeginKeeps(s: State, c: nat, o: nat)
    requires Inv(s)
    ensures Inv(Step(s, c, Begin(o)))
  {
    if c < |s.stacks| && MayBegin(s.stacks[c], o) {
      var s' := Step(s, c, Begin(o));
      assert StackInv(s, c);
      assert forall d :: 0 <= d < |s.stacks| && d != c ==> StackInv(s, d) ==> StackInv(s', d);
      KeepsConstructing(s, s', c);
    }
  }

  lemma KeepsConstructing(s: State, s': State, c: nat)
    requires c < |s.stacks| == |s'.stacks|
    requires forall d :: 0 <= d < |s.stacks| && d != c ==> s'.stacks[d] == s.stacks[d]
    requires |s'.stacks[c]| >= |s.stacks[c]|
    requires forall i :: 0 <= i < |s.stacks[c]| && s.stacks[c][i].pc == Construct ==> s'.stacks[c][i] == s.stacks[c][i]
    ensures forall d, o :: 0 <= d < |s.stacks| && Constructing(s.stacks[d], o) ==> Constructing(s'.stacks[d], o)
  {
    forall d, o | 0 <= d < |s.stacks| && Constructing(s.stacks[d], o)
      ensures Constructing(s'.stacks[d], o)
    {
      var i :| 0 <= i < |s.stacks[d]| && s.stacks[d][i] == Call(o, Construct);
      assert s'.stacks[d][i] == Call(o, Construct);
    }
  }

  /** A step of core c leaves the stacks of the other cores in order. */
  lemma OthersKeep(s: State, s': State, c: nat)
    requires Inv(s) && c < |s.stacks| == |s'.stacks|
    requires forall d :: 0 <= d < |s.stacks| && d != c ==> s'.stacks[d] == s.stacks[d]
    requires s.inUse <= s'.inUse && s.hasRun <= s'.hasRun
    requires s'.hasRun != s.hasRun ==> s.guardCore == Some(c)
    requires s'.guardCore == s.guardCore || {s.guardCore, s'.guardCore} == {None, Some(c)}
    ensures forall d :: 0 <= d < |s.stacks| && d != c ==> StackInv(s', d)
  {
    forall d | 0 <= d < |s.stacks| && d != c
      ensures StackInv(s', d)
    {
      assert StackInv(s, d);
    }
  }

  lemma UnfinishedKeeps(s: State, s': State, c: nat)
    requires Inv(s) && c < |s.stacks| && s.stacks[c] != [] && s' == Advance(s, c)
    ensures s'.guardCore.Some? ==> s'.guardCore.value < |s'.stacks|
    ensures UnfinishedIsRunning(s')
  {
    var st := s.stacks[c];
    assert StackInv(s, c);
    forall o | o in s'.inUse && o !in s'.hasRun
      ensures s'.guardCore.Some? && Constructing(s'.stacks[s'.guardCore.value], o)
    {
      if o in s.inUse {
        var g := s.guardCore.value;
        var i :| 0 <= i < |s.stacks[g]| && s.stacks[g][i] == Call(o, Construct);
        assert s'.stacks[g][i] == Call(o, Construct);
      } else {
        assert s'.stacks[c][|st| - 1] == Call(o, Construct);
      }
    }
  }

  /** Every step of every core keeps the invariant. */
  lemma AdvanceKeeps(s: State, c: nat)
    requires Inv(s) && c < |s.stacks| && s.stacks[c] != []
    ensures Inv(Advance(s, c))
  {
    var s' := Advance(s, c);
    assert StackInv(s, c);
    InvImpliesAssertions(s, c);
    AdvanceShape(s, c);
    OthersKeep(s, s', c);
    OwnStackKeeps(s, s', c);
    UnfinishedKeeps(s, s', c);
    hide UnfinishedIsRunning, StackInv;
    forall d | 0 <= d < |s'.stacks|
      ensures StackInv(s', d)
    {}
  }

  /** What an access of core c changes */
  lemma AdvanceShape(s: State, c: nat)
    requires c < |s.stacks| && s.stacks[c] != [] && StackInv(s, c)
    ensures var s' := Advance(s, c);
      && |s'.stacks| == |s.stacks| && s.inUse <= s'.inUse && s.hasRun <= s'.hasRun
      && (forall d :: 0 <= d < |s.stacks| && d != c ==> s'.stacks[d] == s.stacks[d])
      && (s'.hasRun != s.hasRun ==> s.guardCore == Some(c))
      && (s'.guardCore == s.guardCore || {s.guardCore, s'.guardCore} == {None, Some(c)})
  {}

  lemma OwnStackKeeps(s: State, s': State, c: nat)
    requires c < |s.stacks| && s.stacks[c] != [] && s' == Advance(s, c)
    requires StackInv(s, c) && AssertionsHold(s, c)
    requires s.guardCore == Some(c) ==> s.acquireCount == Weight(s.stacks[c])
    ensures c < |s'.stacks| && StackInv(s', c)
  {}

  lemma StepKeeps(s: State, c: nat, m: Move)
    requires Inv(s)
    ensures Inv(Step(s, c, m)) && |Step(s, c, m).stacks| == |s.stacks|
  {
    match m
    case Begin(o) => BeginKeeps(s, c, o);
    case Continue => if c < |s.stacks| && s.stacks[c] != [] { AdvanceKeeps(s, c); }
  }

  // ---------------------------------------------------------------- runs

  function Run(cores: nat, moves: seq<(nat, Move)>): (s: State)
    ensures Inv(s) && |s.stacks| == cores
  {
    if moves == [] then Init(cores)
    else
      hide Inv, Step;
      var n := |moves| - 1;
      var s := Run(cores, moves[..n]);
      StepKeeps(s, moves[n].0, moves[n].1);
      Step(s, moves[n].0, moves[n].1)
  }

  /** After every run the lock has at most one holder, and a free lock was released as often
      as it was acquired. */
  lemma RunExcludes(cores: nat, moves: seq<(nat, Move)>)
    ensures var s := Run(cores, moves);
      && (forall c, d | 0 <= c < cores && 0 <= d < cores :: Holds(s.stacks[c]) && Holds(s.stacks[d]) ==> c == d)
      && (s.guardCore == None ==> s.acquireCount == 0 && forall c :: 0 <= c < cores ==> !Holds(s.stacks[c]))
      && (forall c :: 0 <= c < cores ==> AssertionsHold(s, c))
  {
    var s := Run(cores, moves);
    forall c | 0 <= c < cores
      ensures Holds(s.stacks[c]) <==> s.guardCore == Some(c)
      ensures AssertionsHold(s, c)
    {
      assert StackInv(s, c);
      InvImpliesAssertions(s, c);
    }
    hide StackInv, AssertionsHold, Holds, UnfinishedIsRunning;
  }

  /** After every run each constructor was started at most once, and whoever was told to skip
      it relies on an object whose flag is set, and whose constructor was started and runs on
      no core any more. */
  lemma RunInitialisesOnce(cores: nat, moves: seq<(nat, Move)>)
    ensures var s := Run(cores, moves);
      && (forall i, j | 0 <= i < |s.started| && 0 <= j < |s.started| :: s.started[i] == s.started[j] ==> i == j)
      && (forall o :: o in s.skipped ==> o in s.hasRun)
      && (forall o :: o in s.hasRun ==> o in s.started)
      && (forall o, c :: o in s.hasRun && 0 <= c < cores ==> !Constructing(s.stacks[c], o))
  {
    var s := Run(cores, moves);
    forall o, c | o in s.hasRun && 0 <= c < cores
      ensures !Constructing(s.stacks[c], o)
    {
      assert StackInv(s, c);
    }
  }

  lemma RunExtends(cores: nat, moves: seq<(nat, Move)>, c: nat, m: Move)
    ensures Run(cores, moves + [(c, m)]) == Step(Run(cores, moves), c, m)
  {
    assert (moves + [(c, m)])[..|moves|] == moves;
  }

  lemma StepOnlySets(s: State, c: nat, m: Move)
    ensures s.hasRun <= Step(s, c, m).hasRun && s.started <= Step(s, c, m).started
  {}

  /** A set flag stays set, and what was skipped once is never constructed again. */
  lemma {:induction false} FlagsStay(cores: nat, moves: seq<(nat, Move)>, more: seq<(nat, Move)>)
    ensures Run(cores, moves).hasRun <= Run(cores, moves + more).hasRun
    ensures Run(cores, moves).started <= Run(cores, moves + more).started
    decreases |more|
  {
    if more == [] {
      assert moves + more == moves;
    } else {
      var n := |more| - 1;
      FlagsStay(cores, moves, more[..n]);
      assert moves + more == moves + more[..n] + [(more[n].0, more[n].1)];
      hide Step, Inv, Run;
      RunExtends(cores, moves + more[..n], more[n].0, more[n].1);
      StepOnlySets(Run(cores, moves + more[..n]), more[n].0, more[n].1);
    }
  }

  /** The cores never block each other: while a call is open somewhere, some core moves on. */
  lemma NoDeadlock(cores: nat, moves: seq<(nat, Move)>)
    requires exists c :: 0 <= c < cores && Run(cores, moves).stacks[c] != []
    ensures var s := Run(cores, moves); exists c :: 0 <= c < cores && Step(s, c, Continue) != s
  {
    var s := Run(cores, moves);
    var open :| 0 <= open < cores && s.stacks[open] != [];
    var c := if s.guardCore.Some? then s.guardCore.value else open;
    assert StackInv(s, c);
    assert Step(s, c, Continue) != s by {
      if Top(s.stacks[c]).pc.Spin? {
        assert Top(Step(s, c, Continue).stacks[c]).pc == Count;
      }
    }
  }

  /** The precondition of the claims: an object that enters its own initialisation again gets
      through the lock and trips the assertion on the in-use flag. */
  lemma ReentryTripsAssertion(s: State, c: nat, o: nat)
    requires Inv(s) && c < |s.stacks| && s.stacks[c] != [] && Top(s.stacks[c]).pc == Construct
    requires exists i :: 0 <= i < |s.stacks[c]| && s.stacks[c][i].obj == o
    ensures var s1 := With(s, c, s.stacks[c] + [Call(o, Enter)]);
      var s4 := Step(Step(Step(s1, c, Continue), c, Continue), c, Continue);
      c < |s4.stacks| && !AssertionsHold(s4, c)
  {
    assert StackInv(s, c);
    var st := s.stacks[c];
    var i :| 0 <= i < |st| && st[i].obj == o;
    assert st[i].pc == Construct;
    var s1 := With(s, c, st + [Call(o, Enter)]);
    var s2 := Step(s1, c, Continue);
    assert s2.stacks[c] == st + [Call(o, Spin)];
    var s3 := Step(s2, c, Continue);
    assert s3.stacks[c] == st + [Call(o, Count)];
    var s4 := Step(s3, c, Continue);
    assert s4.stacks[c] == st + [Call(o, Recheck)];
  }
}
