/**
 The guard functions in their own form, as executed by one core while the others go on between
 any two of its accesses to the shared variables.
*/
module CxaGuardRuntime {
  import opened Basics
  import opened Spec = CxaGuardSpec

  /** An object and those its constructor initialises, in this order. Objects do not need
      themselves. */
  datatype Static = Static(obj: nat, needs: seq<Static>)

  ghost predicate NoReentry(t: Static, outer: set<nat>) {
    && t.obj !in outer
    && forall need :: need in t.needs ==> NoReentry(need, outer + {t.obj})
  }

  ghost function Objects(st: seq<Call>): set<nat> {
    set i | 0 <= i < |st| :: st[i].obj
  }

  /** What the other cores may have done since core c was in state s. */
  ghost predicate Undisturbed(s: State, s': State, c: nat)
    requires c < |s.stacks|
  {
    && |s'.stacks| == |s.stacks| && s'.stacks[c] == s.stacks[c]
    && s.hasRun <= s'.hasRun && s.started <= s'.started
    && (s.guardCore == Some(c) ==>
          && s'.guardCore == Some(c) && s'.acquireCount == s.acquireCount
          && s'.hasRun == s.hasRun && s'.inUse == s.inUse && s'.started == s.started)
  }

  lemma OtherStep(s: State, c: nat, d: nat, m: Move)
    requires Inv(s) && c < |s.stacks| && c != d
    ensures Undisturbed(s, Step(s, d, m), c)
  {
    if d < |s.stacks| {
      assert StackInv(s, d);
    }
  }

  /** What the invariant says about core c in front of the access pc. */
  lemma LockFacts(s: State, c: nat, below: seq<Call>, obj: nat, pc: PC)
    requires Inv(s) && c < |s.stacks| && s.stacks[c] == below + [Call(obj, pc)]
    ensures SetTop(s.stacks[c], pc) == s.stacks[c] && Pop(s.stacks[c]) == below && Top(s.stacks[c]) == Call(obj, pc)
    ensures s.guardCore == Some(c) <==> below != [] || Owns(pc)
    ensures s.guardCore == Some(c) ==> s.acquireCount == |below| + if Counted(pc) then 1 else 0
    ensures pc in {SkipRelease, SkipFree, DoneRelease, DoneFree} ==> obj in s.hasRun
    ensures pc == Recheck && obj !in s.hasRun ==> obj !in s.inUse && obj !in s.started
    ensures pc == Construct ==> obj in s.inUse && obj !in s.hasRun
    ensures pc in {SkipFree, DoneFree} ==> below == []
  {
    InvImpliesAssertions(s, c);
    assert StackInv(s, c);
    hide UnfinishedIsRunning, Constructing;
  }

  lemma SetMeansStarted(cores: nat, moves: seq<(nat, Move)>, obj: nat)
    requires obj in Run(cores, moves).hasRun
    ensures obj in Run(cores, moves).started
  {}

  lemma StackMoves(below: seq<Call>, obj: nat, pc: PC, next: PC)
    ensures SetTop(below + [Call(obj, pc)], next) == below + [Call(obj, next)]
    ensures Pop(below + [Call(obj, pc)]) == below
    ensures Top(below + [Call(obj, pc)]) == Call(obj, pc)
  {}

  lemma ObjectsPush(st: seq<Call>, call: Call)
    ensures Objects(st + [call]) == Objects(st) + {call.obj}
  {
    var st' := st + [call];
    assert st'[|st|] == call;
    forall o | o in Objects(st)
      ensures o in Objects(st')
    {
      var i :| 0 <= i < |st| && st[i].obj == o;
      assert st'[i].obj == o;
    }
  }

  /** The lock value tells core c that another core has the lock. */
  predicate HeldByOther(lock: Option<nat>, c: nat) {
    lock.Some? && lock.value != c
  }

  class Guards {
    var guardCore: Option<nat>  // s_nGuardCore
    var acquireCount: int       // s_nGuardAcquireCount
    var hasRun: set<nat>        // the objects with a non-zero byte INDEX_HAS_RUN
    var inUse: set<nat>         // INDEX_IN_USE
    // history: where the cores are, and the steps so far
    var stacks: seq<seq<Call>>
    var started: seq<nat>
    var skipped: seq<nat>
    ghost var moves: seq<(nat, Move)>
    ghost var seen: seq<Option<nat>>  // what the exchanges of the modelled core have returned

    function Value(): State
      reads this
    {
      State(guardCore, acquireCount, hasRun, inUse, stacks, started, skipped)
    }

    /** The variables are what some interleaving of the cores makes of them. */
    ghost predicate Valid()
      reads this
    {
      Value() == Run(|stacks|, moves)
    }

    ghost predicate At(c: nat, below: seq<Call>, obj: nat, pc: PC)
      reads this
    {
      c < |stacks| && stacks[c] == below + [Call(obj, pc)]
    }

    constructor (cores: nat)
      ensures Valid() && Value() == Init(cores)
    {
      guardCore, acquireCount, hasRun, inUse := None, 0, {}, {};
      stacks := seq(cores, _ => []);
      started, skipped, moves, seen := [], [], [], [];
    }

    /** Any number of accesses by the other cores */
    method Others(c: nat)
      requires Valid() && c < |stacks|
      modifies this
      ensures Valid() && Undisturbed(old(Value()), Value(), c) && seen == old(seen)
    {
      hide Inv, Step, Run;
      var n: int := *;
      for i := 0 to Max(n, 0)
        invariant Valid() && c < |stacks| && Undisturbed(old(Value()), Value(), c) && seen == old(seen)
      {
        var d: int, m: Move := *, *;
        if d >= 0 && d != c {
          OtherStep(Value(), c, d, m);
          RunExtends(|stacks|, moves, d, m);
          var s := Step(Value(), d, m);
          guardCore, acquireCount, hasRun, inUse := s.guardCore, s.acquireCount, s.hasRun, s.inUse;
          stacks, started, skipped, moves := s.stacks, s.started, s.skipped, moves + [(d, m)];
        }
      }
    }

    /** The history of an access of core c */
    method Next(c: nat, pc: PC)
      requires c < |stacks| && stacks[c] != []
      modifies this`stacks, this`moves
      ensures stacks == old(stacks)[c := SetTop(old(stacks)[c], pc)] && moves == old(moves) + [(c, Continue)]
      ensures Run(|stacks|, moves) == Step(Run(|stacks|, old(moves)), c, Continue)
    {
      RunExtends(|stacks|, moves, c, Continue);
      stacks, moves := stacks[c := SetTop(stacks[c], pc)], moves + [(c, Continue)];
    }

    /** The history of the last access of core c in its innermost call; skip when its result is 0 */
    method Return(c: nat, skip: bool)
      requires c < |stacks| && stacks[c] != []
      modifies this`stacks, this`moves, this`skipped
      ensures stacks == old(stacks)[c := Pop(old(stacks)[c])] && moves == old(moves) + [(c, Continue)]
      ensures skipped == if skip then old(skipped) + [Top(old(stacks)[c]).obj] else old(skipped)
      ensures Run(|stacks|, moves) == Step(Run(|stacks|, old(moves)), c, Continue)
    {
      RunExtends(|stacks|, moves, c, Continue);
      skipped := if skip then skipped + [Top(stacks[c]).obj] else skipped;
      stacks, moves := stacks[c := Pop(stacks[c])], moves + [(c, Continue)];
    }

    method AtomicCompareExchange(c: nat) returns (previous: Option<nat>)
      modifies this`guardCore, this`seen
      ensures previous == old(guardCore) && guardCore == if previous == None then Some(c) else previous
      ensures seen == old(seen) + [previous]
    {
      previous := guardCore;
      seen := seen + [previous];
      if previous == None {
        guardCore := Some(c);
      }
    }

    /** GuardAcquire: rounds says how long the caller is watched; it may wait for ever, for a
        constructor on another core that does not return. It ends with the first exchange that
        finds the lock free or its own. */
    method GuardAcquire(c: nat, rounds: nat, ghost below: seq<Call>, ghost obj: nat) returns (owner: bool)
      requires Valid() && At(c, below, obj, Spin)
      modifies this
      ensures Valid() && |stacks| == old(|stacks|) && old(hasRun) <= hasRun && old(started) <= started
      ensures owner ==> guardCore == Some(c) && acquireCount == |below| + 1 && At(c, below, obj, Recheck)
      ensures !owner ==> At(c, below, obj, Spin) && (rounds > 0 ==> HeldByOther(guardCore, c))
      ensures old(guardCore) == Some(c) && rounds > 0 ==> owner
      ensures var n := |seen| - if owner then 1 else 0;
        && |old(seen)| <= n && old(seen) == seen[..|old(seen)|]
        && (forall k :: |old(seen)| <= k < n ==> HeldByOther(seen[k], c))
        && if owner then !HeldByOther(seen[n], c) else n == |old(seen)| + rounds
    {
      hide Inv, Run;
      for i := 0 to rounds
        invariant Valid() && At(c, below, obj, Spin) && |stacks| == old(|stacks|)
        invariant old(hasRun) <= hasRun && old(started) <= started
        invariant if i == 0 then guardCore == old(guardCore)
                  else HeldByOther(guardCore, c) && old(guardCore) != Some(c)
        invariant |seen| == |old(seen)| + i && old(seen) == seen[..|old(seen)|]
        invariant forall k :: |old(seen)| <= k < |seen| ==> HeldByOther(seen[k], c)
      {
        Others(c);
        var previous := AtomicCompareExchange(c);
        Next(c, if guardCore == Some(c) then Count else Spin);
        StackMoves(below, obj, Spin, Count);
        StackMoves(below, obj, Spin, Spin);
        if previous == None || previous == Some(c) {
          CountUp(c, below, obj);
          return true;
        }
      }
      owner := false;
    }

    method CountUp(c: nat, ghost below: seq<Call>, ghost obj: nat)
      requires Valid() && At(c, below, obj, Count)
      modifies this
      ensures Valid() && |stacks| == old(|stacks|) && At(c, below, obj, Recheck)
      ensures hasRun == old(hasRun) && started == old(started) && seen == old(seen)
      ensures guardCore == Some(c) && acquireCount == |below| + 1
    {
      hide Inv, Run;
      LockFacts(Value(), c, below, obj, Count);
      Others(c);
      acquireCount := acquireCount + 1;
      Next(c, Recheck);
      StackMoves(below, obj, Count, Recheck);
    }

    /** GuardRelease: the last one gives back the lock. */
    method GuardRelease(c: nat, ghost below: seq<Call>, ghost obj: nat, skip: bool)
      requires Valid() && At(c, below, obj, if skip then SkipRelease else DoneRelease)
      modifies this
      ensures Valid() && |stacks| == old(|stacks|) && c < |stacks| && stacks[c] == below
      ensures hasRun == old(hasRun) && started == old(started)
      ensures acquireCount == |below| && guardCore == if below == [] then None else Some(c)
    {
      hide Inv, Run;
      LockFacts(Value(), c, below, obj, if skip then SkipRelease else DoneRelease);
      Others(c);
      assert acquireCount > 0;
      acquireCount := acquireCount - 1;
      StackMoves(below, obj, if skip then SkipRelease else DoneRelease, if skip then SkipFree else DoneFree);
      if acquireCount == 0 {
        Next(c, if skip then SkipFree else DoneFree);
        FreeLock(c, below, obj, skip);
      } else {
        Return(c, skip);
      }
    }

    method FreeLock(c: nat, ghost below: seq<Call>, ghost obj: nat, skip: bool)
      requires Valid() && At(c, below, obj, if skip then SkipFree else DoneFree)
      modifies this
      ensures Valid() && |stacks| == old(|stacks|) && c < |stacks| && stacks[c] == below == []
      ensures hasRun == old(hasRun) && started == old(started)
      ensures acquireCount == 0 && guardCore == None
    {
      hide Inv, Run;
      LockFacts(Value(), c, below, obj, if skip then SkipFree else DoneFree);
      Others(c);
      StackMoves(below, obj, if skip then SkipFree else DoneFree, Enter);
      guardCore := None;
      Return(c, skip);
    }

    /** The two results of __cxa_guard_acquire: 0, or 1 with the task to run the constructor.
        The lock is then held, and the constructor was not started before. */
    ghost predicate Granted(c: nat, below: seq<Call>, obj: nat, r: nat)
      reads this
    {
      && c < |stacks|
      && if r == 0 then stacks[c] == below && obj in hasRun && obj in started
         else
           && At(c, below, obj, Construct) && guardCore == Some(c) && obj !in hasRun
           && |started| > 0 && started[|started| - 1] == obj && obj !in started[..|started| - 1]
    }

    /** __cxa_guard_acquire: None while the caller is still waiting after so many rounds */
    method CxaGuardAcquire(c: nat, obj: nat, rounds: nat) returns (r: Option<nat>)
      requires Valid() && c < |stacks| && MayBegin(stacks[c], obj)
      modifies this
      ensures Valid() && |stacks| == old(|stacks|) && old(hasRun) <= hasRun
      ensures r.Some? ==> r.value <= 1 && Granted(c, old(stacks[c]), obj, r.value)
      ensures r.None? ==> At(c, old(stacks[c]), obj, Spin) && (rounds > 0 ==> HeldByOther(guardCore, c))
      ensures obj in old(hasRun) ==> r == Some(0) && seen == old(seen)
      ensures old(guardCore) == Some(c) && rounds > 0 ==> r.Some?
    {
      hide Inv, Run;
      ghost var below := stacks[c];
      RunExtends(|stacks|, moves, c, Begin(obj));
      stacks, moves := stacks[c := stacks[c] + [Call(obj, Enter)]], moves + [(c, Begin(obj))];
      Others(c);
      StackMoves(below, obj, Enter, Spin);
      if obj in hasRun {
        Return(c, true);
        SetMeansStarted(|stacks|, moves, obj);
        return Some(0);
      }
      Next(c, Spin);
      var owner := GuardAcquire(c, rounds, below, obj);
      if !owner {
        return None;
      }
      r := Examine(c, below, obj);
    }

    /** The second part of __cxa_guard_acquire, under the lock */
    method Examine(c: nat, ghost below: seq<Call>, obj: nat) returns (r: Option<nat>)
      requires Valid() && At(c, below, obj, Recheck)
      modifies this
      ensures Valid() && |stacks| == old(|stacks|) && old(hasRun) <= hasRun
      ensures r.Some? && r.value <= 1 && Granted(c, below, obj, r.value)
    {
      hide Inv, Run;
      LockFacts(Value(), c, below, obj, Recheck);
      Others(c);
      LockFacts(Value(), c, below, obj, Recheck);
      if obj in hasRun {
        StackMoves(below, obj, Recheck, SkipRelease);
        Next(c, SkipRelease);
        GuardRelease(c, below, obj, true);
        SetMeansStarted(|stacks|, moves, obj);
        return Some(0);
      }
      assert obj !in inUse;
      StackMoves(below, obj, Recheck, Construct);
      inUse, started := inUse + {obj}, started + [obj];
      Next(c, Construct);
      r := Some(1);
    }

    /** __cxa_guard_release */
    method CxaGuardRelease(c: nat, obj: nat, ghost below: seq<Call>)
      requires Valid() && At(c, below, obj, Construct)
      modifies this
      ensures Valid() && |stacks| == old(|stacks|) && c < |stacks| && stacks[c] == below
      ensures hasRun == old(hasRun) + {obj} && started == old(started)
      ensures acquireCount == |below| && guardCore == if below == [] then None else Some(c)
    {
      hide Inv, Run;
      LockFacts(Value(), c, below, obj, Construct);
      Others(c);
      StackMoves(below, obj, Construct, DoneRelease);
      hasRun := hasRun + {obj};
      Next(c, DoneRelease);
      GuardRelease(c, below, obj, false);
    }

    /** What the compiler generates for the first use of an object: its constructor runs between
        the two guard functions and initialises the objects it needs. A core that holds the lock
        never waits, and a ready object is constructed, by whichever core it was. */
    method Initialise(c: nat, t: Static, rounds: nat) returns (ready: bool)
      requires Valid() && c < |stacks| && (stacks[c] != [] ==> Top(stacks[c]).pc == Construct)
      requires NoReentry(t, Objects(stacks[c]))
      modifies this
      ensures Valid() && |stacks| == old(|stacks|) && old(hasRun) <= hasRun
      ensures ready ==> t.obj in hasRun && c < |stacks| && stacks[c] == old(stacks[c])
      ensures old(guardCore) == Some(c) && rounds > 0 ==> ready
      ensures !ready && rounds > 0 ==> HeldByOther(guardCore, c)
      decreases t
    {
      hide Inv, Run;
      ghost var below := stacks[c];
      ready := false;
      var r := CxaGuardAcquire(c, t.obj, rounds);
      if r == None {
        return;
      }
      if r.value == 1 {
        for i := 0 to |t.needs|
          invariant Valid() && |stacks| == old(|stacks|) && old(hasRun) <= hasRun
          invariant At(c, below, t.obj, Construct)
        {
          LockFacts(Value(), c, below, t.obj, Construct);
          assert Objects(stacks[c]) == Objects(below) + {t.obj} by { ObjectsPush(below, Call(t.obj, Construct)); }
          var done := Initialise(c, t.needs[i], rounds);
          if !done {
            return;
          }
        }
        CxaGuardRelease(c, t.obj, below);
      }
      ready := true;
    }
  }
}
