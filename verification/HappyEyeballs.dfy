/** Connecting to one of several addresses: attempts are started one after another, the first to succeed wins, and no
    socket is left open but the winner's. */
module HappyEyeballs {
  import opened Bytes

  datatype Phase = Running | Raised | Returned

  /** One attempt to connect: where its coroutine stands, and the socket it has created. */
  datatype Attempt = Attempt(phase: Phase, sock: Option<nat>)

  /** What allowed the attempt after this one to start. */
  datatype Next = Pending | ByFailure | ByTimer

  datatype Wake = TaskDone(i: nat) | StartNext | Interrupted

  datatype Outcome = Connected(sock: nat) | AllFailed | Cancelled

  /** The race over `n` addresses. `delay` is false when the attempts follow each other without a timer. */
  class Race {
    const n: nat
    const delay: bool
    var attempts: seq<Attempt>      // the attempts started, in order
    var exceptions: seq<bool>       // for each of them, whether an exception was recorded
    var nexts: seq<Next>            // for each of them, the future that starts the next one
    var owner: seq<nat>             // for each socket created, its attempt
    var openSockets: set<nat>
    var closed: set<nat>
    ghost var interrupted: bool     // whether the race was cancelled from outside
    ghost var raced: bool           // whether attempts were made to race

    ghost predicate Valid()
      reads this`attempts, this`exceptions, this`nexts, this`owner, this`openSockets, this`closed
    {
      Lengths() && Sockets() && Order()
    }

    ghost predicate Lengths()
      reads this`attempts, this`exceptions, this`nexts
    {
      |attempts| == |exceptions| == |nexts| <= n
    }

    /** Every socket has one owner, and is open or closed as its attempt stands. */
    ghost predicate Sockets()
      reads this`attempts, this`owner, this`openSockets, this`closed
    {
      && (forall s | 0 <= s < |owner| :: owner[s] < |attempts| && attempts[owner[s]].sock == Some(s))
      && (forall i | 0 <= i < |attempts| && attempts[i].sock.Some? :: Owned(i))
      && (forall i | 0 <= i < |attempts| :: attempts[i].phase.Returned? ==> attempts[i].sock.Some?)
      && (forall s :: s in openSockets <==> 0 <= s < |owner| && !attempts[owner[s]].phase.Raised?)
      && (forall s :: s in closed <==> 0 <= s < |owner| && attempts[owner[s]].phase.Raised?)
    }

    ghost predicate Owned(i: nat)
      requires i < |attempts| && attempts[i].sock.Some?
      reads this`attempts, this`owner
    {
      attempts[i].sock.value < |owner| && owner[attempts[i].sock.value] == i
    }

    /** Exceptions are recorded exactly for the attempts that raised, and each attempt but the first was let go by the
        failure or by the timer of the one before it. */
    ghost predicate Order()
      requires Lengths()
      reads this`attempts, this`exceptions, this`nexts
    {
      && (forall i | 0 <= i < |attempts| :: exceptions[i] == attempts[i].phase.Raised?)
      && (forall i | 0 <= i < |attempts| :: nexts[i].ByFailure? ==> attempts[i].phase.Raised?)
      && (forall i | 0 <= i < |attempts| :: nexts[i].ByTimer? ==> delay)
      && (forall i | 0 <= i < |attempts| :: attempts[i].phase.Raised? ==> !nexts[i].Pending?)
      && (forall i | 0 <= i < |attempts| - 1 :: !nexts[i].Pending?)
    }

    /** Without a timer at most the last attempt is unfinished. */
    lemma AtMostOneUnfinished()
      requires Valid() && !delay
      ensures forall i | 0 <= i < |attempts| - 1 :: attempts[i].phase.Raised?
    {
      forall i | 0 <= i < |attempts| - 1 ensures attempts[i].phase.Raised? {
        assert !nexts[i].Pending?;
      }
    }

    constructor (n: nat, delay: bool)
      ensures Valid() && attempts == [] && owner == [] && !interrupted && !raced && this.n == n && this.delay == delay
    {
      this.n, this.delay := n, delay;
      attempts, exceptions, nexts, owner, openSockets, closed, interrupted, raced := [], [], [], [], {}, {}, false, false;
    }

    /** Finished attempts, and futures that are done, stay as they are. */
    twostate predicate Later()
      reads this`attempts, this`nexts
    {
      && |old(attempts)| <= |attempts| && |old(nexts)| <= |nexts|
      && (forall i | 0 <= i < |old(nexts)| && !old(nexts)[i].Pending? :: nexts[i] == old(nexts)[i])
      && (forall i | 0 <= i < |old(attempts)| && !old(attempts)[i].phase.Running? :: attempts[i] == old(attempts)[i])
    }

    // ---- what the event loop can do between two steps of the race ----

    /** A running attempt creates its socket. */
    method CreateSocket(i: nat)
      requires Valid() && i < |attempts| && attempts[i] == Attempt(Running, None)
      modifies this`attempts, this`owner, this`openSockets
      ensures Valid() && Later() && owner == old(owner) + [i]
      ensures attempts == old(attempts)[i := Attempt(Running, Some(old(|owner|)))] && openSockets == old(openSockets) + {old(|owner|)}
    {
      var s := |owner|;
      owner := owner + [i];
      attempts := attempts[i := Attempt(Running, Some(s))];
      openSockets := openSockets + {s};
    }

    /** A running attempt fails, or is cancelled: its socket is closed, the exception is recorded, and the next attempt
        may start. */
    method Fail(i: nat)
      requires Valid() && i < |attempts| && attempts[i].phase.Running?
      modifies this`attempts, this`exceptions, this`nexts, this`openSockets, this`closed
      ensures Valid() && Later() && |attempts| == old(|attempts|)
      ensures attempts == old(attempts)[i := Attempt(Raised, old(attempts)[i].sock)] && exceptions == old(exceptions)[i := true]
      ensures nexts == if old(nexts)[i].Pending? then old(nexts)[i := ByFailure] else old(nexts)
    {
      hide Race.Sockets;
      CloseOwn(i);
      exceptions := exceptions[i := true];
      if nexts[i].Pending? { nexts := nexts[i := ByFailure]; }
    }

    /** The socket of a failing attempt leaves the open ones. */
    method CloseOwn(i: nat)
      requires Valid() && i < |attempts| && attempts[i].phase.Running?
      modifies this`attempts, this`openSockets, this`closed
      ensures Lengths() && Sockets() && attempts == old(attempts)[i := Attempt(Raised, old(attempts)[i].sock)]
    {
      hide Race.Order;
      ghost var before := attempts;
      if attempts[i].sock.Some? {
        openSockets := openSockets - {attempts[i].sock.value};
        closed := closed + {attempts[i].sock.value};
      }
      attempts := attempts[i := attempts[i].(phase := Raised)];
      StillOwned(before, i);
    }

    /** A change of phase does not touch ownership. */
    lemma StillOwned(before: seq<Attempt>, i: nat)
      requires i < |before| == |attempts| && attempts == before[i := before[i].(phase := attempts[i].phase)]
      requires forall j | 0 <= j < |before| && before[j].sock.Some? ::
                 before[j].sock.value < |owner| && owner[before[j].sock.value] == j
      ensures forall j | 0 <= j < |attempts| && attempts[j].sock.Some? :: Owned(j)
    {
    }

    method Succeed(i: nat)
      requires Valid() && i < |attempts| && attempts[i].phase.Running? && attempts[i].sock.Some?
      modifies this`attempts
      ensures Valid() && Later() && |attempts| == old(|attempts|)
      ensures attempts == old(attempts)[i := Attempt(Returned, old(attempts)[i].sock)]
    {
      ghost var before := attempts;
      attempts := attempts[i := attempts[i].(phase := Returned)];
      StillOwned(before, i);
    }

    /** The timer of the last attempt fires. */
    method Fire()
      requires Valid() && delay && attempts != []
      modifies this`nexts
      ensures Valid() && Later() && !nexts[|attempts| - 1].Pending? && |nexts| == |old(nexts)|
    {
      var i := |attempts| - 1;
      if nexts[i].Pending? { nexts := nexts[i := ByTimer]; }
    }

    /** Any number of such events, in any order. The task that runs the race may be cancelled meanwhile. */
    method LetRun(timer: bool) returns (cancelled: bool)
      requires Valid() && (timer ==> delay)
      modifies this`attempts, this`exceptions, this`nexts, this`owner, this`openSockets, this`closed, this`interrupted
      ensures Valid() && Later() && |attempts| == old(|attempts|) && interrupted == (old(interrupted) || cancelled)
    {
      hide Race.Sockets, Race.Order;
      var k: nat := *;
      var step := 0;
      while step < k
        invariant Valid() && Later() && |attempts| == old(|attempts|) && interrupted == old(interrupted)
      {
        var i: nat, what: nat := *, *;
        if i < |attempts| && attempts[i].phase.Running? {
          if what == 0 && attempts[i].sock.None? {
            CreateSocket(i);
          } else if what == 1 && attempts[i].sock.Some? {
            Succeed(i);
          } else if what == 2 {
            Fail(i);
          }
        } else if timer && attempts != [] {
          Fire();
        }
        step := step + 1;
      }
      cancelled := *;
      interrupted := interrupted || cancelled;
    }

    /** A running attempt is left to finish, which it does. */
    method Finish(i: nat)
      requires Valid() && i < |attempts|
      modifies this`attempts, this`exceptions, this`nexts, this`owner, this`openSockets, this`closed
      ensures Valid() && Later() && |attempts| == old(|attempts|) && !attempts[i].phase.Running?
    {
      if attempts[i].phase.Running? {
        var good: bool := *;
        if good && attempts[i].sock.Some? { Succeed(i); } else { Fail(i); }
      }
    }

    /** Waits for a task of the set or for the start of the next attempt; any that is done may be reported. */
    method WaitOne(tasks: set<nat>, startNext: bool, timer: bool) returns (w: Wake)
      requires Valid() && (timer ==> delay) && (forall i | i in tasks :: i < |attempts|)
      requires startNext ==> attempts != []
      requires !interrupted && (tasks != {} || (startNext && !nexts[|attempts| - 1].Pending?))
      modifies this`attempts, this`exceptions, this`nexts, this`owner, this`openSockets, this`closed, this`interrupted
      ensures Valid() && Later() && |attempts| == old(|attempts|)
      ensures match w
              case TaskDone(i) => i in tasks && !attempts[i].phase.Running?
              case StartNext => startNext && !nexts[|attempts| - 1].Pending?
              case Interrupted => interrupted
      ensures !w.Interrupted? ==> !interrupted
    {
      var cancelled := LetRun(timer);
      if cancelled { return Interrupted; }
      var ready: bool := *;
      if startNext && !nexts[|attempts| - 1].Pending? && (ready || tasks == {}) { return StartNext; }
      var i :| i in tasks;
      Finish(i);
      return TaskDone(i);
    }

    /** The next attempt is started. */
    method Start()
      requires Valid() && |attempts| < n && (attempts == [] || !nexts[|attempts| - 1].Pending?)
      modifies this`attempts, this`exceptions, this`nexts
      ensures Valid() && attempts == old(attempts) + [Attempt(Running, None)]
      ensures nexts == old(nexts) + [Pending]
    {
      attempts := attempts + [Attempt(Running, None)];
      exceptions := exceptions + [false];
      nexts := nexts + [Pending];
      assert forall i | 0 <= i < |attempts| && attempts[i].sock.Some? :: Owned(i) by {
        assert forall i | 0 <= i < |old(attempts)| && old(attempts)[i].sock.Some? :: old(Owned(i));
      }
    }

    /** The attempts outside `tasks` have been seen to fail, those inside have not been looked at yet. */
    ghost predicate Watched(tasks: set<nat>)
      reads this`attempts
    {
      && (forall i | i in tasks :: i < |attempts|)
      && (forall i | 0 <= i < |attempts| && i !in tasks :: attempts[i].phase.Raised?)
    }

    ghost predicate NoneRunning()
      reads this`attempts
    {
      forall i | 0 <= i < |attempts| :: !attempts[i].phase.Running?
    }

    /** The tasks that are left are cancelled and awaited, one by one. */
    method CancelRest(tasks: set<nat>)
      requires Valid() && (forall i | i in tasks :: i < |attempts|)
      requires forall i | 0 <= i < |attempts| && i !in tasks :: !attempts[i].phase.Running?
      modifies this`attempts, this`exceptions, this`nexts, this`owner, this`openSockets, this`closed, this`interrupted
      ensures Valid() && NoneRunning() && Later() && |attempts| == |old(attempts)| && (old(interrupted) ==> interrupted)
    {
      hide Race.Sockets, Race.Order;
      var rest := tasks;
      while rest != {}
        invariant Valid() && Later() && |attempts| == |old(attempts)| && rest <= tasks && (old(interrupted) ==> interrupted)
        invariant forall i | 0 <= i < |attempts| && i !in rest :: !attempts[i].phase.Running?
        decreases rest
      {
        var i :| i in rest;
        var _ := LetRun(false);
        Finish(i);
        rest := rest - {i};
      }
    }

    /** Waits until the next attempt may start, until an attempt succeeds, or until none is left to wait for. */
    method Watch(tasks0: set<nat>, startNext: bool, timer: bool) returns (over: bool, r: RaceResult, tasks: set<nat>)
      requires Valid() && Watched(tasks0) && attempts != [] && (timer ==> delay) && !interrupted
      requires startNext || (tasks0 != {} && !nexts[|attempts| - 1].Pending?)
      modifies this`attempts, this`exceptions, this`nexts, this`owner, this`openSockets, this`closed, this`interrupted
      ensures Valid() && |attempts| == |old(attempts)| && tasks <= tasks0
      ensures !over ==> Watched(tasks) && r.NoWinner? && !nexts[|attempts| - 1].Pending? && (startNext || tasks == {})
      ensures over ==> Leftover(tasks, r)
      ensures interrupted <==> r.Interruption?
    {
      hide Race.Sockets;
      tasks, r := tasks0, NoWinner;
      while tasks != {} || startNext
        invariant Valid() && Watched(tasks) && |attempts| == |old(attempts)| && tasks <= tasks0
        invariant !interrupted && r.NoWinner? && (startNext || !nexts[|attempts| - 1].Pending?)
        decreases |tasks|
      {
        var w := WaitOne(tasks, startNext, timer);
        match w
        case Interrupted => return true, Interruption, tasks;
        case StartNext => return false, NoWinner, tasks;
        case TaskDone(i) =>
          tasks := tasks - {i};
          if attempts[i].phase.Returned? { return true, Winner(i), tasks; }
      }
      over := false;
    }

    /** What the race leaves to be cancelled. */
    ghost predicate Leftover(tasks: set<nat>, r: RaceResult)
      reads this`attempts
    {
      && !r.NoWinner? && (forall i | i in tasks :: i < |attempts|)
      && (forall i | 0 <= i < |attempts| && i !in tasks :: !attempts[i].phase.Running?)
      && (r.Winner? ==> r.i < |attempts| && attempts[r.i].phase.Returned?)
    }

    /** The staggered race. It ends if every attempt does. */
    method StaggeredRace() returns (r: RaceResult)
      requires Valid() && attempts == [] && !interrupted
      modifies this`attempts, this`exceptions, this`nexts, this`owner, this`openSockets, this`closed, this`interrupted, this`raced
      ensures Valid() && NoneRunning() && raced
      ensures match r
              case Winner(i) => i < |attempts| && attempts[i].phase.Returned? && !exceptions[i]
              case NoWinner => |attempts| == n && forall i | 0 <= i < n :: attempts[i].phase.Raised? && exceptions[i]
              case Interruption => interrupted
    {
      hide Race.Sockets;
      raced := true;
      var tasks: set<nat> := {};
      var startNext, timer := false, false;
      var over := false;
      r := NoWinner;
      while !over
        invariant Valid() && (timer ==> delay) && (interrupted <==> r.Interruption?) && raced
        invariant over && !r.NoWinner? ==> Leftover(tasks, r)
        invariant !over || r.NoWinner? ==> Watched(tasks)
        invariant over && r.NoWinner? ==> |attempts| == n && tasks == {}
        invariant !over ==> r.NoWinner? && !startNext && (attempts != [] ==> !nexts[|attempts| - 1].Pending?)
        decreases !over, n - |attempts|, |tasks|
      {
        if |attempts| < n {
          tasks := tasks + {|attempts|};
          Start();
          startNext, timer := true, delay;
        } else if tasks == {} {
          over := true;
        }
        if !over {
          over, r, tasks := Watch(tasks, startNext, timer);
          startNext, timer := false, false;
        }
      }
      CancelRest(tasks);
    }

    /** Connects by a race. Whatever the outcome, every socket that was created has been closed, except the one returned;
        runners-up that connected before their cancellation took effect are closed here. */
    method ConnectByRace() returns (r: Outcome)
      requires Valid() && attempts == [] && !interrupted
      modifies this`attempts, this`exceptions, this`nexts, this`owner, this`openSockets, this`closed, this`interrupted, this`raced
      ensures raced
      ensures forall s | 0 <= s < |owner| :: s in closed <==> r != Connected(s)
      ensures match r
              case Connected(s) => s < |owner| && owner[s] < |attempts| && attempts[owner[s]].phase.Returned?
              case AllFailed => |attempts| == n && forall i | 0 <= i < n :: attempts[i].phase.Raised?
              case Cancelled => interrupted
    {
      var race := StaggeredRace();
      var sock: Option<nat> := None;
      if race.Winner? {
        assert Owned(race.i);
        sock := attempts[race.i].sock;
      }
      var left := openSockets;
      while left != {}
        invariant left <= openSockets
        invariant forall s | 0 <= s < |owner| :: s in closed <==> (s !in openSockets || (s !in left && Some(s) != sock))
        modifies this`closed
        decreases left
      {
        var s :| s in left;
        if Some(s) != sock { closed := closed + {s}; }
        left := left - {s};
      }
      match race
      case Winner(_) => return Connected(sock.value);
      case NoWinner => return AllFailed;
      case Interruption => return Cancelled;
    }

    /** One attempt that nothing races with: a socket is created and connected, or there is an error, or the task is
        cancelled. The socket is closed unless it is returned. */
    method ConnectSock(i: nat) returns (sock: Option<nat>, cancelled: bool)
      requires Valid() && i + 1 == |attempts| && attempts[i] == Attempt(Running, None) && nexts[i].Pending?
      modifies this`attempts, this`exceptions, this`nexts, this`owner, this`openSockets, this`closed, this`interrupted
      ensures Valid() && |attempts| == |old(attempts)| && attempts[..i] == old(attempts)[..i]
      ensures cancelled ==> sock.None? && interrupted
      ensures !cancelled ==> interrupted == old(interrupted)
      ensures attempts[i].phase == (if sock.Some? then Returned else Raised) && (sock.Some? ==> attempts[i].sock == sock)
    {
      var created, connected: bool := *, *;
      if created { CreateSocket(i); }
      cancelled := *;
      if cancelled { interrupted := true; }
      if created && connected && !cancelled {
        Succeed(i);
        sock := attempts[i].sock;
      } else {
        Fail(i);
        sock := None;
      }
    }

    /** Connects to one address after the other. The first that answers is taken; every other socket was closed. */
    method ConnectInTurn() returns (r: Outcome)
      requires Valid() && attempts == [] && !interrupted
      modifies this`attempts, this`exceptions, this`nexts, this`owner, this`openSockets, this`closed, this`interrupted
      ensures Valid() && forall s | 0 <= s < |owner| :: s in closed <==> r != Connected(s)
      ensures match r
              case Connected(s) =>
                && s < |owner| && owner[s] + 1 == |attempts| && attempts[owner[s]].phase.Returned?
                && forall i | 0 <= i < owner[s] :: attempts[i].phase.Raised?
              case AllFailed => |attempts| == n && forall i | 0 <= i < n :: attempts[i].phase.Raised?
              case Cancelled => interrupted
      ensures forall i | 0 <= i < |attempts| - 1 :: attempts[i].phase.Raised?
    {
      hide Race.Sockets;
      for i := 0 to n
        invariant Valid() && |attempts| == i && !interrupted && forall j | 0 <= j < i :: attempts[j].phase.Raised?
      {
        Start();
        var sock, cancelled := ConnectSock(i);
        assert forall j | 0 <= j < i :: attempts[j] == attempts[..i][j];
        LeftOpen();
        if cancelled { return Cancelled; }
        if sock.Some? { return Connected(sock.value); }
      }
      LeftOpen();
      return AllFailed;
    }

    /** If only the last attempt may have succeeded, its socket is the only one that is open. */
    lemma LeftOpen()
      requires Valid() && forall i | 0 <= i < |attempts| - 1 :: attempts[i].phase.Raised?
      requires attempts != [] ==> !attempts[|attempts| - 1].phase.Running?
      ensures var k := |attempts| - 1;
              if k >= 0 && attempts[k].phase.Returned? then
                && attempts[k].sock.Some? && attempts[k].sock.value < |owner| && owner[attempts[k].sock.value] == k
                && forall s | 0 <= s < |owner| :: s in closed <==> s != attempts[k].sock.value
              else forall s | 0 <= s < |owner| :: s in closed
    {
      var k := |attempts| - 1;
      if k >= 0 && attempts[k].phase.Returned? { assert Owned(k); }
    }

    /** Connects: by a race if that was asked for and there is a choice. No socket that was created is left open, whatever
        the outcome, except the one returned. */
    method StartConnection(happyEyeballs: bool) returns (r: Outcome)
      requires Valid() && attempts == [] && !interrupted
      modifies this`attempts, this`exceptions, this`nexts, this`owner, this`openSockets, this`closed, this`interrupted, this`raced
      ensures raced == (old(raced) || (happyEyeballs && n != 1))
      ensures !happyEyeballs || n == 1 ==> forall i | 0 <= i < |attempts| - 1 :: attempts[i].phase.Raised?
      ensures forall s | 0 <= s < |owner| :: s in closed <==> r != Connected(s)
      ensures match r
              case Connected(s) => s < |owner| && owner[s] < |attempts| && attempts[owner[s]].phase.Returned?
              case AllFailed => |attempts| == n && forall i | 0 <= i < n :: attempts[i].phase.Raised?
              case Cancelled => interrupted
    {
      if !happyEyeballs || n == 1 { r := ConnectInTurn(); } else { r := ConnectByRace(); }
    }
  }

  datatype RaceResult = Winner(i: nat) | NoWinner | Interruption
}
