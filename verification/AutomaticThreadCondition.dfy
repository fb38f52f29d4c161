/** The objects behind AutomaticThreads: the flags of a thread, and the condition that walks its threads.
    Every method runs with the lock held and is proved against the function that the moves use. */
module AutomaticThreadObjects {

  import opened AutomaticThreads

  class AutomaticThread {
    var isRunning: bool
    var isWaiting: bool
    var hasUnderlyingThread: bool
    var bodies: seq<Body>    // where the underlying threads are in their loop

    ghost function View(): Thread
      reads this
    {
      Thread(true, isRunning, isWaiting, hasUnderlyingThread, bodies)
    }

    /** One underlying thread at most, exactly when the flag says so; none after the thread has stopped for good;
        and a sleeping one is announced by its flag. */
    ghost predicate Valid()
      reads this
    {
      ThreadOk(View())
    }

    constructor ()
      ensures Valid() && View() == NEW_THREAD
    {
      isRunning, isWaiting, hasUnderlyingThread, bodies := true, false, false, [];
    }

    /** True means that the thread has stopped for good and nobody is in its loop. */
    method TryStop() returns (stopped: bool)
      requires Valid()
      modifies this
      ensures Valid() && View() == TryStopped(old(View()))
      ensures stopped <==> !isRunning
      ensures stopped <==> bodies == []
    {
      if !isRunning { return true; }
      if hasUnderlyingThread { return false; }
      isRunning := false;
      return true;
    }

    /** Nobody is asleep in the wait afterwards, and the flag is down, so the thread cannot stop for timeout. */
    method Notify()
      requires Valid() && hasUnderlyingThread
      modifies this
      ensures Valid() && View() == Notified(old(View()))
      ensures !isWaiting && Asleep !in bodies && |bodies| == 1
      ensures IsAlert(View())
    {
      NotifiedIsAwake(View());
      isWaiting := false;
      bodies := WakeOne(bodies);
      assert bodies[0] in bodies;
    }

    /** The one underlying thread is about to poll. */
    method Start()
      requires Valid() && isRunning
      modifies this
      ensures View() == Started(old(View()))
      ensures !old(hasUnderlyingThread) ==> Valid() && bodies == [Ready]
    {
      hasUnderlyingThread := true;
      bodies := bodies + [Ready];
    }

    method StopImpl(k: nat)
      requires k < |bodies|
      modifies this
      ensures View() == WithoutBody(old(View()), k)
    {
      hasUnderlyingThread := false;
      bodies := bodies[..k] + bodies[k + 1..];
    }

    /** Never runs again. */
    method StopPermanently(k: nat)
      requires Valid() && k < |bodies|
      modifies this
      ensures View() == WithoutBody(old(View()).(isRunning := false), k)
      ensures Valid() && !isRunning && bodies == []
    {
      isRunning := false;
      StopImpl(k);
    }

    /** The body takes the lock and runs until it releases it. It leaves its loop for timeout if it comes out of the
        wait with the flag up and may sleep, and for good if it polls Stop or work() has said Stop. */
    method RunBody(k: nat, a: Answers)
      requires Valid() && k < |bodies|
      modifies this
      ensures Valid() && View() == BodyMoved(old(View()), k, a)
      ensures bodies == [] <==> old(LeavesForTimeout(a) || LeavesForGood(a))
      ensures isRunning <==> !old(LeavesForGood(a))
      ensures old(bodies) == [Asleep] ==> View() == old(View())
      ensures old(bodies) == [Working] ==>
        bodies == (if a.workContinues then [Ready] else [Quitting]) && isRunning && isWaiting == old(isWaiting)
      ensures old(bodies) == [Quitting] ==> bodies == [] && !isRunning
      ensures old(bodies == [Awoken] && isWaiting) && a.shouldSleep ==> bodies == [] && isRunning && !isWaiting
      ensures old(bodies == [Ready] || (bodies == [Awoken] && !(isWaiting && a.shouldSleep))) ==>
        match a.poll
        case Work => bodies == [Working] && isRunning && isWaiting == old(isWaiting)
        case Stop => bodies == [] && !isRunning
        case Wait => bodies == [Asleep] && isRunning && isWaiting
    {
      assert k == 0 && isRunning;
      if bodies[k] == Asleep {
        return;
      }
      if bodies[k] == Working {
        bodies := bodies[k := if a.workContinues then Ready else Quitting];
        return;
      }
      if bodies[k] == Quitting {
        StopPermanently(k);
        return;
      }
      if bodies[k] == Awoken && isWaiting && a.shouldSleep {
        isWaiting := false;
        StopImpl(k);
        return;
      }
      match a.poll {
        case Work =>
          bodies := bodies[k := Working];
        case Stop =>
          StopPermanently(k);
        case Wait =>
          isWaiting := true;
          bodies := bodies[k := Asleep];
      }
    }

    ghost predicate LeavesForTimeout(a: Answers)
      reads this
    {
      BodyIs(View(), Awoken) && isWaiting && a.shouldSleep
    }

    ghost predicate LeavesForGood(a: Answers)
      reads this
    {
      || BodyIs(View(), Quitting)
      || ((BodyIs(View(), Ready) || BodyIs(View(), Awoken)) && !LeavesForTimeout(a) && a.poll == Stop)
    }
  }

  class AutomaticThreadCondition {
    var threads: seq<AutomaticThread>
    var waiters: nat // others who are asleep in wait() on this condition itself

    ghost predicate Valid()
      reads this, threads
    {
      && (forall i, j :: 0 <= i < j < |threads| ==> threads[i] != threads[j])
      && (forall k :: 0 <= k < |threads| ==> threads[k].Valid())
    }

    ghost function Views(): (v: seq<Thread>)
      reads this, threads
      ensures |v| == |threads| && forall i :: 0 <= i < |v| ==> v[i] == threads[i].View()
    {
      seq(|threads|, i requires 0 <= i < |threads| reads this, threads => threads[i].View())
    }

    constructor ()
      ensures Valid() && threads == [] && waiters == 0
    {
      threads, waiters := [], 0;
    }

    method Add(thread: AutomaticThread)
      requires Valid() && thread !in threads && thread.Valid()
      modifies `threads
      ensures Valid() && threads == old(threads) + [thread]
    {
      threads := threads + [thread];
    }

    method Remove(thread: AutomaticThread)
      requires Valid()
      modifies `threads
      ensures Valid() && thread !in threads
      ensures thread !in old(threads) ==> threads == old(threads)
      ensures thread in old(threads) ==>
        exists k :: 0 <= k < |old(threads)| && old(threads)[k] == thread
          && threads == old(threads)[..k] + old(threads)[k + 1..]
    {
      for k := 0 to |threads|
        invariant threads == old(threads) && thread !in threads[..k]
      {
        if threads[k] == thread {
          threads := threads[..k] + threads[k + 1..];
          return;
        }
      }
    }

    /** Whether notifyOne() tells thread k: the first one that waits, or else the first without an underlying
        thread. */
    ghost predicate Told(k: nat)
      reads this, threads
    {
      var waiting := First(Views(), IsWaiting);
      k == if waiting < |threads| then waiting else First(Views(), IsDormant)
    }

    /** The first loop of notifyOne(). */
    method NotifyFirstWaiting() returns (told: bool)
      requires Valid()
      modifies threads
      ensures Valid() && told == (First(old(Views()), IsWaiting) < |threads|)
      ensures Views() == if told then NotifiedOne(old(Views())) else old(Views())
      ensures told ==> IsAlert(Views()[First(old(Views()), IsWaiting)])
    {
      ghost var before := Views();
      for k := 0 to |threads|
        invariant Valid() && Views() == before
        invariant forall j :: 0 <= j < k ==> !IsWaiting(before[j])
      {
        assert before[k] == threads[k].View();
        if threads[k].hasUnderlyingThread && threads[k].isWaiting {
          assert First(before, IsWaiting) == k;
          threads[k].Notify();
          assert Views() == before[k := Notified(before[k])];
          return true;
        }
      }
      return false;
    }

    /** The second loop of notifyOne(). */
    method StartFirstDormant() returns (told: bool)
      requires Valid() && First(Views(), IsWaiting) == |threads| && !NotifyOneAsserts(Views())
      modifies threads
      ensures Valid() && told == (First(old(Views()), IsDormant) < |threads|)
      ensures Views() == NotifiedOne(old(Views()))
      ensures told ==> IsAlert(Views()[First(old(Views()), IsDormant)])
    {
      ghost var before := Views();
      for k := 0 to |threads|
        invariant Valid() && Views() == before
        invariant forall j :: 0 <= j < k ==> !IsDormant(before[j])
      {
        assert before[k] == threads[k].View();
        if !threads[k].hasUnderlyingThread {
          assert First(before, IsDormant) == k;
          threads[k].Start();
          assert Views() == before[k := Started(before[k])];
          return true;
        }
      }
      return false;
    }

    /** At most one thread is told, and it is then awake and about to poll; if every thread is busy, one of the
        direct waiters is woken instead. */
    method NotifyOne()
      requires Valid() && !NotifyOneAsserts(Views())
      modifies threads, `waiters
      ensures Valid() && threads == old(threads) && Views() == NotifiedOne(old(Views()))
      ensures forall k: nat :: k < |threads| && old(Told(k)) ==> IsAlert(Views()[k]) && waiters == old(waiters)
      ensures forall k: nat :: k < |threads| && !old(Told(k)) ==> Views()[k] == old(Views()[k])
      ensures old(Told(|threads|)) ==> waiters == if old(waiters) > 0 then old(waiters) - 1 else 0
    {
      var told := NotifyFirstWaiting();
      if told {
        return;
      }
      told := StartFirstDormant();
      if told {
        return;
      }
      if waiters > 0 {
        waiters := waiters - 1;
      }
    }

    /** Afterwards every thread has an underlying thread, none of them is asleep, and no direct waiter is. */
    method NotifyAll()
      requires Valid() && !NotifyAllAsserts(Views())
      modifies threads, `waiters
      ensures Valid() && threads == old(threads) && Views() == NotifiedAll(old(Views())) && waiters == 0
      ensures forall k :: 0 <= k < |threads| ==> IsAwake(threads[k].View())
    {
      ghost var before := Views();
      assert forall j :: 0 <= j < |threads| ==> ThreadOk(before[j]) && (IsDormant(before[j]) ==> before[j].isRunning);
      waiters := 0;
      for k := 0 to |threads|
        invariant waiters == 0
        invariant forall j :: 0 <= j < k ==> threads[j].View() == NotifiedBySweep(before[j])
        invariant forall j :: k <= j < |threads| ==> threads[j].View() == before[j]
      {
        assert threads[k].View() == before[k];
        if threads[k].hasUnderlyingThread && threads[k].isWaiting {
          threads[k].Notify();
        } else if !threads[k].hasUnderlyingThread {
          threads[k].Start();
        }
      }
      forall k | 0 <= k < |threads| ensures ThreadOk(threads[k].View()) && IsAwake(threads[k].View()) {
        SweepWakes(before[k]);
      }
      assert Views() == NotifiedAll(before);
    }
  }

  /** There is an underlying thread, and it is not asleep. */
  predicate IsAwake(t: Thread) {
    t.hasUnderlyingThread && Asleep !in t.bodies
  }

  lemma SweepWakes(t: Thread)
    requires ThreadOk(t) && t.registered && (IsDormant(t) ==> t.isRunning)
    ensures ThreadOk(NotifiedBySweep(t)) && IsAwake(NotifiedBySweep(t))
  {
    NotifiedIsAwake(t);
  }
}
