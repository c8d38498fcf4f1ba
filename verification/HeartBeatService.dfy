/**
 The heartbeat service object: the manager, the posted tasks and the timer
 deadline, changed in place by the steps of module HeartBeatSystem.
 */
module HeartBeatService {
  import opened ActivityLog
  import opened Tracker
  import opened ElementMgr
  import opened HeartBeatSystem

  class HeartBeatService<E(==, !new)> {
    const manager: ElementMgr<E>
    var tasks: seq<Task<E>>
    var deadline: int
    var started: bool
    var stopped: bool

    ghost predicate Valid()
      reads this, manager, manager.busyList, manager.busyList.Nodes
    {
      manager.Valid()
    }

    ghost function View(): Service<E>
      reads this, manager
    {
      Service(manager.View(), tasks, deadline, started, stopped)
    }

    /** The service and its tracker made the given step and told the callback about its events. */
    twostate predicate Became(next: Service<E>, out: Outcome<E>, status: Status, fired: seq<E>)
      reads this, manager, manager.busyList, manager.busyList.Nodes
    {
      && Valid() && View() == next && status == out.status
      && manager.callbackSet == old(manager.callbackSet) && fired == Fired(manager.callbackSet, out.events)
    }

    constructor ()
      ensures Valid() && View() == Service(Initial(Limits(false, 0, false, 0)), [], 0, false, false)
      ensures fresh(manager) && fresh(manager.busyList) && manager.busyList.Nodes == []
    {
      manager := new ElementMgr();
      tasks, deadline, started, stopped := [], 0, false, false;
    }

    method SetCallbackFunction(present: bool) returns (r: int)
      requires Valid()
      modifies manager`callbackSet
      ensures Valid() && View() == old(View()) && r == (if started then -1 else 0)
      ensures manager.callbackSet == if started then old(manager.callbackSet) else present
    {
      if started {
        return -1;
      }
      manager.SetCallbackFunction(present);
      r := 0;
    }

    method SetTimeout(flag: bool, seconds: nat) returns (r: int)
      requires Valid()
      modifies manager`timeoutFlag, manager`timeout
      ensures Valid() && r == (if started then -1 else 0)
      ensures View() == if started then old(View()) else
                old(View()).(tracker := old(View()).tracker.(
                  limits := old(View()).tracker.limits.(timeoutOn := flag, timeout := seconds)))
    {
      if started {
        return -1;
      }
      manager.SetTimeout(flag, seconds);
      r := 0;
    }

    method SetMaxLimit(flag: bool, limit: nat) returns (r: int)
      requires Valid()
      modifies manager`maxLimitFlag, manager`maxLimit
      ensures Valid() && r == (if started then -1 else 0)
      ensures View() == if started then old(View()) else
                old(View()).(tracker := old(View()).tracker.(
                  limits := old(View()).tracker.limits.(limitOn := flag, limit := limit)))
    {
      if started {
        return -1;
      }
      manager.SetMaxLimit(flag, limit);
      r := 0;
    }

    method Start(clock: int)
      requires Valid()
      modifies this`deadline, this`started
      ensures Valid() && View() == StartAt(old(View()), clock)
    {
      if started {
        return;
      }
      deadline := clock + TICK_SECONDS * MICROS;
      started := true;
    }

    /** The first half of stop: the service thread is asked to end. */
    method AskToStop()
      requires Valid()
      modifies this`tasks
      ensures Valid() && View() == if started then Post(old(View()), StopService) else old(View())
    {
      if !started {
        return;
      }
      tasks := tasks + [StopService];
    }

    /** The second half, when the service thread has ended: settings are accepted again. */
    method FinishStop()
      requires Valid() && started && stopped
      modifies this`started
      ensures Valid() && View() == Joined(old(View())) && !started && stopped
    {
      started := false;
    }

    method AsyncPost(task: Task<E>)
      requires Valid()
      modifies this`tasks
      ensures Valid() && View() == Post(old(View()), task)
    {
      tasks := tasks + [task];
    }

    /** The service thread takes the oldest task off its queue and runs it. */
    method RunTask(clock: int) returns (status: Status, fired: seq<E>, collected: seq<E>)
      requires Valid() && tasks != [] && Postable(tasks[0])
      modifies this`tasks, this`stopped
      modifies manager`elements, manager`elementCount, manager`Entries, manager.busyList, manager.busyList.Nodes
      ensures var (next, out) := old(RunFront(View(), clock));
              Became(next, out, status, fired) && manager.NodesAreOurs()
      ensures collected ==
                if old(tasks)[0] == Perform(RemoveAll(Collected)) then ElementsOf(old(manager.Entries)) else []
    {
      hide Step, Reported, ElementMgr.Valid;
      var task := tasks[0];
      tasks := tasks[1..];
      status, fired, collected := Done, [], [];
      match task
      case StopService =>
        manager.ClearElement(Seconds(clock));
        stopped := true;
      case Perform(op) =>
        match op
        case Add(e) => status, fired := manager.AddElement(e, Seconds(clock));
        case Update(e) => status := manager.UpdateElement(e, Seconds(clock));
        case Del(e) => status := manager.DelElement(e, Seconds(clock));
        case Tick => assert false;
        case RemoveAll(kind) =>
          if kind == Collected {
            collected := manager.GetAllElementAndClear(Seconds(clock));
          } else if kind == Triggered {
            fired := manager.TriggerAllTimeout(Seconds(clock));
          } else {
            manager.ClearElement(Seconds(clock));
          }
    }

    method HandleTimeout(clock: int) returns (status: Status, fired: seq<E>)
      requires Valid()
      modifies this`deadline
      modifies manager`elements, manager`elementCount, manager`Entries, manager.busyList, manager.busyList.Nodes
      ensures var (next, out) := old(FireTimer(View(), clock));
              Became(next, out, status, fired) && manager.NodesAreOurs()
    {
      hide Step, Reported, ElementMgr.Valid;
      deadline := deadline + TICK_SECONDS * MICROS;
      status, fired := manager.HandleTimeout(Seconds(clock));
    }
  }
}
