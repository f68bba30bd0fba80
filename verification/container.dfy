/**
 * The `Container` class of src/main/core/container.ts. Its fields are those of the
 * source (the mounted-module map split into the map and its key order), plus the
 * record of calls it made on its modules. Every method changes the fields step by
 * step as the source does and is proved to end in the state the matching function of
 * `Navigation` describes; `NavigationProps` proves what those functions guarantee.
 */
module Containers {
  import opened Wrappers
  import opened Dto
  import opened Navigation
  import opened NavigationProps

  class Container {
    const id: string
    var mountedModules: map<string, Module>
    var mountOrder: seq<string>
    var activeModule: Option<Module>
    var moduleChangeHistory: seq<Module>
    var inBackProcess: bool
    var calls: seq<Call>

    ghost function View(): Nav
      reads this
    {
      Nav(mountedModules, mountOrder, activeModule, moduleChangeHistory, inBackProcess, calls)
    }

    ghost predicate Valid()
      reads this
    {
      Inv(View())
    }

    constructor (id: string)
      ensures Valid() && this.id == id
      ensures View() == Initial()
    {
      this.id := id;
      mountedModules := map[];
      mountOrder := [];
      activeModule := None;
      moduleChangeHistory := [];
      inBackProcess := false;
      calls := [];
    }

    method GetActiveModule() returns (m: Option<Module>)
      requires Valid()
      ensures m == activeModule
      ensures m.Some? ==> m.value.name in mountedModules
    {
      m := activeModule;
    }

    /** Mounts `m` and maps its name to it, replacing a module mounted under that name. */
    method AddModule(m: Module) returns (ok: bool)
      requires Valid()
      modifies this
      ensures Valid()
      ensures View() == Navigation.AddModule(old(View()), m) && ok
      ensures mountedModules.Keys == old(mountedModules.Keys) + {m.name} && mountedModules[m.name] == m
    {
      calls := calls + [Mount(m)];
      if m.name !in mountedModules {
        mountOrder := mountOrder + [m.name];
      }
      mountedModules := mountedModules[m.name := m];
      InvPreserved(old(View()), AddModuleOp(m));
      ok := true;
    }

    /** Shows the mounted entry identical to `m` and hides every other entry, in map order. */
    method ActivateModule(m: Module) returns (thrown: Option<Failure>)
      requires Valid()
      modifies this
      ensures Valid()
      ensures Step(View(), thrown) == Activate(old(View()), m)
      ensures thrown.Some? <==> m.name !in old(mountedModules)
      ensures thrown.Some? ==> View() == old(View())
      ensures thrown.None? ==> forall k :: k in mountedModules ==> (IsShown(calls, mountedModules[k]) <==> mountedModules[k] == m)
      ensures thrown.None? && mountedModules[m.name] == m ==> activeModule == Some(m)
    {
      if m.name !in mountedModules {
        return Some(NotMounted);
      }
      ShowOnly(m);
      thrown := None;
      ghost var before := old(View());
      InvPreserved(before, ActivateModuleOp(m));
      ActivateShowsOnlyTarget(before, m);
    }

    /** The `forEach` of `activateModule`: one show or hide call per mounted entry, in map order. */
    method ShowOnly(m: Module)
      requires Valid() && m.name in mountedModules
      modifies this`calls, this`activeModule
      ensures Activate(old(View()), m) == Step(View(), None)
    {
      var order, mounted := mountOrder, mountedModules;
      var made, active := calls, activeModule;
      ghost var p :| 0 <= p < |order| && order[p] == m.name;
      var i := 0;
      while i < |order|
        modifies {}
        invariant 0 <= i <= |order|
        invariant made == calls + ActivationCalls(order[..i], mounted, m)
        invariant active == if p < i && mounted[m.name] == m then Some(m) else activeModule
      {
        var entry := mounted[order[i]];
        assert entry == m ==> i == p;
        if entry == m {
          made := made + [Show(entry)];
          active := Some(entry);
        } else {
          made := made + [Hide(entry)];
        }
        assert order[..i + 1][..i] == order[..i];
        i := i + 1;
      }
      assert order[..i] == order;
      calls, activeModule := made, active;
    }

    /** Hides the active module; throws when there is none. */
    method HideModule() returns (thrown: Option<Failure>)
      requires Valid()
      modifies this
      ensures Valid()
      ensures Step(View(), thrown) == HideActive(old(View()))
    {
      match activeModule
      case None =>
        thrown := Some(NoActiveModule);
      case Some(a) =>
        calls := calls + [Hide(a)];
        thrown := None;
    }

    /** Notifies every mounted module of a resize, in map order. */
    method OnResize()
      requires Valid()
      modifies this
      ensures Valid()
      ensures View() == Navigation.OnResize(old(View()))
    {
      var order, mounted := mountOrder, mountedModules;
      var made := calls;
      var i := 0;
      while i < |order|
        modifies {}
        invariant 0 <= i <= |order|
        invariant made == calls + ResizeCalls(order[..i], mounted)
      {
        made := made + [Resize(mounted[order[i]])];
        assert order[..i + 1][..i] == order[..i];
        i := i + 1;
      }
      assert order[..i] == order;
      calls := made;
      InvPreserved(old(View()), OnResizeOp);
    }

    /** Pops the top of history, then reveals the new top or, with none left, hides the active module. */
    method ShowPreviousModule() returns (thrown: Option<Failure>)
      requires Valid()
      modifies this
      ensures Valid()
      ensures Step(View(), thrown) == ShowPrevious(old(View()))
      ensures moduleChangeHistory == if |old(moduleChangeHistory)| > 0 then old(moduleChangeHistory)[..|old(moduleChangeHistory)| - 1] else []
    {
      if |moduleChangeHistory| > 0 {
        moduleChangeHistory := moduleChangeHistory[..|moduleChangeHistory| - 1];
      }
      if |moduleChangeHistory| > 0 {
        thrown := ActivateModule(moduleChangeHistory[|moduleChangeHistory| - 1]);
      } else {
        thrown := HideModule();
      }
    }

    /**
     * `forward(m, parcel)` up to its suspension. `pending` says whether the returned
     * promise now waits for `m`'s exit; when it is false and nothing was thrown, the
     * promise has already resolved with no result.
     */
    method ForwardStart(m: Module, parcel: Option<Parcel>) returns (pending: bool, thrown: Option<Failure>)
      requires Valid()
      modifies this
      ensures Valid()
      ensures Step(View(), thrown) == Navigation.ForwardStart(old(View()), m, parcel)
      ensures pending <==> m !in old(moduleChangeHistory) && thrown == None
      ensures moduleChangeHistory == if pending then old(moduleChangeHistory) + [m] else old(moduleChangeHistory)
    {
      if m in moduleChangeHistory {
        return false, None;
      }
      calls := calls + [Initialize(m, parcel)];
      thrown := ActivateModule(m);
      if thrown.Some? {
        return false, thrown;
      }
      moduleChangeHistory := moduleChangeHistory + [m];
      calls := calls + [WaitForExit(m)];
      InvPreserved(old(View()), ForwardStartOp(m, parcel));
      pending := true;
    }

    /**
     * The rest of `forward` once the awaited module resolved its exit with `result`:
     * reveals the previous module unless a `back` is in progress, clears the flag and
     * settles with `result` unchanged.
     */
    method ForwardResume(result: Result) returns (outcome: Settled<Result>)
      requires Valid()
      modifies this
      ensures Valid()
      ensures Step(View(), if outcome.Rejected? then Some(outcome.error) else None) == Navigation.ForwardResume(old(View()))
      ensures outcome.Resolved? ==> outcome.value == result && !inBackProcess
      ensures old(inBackProcess) ==> outcome == Resolved(result) && View() == old(View()).(inBack := false)
    {
      if !inBackProcess {
        var thrown := ShowPreviousModule();
        if thrown.Some? {
          return Rejected(thrown.value);
        }
      }
      inBackProcess := false;
      outcome := Resolved(result);
    }

    /** `back` up to its suspension: raises the flag and asks the active module to exit. */
    method BackStart() returns (thrown: Option<Failure>)
      requires Valid()
      modifies this
      ensures Valid()
      ensures Step(View(), thrown) == Navigation.BackStart(old(View()))
    {
      inBackProcess := true;
      match activeModule
      case None =>
        thrown := Some(NoActiveModule);
      case Some(a) =>
        calls := calls + [Exit(a, Back)];
        thrown := None;
    }

    /** The callback of `back` with the module's answer: reveals the previous module when it exited. */
    method BackResume(exited: bool) returns (thrown: Option<Failure>)
      requires Valid()
      modifies this
      ensures Valid()
      ensures Step(View(), thrown) == Navigation.BackResume(old(View()), exited)
      ensures !exited ==> View() == old(View())
    {
      if !exited {
        return None;
      }
      thrown := ShowPreviousModule();
    }
  }
}
