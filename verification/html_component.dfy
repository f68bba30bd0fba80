/**
 * The module side of the exit and message handshakes, and the fan-out of lifecycle
 * calls to nested containers, of the `HTMLComponent` class in
 * src/main/core/module/html_component.ts.
 *
 * Each of the three resolver fields is a pending slot holding the id of the promise it
 * would settle, or nothing once it has fired (the source sets it to `null`). Settling a
 * promise, raising a handler on the adapter and calling a sub-container are recorded,
 * in order, as events.
 */
module HtmlComponents {
  import opened Wrappers
  import opened Dto

  /** A nested container, by its id. */
  type ContainerId = string

  /** An entry of `subContainerInfos`. */
  datatype ContainerInfo = ContainerInfo(name: string, container: ContainerId)

  /** What a component asks of one of its sub-containers. */
  datatype SubCall = SubInitialize(parcel: Option<Parcel>) | SubShow | SubResize

  datatype Event =
      // handlers raised on the adapter
    | OnInitialize(parcel: Option<Parcel>)
    | OnShow
    | OnHide
    | OnExit(action: ActionType)
    | OnReceiveMessage(command: string, message: Option<string>)
      // calls on sub-containers
    | ToSubContainer(container: ContainerId, call: SubCall)
      // promises settled through a resolver slot
    | ExitAnswered(promise: nat, exited: bool)
    | WaitResolved(promise: nat, result: Result)
    | MessageAnswered(promise: nat, response: string)

  /** The same call made on every sub-container, in the iteration order of the map. */
  function FanOut(infos: seq<ContainerInfo>, call: SubCall): seq<Event> {
    if infos == [] then []
    else FanOut(infos[..|infos| - 1], call) + [ToSubContainer(infos[|infos| - 1].container, call)]
  }

  /** A fan-out makes exactly one call per sub-container, in map order. */
  lemma {:induction false} FanOutInMapOrder(infos: seq<ContainerInfo>, call: SubCall)
    ensures |FanOut(infos, call)| == |infos|
    ensures forall i :: 0 <= i < |infos| ==> FanOut(infos, call)[i] == ToSubContainer(infos[i].container, call)
  {
    if infos != [] {
      FanOutInMapOrder(infos[..|infos| - 1], call);
    }
  }

  class HTMLComponent {
    const name: string
    /** The values of `subContainerInfos`, in iteration order. */
    var subContainerInfos: seq<ContainerInfo>
    /** Whether `wrapperElement` has been set. */
    var hasWrapperElement: bool
    /** Whether the wrapper element is displayed. */
    var visible: bool
    var exitResolver: Option<nat>
    var exitForWaitResolver: Option<nat>
    var passMessageResolver: Option<nat>
    /** The id the next promise will receive. */
    var nextPromise: nat
    var events: seq<Event>

    /**
     * Every pending slot holds a promise already handed out, so a promise handed out
     * next differs from every pending one and each settled event names its own promise.
     */
    ghost predicate Valid()
      reads this
    {
      && (exitResolver.Some? ==> exitResolver.value < nextPromise)
      && (exitForWaitResolver.Some? ==> exitForWaitResolver.value < nextPromise)
      && (passMessageResolver.Some? ==> passMessageResolver.value < nextPromise)
    }

    /** A component whose sub-containers have been loaded and whose wrapper element may have been attached. */
    constructor (name: string, infos: seq<ContainerInfo>, hasWrapperElement: bool)
      ensures Valid()
      ensures this.name == name && subContainerInfos == infos && this.hasWrapperElement == hasWrapperElement
      ensures !visible && events == [] && nextPromise == 0
      ensures exitResolver == None && exitForWaitResolver == None && passMessageResolver == None
    {
      this.name := name;
      subContainerInfos := infos;
      this.hasWrapperElement := hasWrapperElement;
      visible := false;
      exitResolver, exitForWaitResolver, passMessageResolver := None, None, None;
      nextPromise := 0;
      events := [];
    }

    /** Passes a resize on to every sub-container, unless there is no wrapper element. */
    method DispatchResizeEvent()
      modifies this`events
      ensures events == old(events) + (if hasWrapperElement then FanOut(subContainerInfos, SubResize) else [])
    {
      if !hasWrapperElement {
        return;
      }
      var infos := subContainerInfos;
      for i := 0 to |infos|
        invariant events == old(events) + FanOut(infos[..i], SubResize)
      {
        events := events + [ToSubContainer(infos[i].container, SubResize)];
        assert infos[..i + 1][..i] == infos[..i];
      }
      assert infos[..|infos|] == infos;
    }

    /** Initializes every sub-container with the parcel, then raises the component's own initialize handler. */
    method Initialize(parcel: Option<Parcel>)
      modifies this`events
      ensures events == old(events) + FanOut(subContainerInfos, SubInitialize(parcel)) + [OnInitialize(parcel)]
    {
      var infos := subContainerInfos;
      for i := 0 to |infos|
        invariant events == old(events) + FanOut(infos[..i], SubInitialize(parcel))
      {
        events := events + [ToSubContainer(infos[i].container, SubInitialize(parcel))];
        assert infos[..i + 1][..i] == infos[..i];
      }
      assert infos[..|infos|] == infos;
      events := events + [OnInitialize(parcel)];
    }

    /** Displays the component, raises its show handler, then tells every sub-container it is shown. */
    method Show()
      modifies this`visible, this`events
      ensures visible
      ensures events == old(events) + [OnShow] + FanOut(subContainerInfos, SubShow)
    {
      visible := true;
      events := events + [OnShow];
      var infos := subContainerInfos;
      for i := 0 to |infos|
        invariant visible
        invariant events == old(events) + [OnShow] + FanOut(infos[..i], SubShow)
      {
        events := events + [ToSubContainer(infos[i].container, SubShow)];
        assert infos[..i + 1][..i] == infos[..i];
      }
      assert infos[..|infos|] == infos;
    }

    /** Hides the component and raises its hide handler; sub-containers are not told. */
    method Hide()
      modifies this`visible, this`events
      ensures !visible
      ensures events == old(events) + [OnHide]
    {
      visible := false;
      events := events + [OnHide];
    }

    /** Hands out a promise of the component's exit result, replacing any earlier one in the wait slot. */
    method WaitForExit() returns (promise: nat)
      requires Valid()
      modifies this`exitForWaitResolver, this`nextPromise
      ensures Valid()
      ensures promise == old(nextPromise) && nextPromise == promise + 1
      ensures exitForWaitResolver == Some(promise)
      ensures old(exitResolver).Some? ==> old(exitResolver).value != promise
      ensures old(passMessageResolver).Some? ==> old(passMessageResolver).value != promise
    {
      promise := nextPromise;
      exitForWaitResolver := Some(promise);
      nextPromise := nextPromise + 1;
    }

    /** Hands out a promise of whether the component agrees to exit, then raises its exit handler. */
    method Exit(action: ActionType) returns (promise: nat)
      requires Valid()
      modifies this`exitResolver, this`nextPromise, this`events
      ensures Valid()
      ensures promise == old(nextPromise) && nextPromise == promise + 1
      ensures exitResolver == Some(promise)
      ensures old(exitForWaitResolver).Some? ==> old(exitForWaitResolver).value != promise
      ensures old(passMessageResolver).Some? ==> old(passMessageResolver).value != promise
      ensures events == old(events) + [OnExit(action)]
    {
      promise := nextPromise;
      exitResolver := Some(promise);
      nextPromise := nextPromise + 1;
      events := events + [OnExit(action)];
    }

    /**
     * The component agrees to exit with `result`: a pending exit request is answered
     * `true`, then a pending wait is resolved with `result`; both slots end empty, so a
     * second call fires nothing.
     */
    method ContinueExitProcess(result: Result)
      requires Valid()
      modifies this`exitResolver, this`exitForWaitResolver, this`events
      ensures Valid()
      ensures exitResolver == None && exitForWaitResolver == None
      ensures events == old(events)
        + (if old(exitResolver).Some? then [ExitAnswered(old(exitResolver).value, true)] else [])
        + (if old(exitForWaitResolver).Some? then [WaitResolved(old(exitForWaitResolver).value, result)] else [])
    {
      if exitResolver.Some? {
        events := events + [ExitAnswered(exitResolver.value, true)];
        exitResolver := None;
      }
      if exitForWaitResolver.Some? {
        events := events + [WaitResolved(exitForWaitResolver.value, result)];
        exitForWaitResolver := None;
      }
    }

    /** The component refuses to exit: a pending exit request is answered `false`; the wait slot stays as it was. */
    method CancelExitProcess()
      requires Valid()
      modifies this`exitResolver, this`events
      ensures Valid()
      ensures exitResolver == None
      ensures events == old(events)
        + (if old(exitResolver).Some? then [ExitAnswered(old(exitResolver).value, false)] else [])
    {
      if exitResolver.Some? {
        events := events + [ExitAnswered(exitResolver.value, false)];
        exitResolver := None;
      }
    }

    /** Hands out a promise of the reply to a message, then raises the receive-message handler. */
    method PassMessage(command: string, message: Option<string>) returns (promise: nat)
      requires Valid()
      modifies this`passMessageResolver, this`nextPromise, this`events
      ensures Valid()
      ensures promise == old(nextPromise) && nextPromise == promise + 1
      ensures passMessageResolver == Some(promise)
      ensures old(exitResolver).Some? ==> old(exitResolver).value != promise
      ensures old(exitForWaitResolver).Some? ==> old(exitForWaitResolver).value != promise
      ensures events == old(events) + [OnReceiveMessage(command, message)]
    {
      promise := nextPromise;
      passMessageResolver := Some(promise);
      nextPromise := nextPromise + 1;
      events := events + [OnReceiveMessage(command, message)];
    }

    /** Answers the pending message with `response` and empties the slot; a message must be pending. */
    method ReturnMessageResponse(response: string)
      requires Valid()
      requires passMessageResolver.Some?
      modifies this`passMessageResolver, this`events
      ensures Valid()
      ensures passMessageResolver == None
      ensures events == old(events) + [MessageAnswered(old(passMessageResolver).value, response)]
    {
      events := events + [MessageAnswered(passMessageResolver.value, response)];
      passMessageResolver := None;
    }

    /** The names of the sub-containers, one per entry, in map order. */
    method GetSubContainerNames() returns (names: seq<string>)
      ensures |names| == |subContainerInfos|
      ensures forall i :: 0 <= i < |names| ==> names[i] == subContainerInfos[i].name
    {
      names := [];
      var infos := subContainerInfos;
      for i := 0 to |infos|
        invariant |names| == i
        invariant forall j :: 0 <= j < i ==> names[j] == infos[j].name
      {
        names := names + [infos[i].name];
      }
    }
  }

  /**
   * A back that the component first refuses and then accepts, as a container sees it:
   * the wait promise (0) survives the refusal of the first exit request (1); the second
   * request (2) is answered `true` and the wait resolved with `result` by one call; a
   * repeated call fires nothing.
   */
  method RefuseThenAcceptExit(result: Result) returns (log: seq<Event>)
    ensures log == [OnExit(Back), ExitAnswered(1, false), OnExit(Back), ExitAnswered(2, true), WaitResolved(0, result)]
  {
    var component := new HTMLComponent("module", [], true);
    var waiting := component.WaitForExit();
    var first := component.Exit(Back);
    component.CancelExitProcess();
    assert component.exitForWaitResolver == Some(waiting);
    var second := component.Exit(Back);
    component.ContinueExitProcess(result);
    component.ContinueExitProcess(result);
    log := component.events;
  }
}
