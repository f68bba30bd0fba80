/**
 * The navigation state machine of a container (src/main/core/container.ts), stated on
 * values. A `Nav` holds exactly the four fields of a `Container` plus the ordered
 * record of the calls the container made to its modules; every operation of the
 * container is a function from the state before to a `Step`: the state after and the
 * error thrown, if any. The class `Containers.Container` is proved to follow these
 * functions, and `NavigationProps` proves what they guarantee.
 */
module Navigation {
  import opened Wrappers
  import opened Dto

  /**
   * A module as a container sees it: an object with a fixed name. Two modules are the
   * same module only when they are the same object (the source compares with `===`
   * and `indexOf`).
   */
  class Module {
    const name: string

    constructor (name: string)
      ensures this.name == name
    {
      this.name := name;
    }
  }

  /** One call a container makes on one of its modules, in the order it makes them. */
  datatype Call =
    | Mount(target: Module)
    | Initialize(target: Module, parcel: Option<Parcel>)
    | Show(target: Module)
    | Hide(target: Module)
    | Resize(target: Module)
    | WaitForExit(target: Module)
    | Exit(target: Module, action: ActionType)

  /**
   * What a container operation can throw: `NotMounted` is the runtime error of
   * `activateModule`; `NoActiveModule` is the type error of calling a method on an
   * `activeModule` that was never set.
   */
  datatype Failure = NotMounted | NoActiveModule

  /** How the promise returned by `forward` settles once the module has exited. */
  datatype Settled<T> = Resolved(value: T) | Rejected(error: Failure)

  /**
   * The container's state. `mounted` is the `mountedModules` map and `order` the
   * order in which its keys were first inserted (the iteration order of a JavaScript
   * `Map`, which `set` on an existing key does not change).
   */
  datatype Nav = Nav(
    mounted: map<string, Module>,
    order: seq<string>,
    active: Option<Module>,
    history: seq<Module>,
    inBack: bool,
    calls: seq<Call>)

  /** The state after an operation, and what it threw (the state is the one at the throw). */
  datatype Step = Step(nav: Nav, thrown: Option<Failure>)

  predicate Distinct<T(==)>(s: seq<T>) {
    forall i, j :: 0 <= i < j < |s| ==> s[i] != s[j]
  }

  /** The map and its iteration order agree, and every module is mounted under its own name. */
  ghost predicate WellFormed(s: Nav) {
    && Distinct(s.order)
    && (forall k :: k in s.mounted <==> k in s.order)
    && (forall k :: k in s.mounted ==> s.mounted[k].name == k)
  }

  /**
   * The container invariant: history entries are distinct and every history entry and
   * the active module carry a mounted name.
   */
  ghost predicate Inv(s: Nav) {
    && WellFormed(s)
    && Distinct(s.history)
    && (forall i :: 0 <= i < |s.history| ==> s.history[i].name in s.mounted)
    && (s.active.Some? ==> s.active.value.name in s.mounted)
  }

  /** A freshly constructed container. */
  function Initial(): Nav {
    Nav(map[], [], None, [], false, [])
  }

  /**
   * Whether `x` is on screen according to the calls made so far: the last show or hide
   * call made on `x` was a show. A module never shown or hidden counts as not shown.
   */
  function IsShown(calls: seq<Call>, x: Module): bool {
    if calls == [] then false
    else
      match calls[|calls| - 1]
      case Show(t) => t == x || IsShown(calls[..|calls| - 1], x)
      case Hide(t) => t != x && IsShown(calls[..|calls| - 1], x)
      case _ => IsShown(calls[..|calls| - 1], x)
  }

  /** `addModule`: mount the module, then map its name to it (replacing any earlier entry). */
  function AddModule(s: Nav, m: Module): Nav {
    s.(calls := s.calls + [Mount(m)],
       order := if m.name in s.mounted then s.order else s.order + [m.name],
       mounted := s.mounted[m.name := m])
  }

  /** The call `activateModule(m)` makes on the entry under key `k`. */
  function ActivationCall(mounted: map<string, Module>, m: Module, k: string): Call
    requires k in mounted
  {
    if mounted[k] == m then Show(m) else Hide(mounted[k])
  }

  /** The calls of the `forEach` in `activateModule(m)` over the given keys, in order. */
  function ActivationCalls(keys: seq<string>, mounted: map<string, Module>, m: Module): seq<Call>
    requires forall k :: k in keys ==> k in mounted
  {
    if keys == [] then []
    else ActivationCalls(keys[..|keys| - 1], mounted, m) + [ActivationCall(mounted, m, keys[|keys| - 1])]
  }

  /**
   * `activateModule(m)`: throw when no module is mounted under `m`'s name; otherwise
   * show the entry identical to `m`, hide every other entry, and make `m` active when
   * it is the mounted entry.
   */
  function Activate(s: Nav, m: Module): Step
    requires WellFormed(s)
  {
    if m.name !in s.mounted then Step(s, Some(NotMounted))
    else
      Step(s.(calls := s.calls + ActivationCalls(s.order, s.mounted, m),
              active := if s.mounted[m.name] == m then Some(m) else s.active),
           None)
  }

  /** `hideModule`: hide the active module. */
  function HideActive(s: Nav): Step {
    match s.active
    case None => Step(s, Some(NoActiveModule))
    case Some(a) => Step(s.(calls := s.calls + [Hide(a)]), None)
  }

  /** The calls of `onResize`: one resize per mounted module, in map order. */
  function ResizeCalls(keys: seq<string>, mounted: map<string, Module>): seq<Call>
    requires forall k :: k in keys ==> k in mounted
  {
    if keys == [] then []
    else ResizeCalls(keys[..|keys| - 1], mounted) + [Resize(mounted[keys[|keys| - 1]])]
  }

  /** `onResize`. */
  function OnResize(s: Nav): Nav
    requires WellFormed(s)
  {
    s.(calls := s.calls + ResizeCalls(s.order, s.mounted))
  }

  /** The private `showPreviousModule`: pop the top of history, then reveal the new top or hide. */
  function ShowPrevious(s: Nav): Step
    requires WellFormed(s)
  {
    var popped := if |s.history| > 0 then s.(history := s.history[..|s.history| - 1]) else s;
    if |popped.history| > 0 then Activate(popped, popped.history[|popped.history| - 1])
    else HideActive(popped)
  }

  /**
   * The synchronous part of `forward(m, parcel)`, up to its suspension: nothing when
   * `m` is already in history; otherwise initialize, activate, push and ask the module
   * for the promise of its exit.
   */
  function ForwardStart(s: Nav, m: Module, parcel: Option<Parcel>): Step
    requires WellFormed(s)
  {
    if m in s.history then Step(s, None)
    else
      var activated := Activate(s.(calls := s.calls + [Initialize(m, parcel)]), m);
      if activated.thrown.Some? then activated
      else
        var pushed := activated.nav.(history := activated.nav.history + [m]);
        Step(pushed.(calls := pushed.calls + [WaitForExit(m)]), None)
  }

  /** The rest of `forward`, run once the module has exited. */
  function ForwardResume(s: Nav): Step
    requires WellFormed(s)
  {
    if s.inBack then Step(s.(inBack := false), None)
    else
      var shown := ShowPrevious(s);
      if shown.thrown.Some? then shown
      else Step(shown.nav.(inBack := false), None)
  }

  /** The synchronous part of `back`: raise the flag and ask the active module to exit. */
  function BackStart(s: Nav): Step {
    var flagged := s.(inBack := true);
    match flagged.active
    case None => Step(flagged, Some(NoActiveModule))
    case Some(a) => Step(flagged.(calls := flagged.calls + [Exit(a, Back)]), None)
  }

  /** The `then` callback of `back`, given the module's answer. */
  function BackResume(s: Nav, exited: bool): Step
    requires WellFormed(s)
  {
    if !exited then Step(s, None) else ShowPrevious(s)
  }

  /** Any one public call on a container (or the resumption of a suspended one). */
  datatype Op =
    | AddModuleOp(m: Module)
    | ActivateModuleOp(m: Module)
    | HideModuleOp
    | OnResizeOp
    | ForwardStartOp(m: Module, parcel: Option<Parcel>)
    | ForwardResumeOp
    | BackStartOp
    | BackResumeOp(exited: bool)

  function Apply(s: Nav, op: Op): Step
    requires WellFormed(s)
  {
    match op
    case AddModuleOp(m) => Step(AddModule(s, m), None)
    case ActivateModuleOp(m) => Activate(s, m)
    case HideModuleOp => HideActive(s)
    case OnResizeOp => Step(OnResize(s), None)
    case ForwardStartOp(m, parcel) => ForwardStart(s, m, parcel)
    case ForwardResumeOp => ForwardResume(s)
    case BackStartOp => BackStart(s)
    case BackResumeOp(exited) => BackResume(s, exited)
  }
}
