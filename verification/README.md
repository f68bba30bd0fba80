# Navigation core of micro-spa.js, modelled in Dafny

micro-spa.js composes a page from *modules* hosted in *containers*. A container
mounts modules by name, shows one of them at a time, and keeps a history stack of the
modules reached through `forward`. `back` asks the active module to exit, and the
module may refuse. On the module side (`HTMLComponent`), the exit and message
handshakes are one-shot resolvers. Lifecycle calls (initialize, show, resize) are
passed on to the module's own nested containers.

The project has six modules.

- `Navigation` (navigation.dfy) is the container's state machine, stated on values.
  - A `Nav` holds the mounted-module map and its insertion order, the active module,
    the history stack, the `inBackProcess` flag, and the ordered record of the calls
    the container made on its modules (mount, initialize, show, hide, resize,
    waitForExit, exit).
  - Each operation is a function to a `Step`: the new state plus the error thrown, if
    any.
  - A module counts as *shown* when the last show or hide call made on it was a show.
- `NavigationProps` (navigation_props.dfy) proves what those functions guarantee.
- `Containers` (container.dfy) is the `Container` class. Its methods update the
  fields as the TypeScript does, and each is proved to reach the state its
  `Navigation` function describes.
  - The activation and resize loops build the call record, and the activation loop
    also the active module, in locals. They write the fields once after the loop.
  - Nothing reads those fields during the loop, so the result is the same as the
    source's assignments inside `forEach`.
- `HtmlComponents` (html_component.dfy) is the `HTMLComponent` class. Each resolver
  field is a pending slot holding the id of the promise it would settle.
  - Settling a promise is recorded as an event: `ExitAnswered`, `WaitResolved` or
    `MessageAnswered`.
  - So are raising a handler on the adapter and calling a sub-container.
- `Dto` (dto.dfy) and `Wrappers` (wrappers.dfy) hold the opaque payloads and `Option`.

`forward` and `back` are `async` and suspend once each, so each is split into two
phases:

- `ForwardStart` runs up to `await module.waitForExit()`. `ForwardResume` runs once the
  module has resolved that promise.
- `BackStart` runs up to the call of `exit`. `BackResume(exited)` is the `then`
  callback.

When a `forward` is still waiting on the module, an accepted exit settles both the
promise `back` waits on and the one `forward` waits on. `BackAcceptedOrderIndependent` proves that the two continuations give the same
state in either order.

The model follows the code, including these behaviours a reader might not expect:

- When the history becomes empty, `showPreviousModule` hides the active module but
  does not clear `activeModule` (`DoubleBackScenario`). There is no "no active module"
  state after that.
- `activateModule` checks that the *name* is mounted, then compares entries by
  *identity*. A stale module object that carries a mounted name therefore hides every
  mounted module and leaves `activeModule` as it was (`ActivateShowsOnlyTarget`).
- `showPreviousModule` pops only when the history is non-empty. When the history ends
  up empty and no module was ever made active, it throws: the model's `NoActiveModule`.
- `addModule` silently replaces a module mounted under the same name. A replaced module
  that was shown is never hidden by later activations. "At most one mounted module is
  shown" therefore holds over every run in which no module is added while it is still
  shown (`RunKeepsAtMostOneShown`).
- After a refused `back`, `inBackProcess` stays raised. When that module later closes
  on its own, `forward` skips the reveal: the history still ends in the closed module
  (`RefusedBackScenario`).

## Model

| member | source | states |
|---|---|---|
| Containers.Container.constructor | src/main/core/container.ts:5-13 | a new container has nothing mounted, no active module, an empty history and the flag clear, and satisfies the invariant |
| Containers.Container.GetActiveModule | src/main/core/container.ts:34-36 | returns the active module, whose name is mounted when there is one |
| Containers.Container.AddModule | src/main/core/container.ts:19-24 | mounts the module and maps its name to it, replacing any earlier entry; keys only grow; returns true; the invariant is kept |
| Containers.Container.ActivateModule | src/main/core/container.ts:38-48 | throws exactly when the name is not mounted, and then changes nothing; otherwise a mounted module is shown iff it is the argument, which becomes active when it is the mounted entry |
| Containers.Container.ShowOnly | src/main/core/container.ts:40-47 | the loop over the mounted map makes exactly the show and hide calls of the activation, in map order, and sets the active module as activation does |
| Containers.Container.HideModule | src/main/core/container.ts:50-52 | hides the active module and throws when there is none |
| Containers.Container.OnResize | src/main/core/container.ts:54-58 | sends one resize call to each mounted module, in map order, and changes nothing else |
| Containers.Container.ShowPreviousModule | src/main/core/container.ts:88-97 | pops at most one history entry, then reveals the new top or hides the active module |
| Containers.Container.ForwardStart | src/main/core/container.ts:60-68 | does nothing when the module is already in history; otherwise initializes it, activates it, and pushes it exactly when activation did not throw; the history stays duplicate-free |
| Containers.Container.ForwardResume | src/main/core/container.ts:70-77 | reveals the previous module exactly when the flag is clear; clears the flag; settles with the module's result unchanged |
| Containers.Container.BackStart | src/main/core/container.ts:80-82 | raises the flag, then asks the active module to exit with a back action, or throws when there is none |
| Containers.Container.BackResume | src/main/core/container.ts:82-85 | changes nothing on a refusal; reveals the previous module on an acceptance |
| Navigation.IsShown | src/main/core/container.ts:40-52 | a module is on screen when the last show or hide call made on it was a show; `HideCallVisibility`, `QuietCallsKeepVisibility` and `ActivationCallsVisibility` state how each kind of call changes it |
| Navigation.AddModule | src/main/core/container.ts:19-24 | `addModule` on values: mount, then map the name to the module; `AddModuleKeepsInvariants` states that it keeps the invariant and, for a module not shown, at most one shown |
| Navigation.ActivationCalls | src/main/core/container.ts:40-47 | the calls of the `forEach` in `activateModule`; `ActivationCallsVisibility` states that exactly the target ends shown among the visited entries |
| Navigation.Activate | src/main/core/container.ts:38-48 | `activateModule` on values; `ActivateFailsIffUnmounted` states when it throws and what it never changes, `ActivateShowsOnlyTarget` what it shows and makes active |
| Navigation.HideActive | src/main/core/container.ts:50-52 | `hideModule` on values; `HideCallVisibility` and `HideActiveKeepsInvariants` state its effect on visibility and the invariants |
| Navigation.ResizeCalls | src/main/core/container.ts:54-58 | the calls of the `forEach` in `onResize`; `ResizeCallsInMapOrder` states one per mounted module, in map order, none a show or hide |
| Navigation.OnResize | src/main/core/container.ts:54-58 | `onResize` on values; `OnResizeKeepsInvariants` states that it keeps both invariants |
| Navigation.ShowPrevious | src/main/core/container.ts:88-97 | `showPreviousModule` on values; `ShowPreviousEffect` states the pop, the reveal of the new top, and the hide or throw with an empty history |
| Navigation.ForwardStart | src/main/core/container.ts:60-68 | `forward` up to its suspension; `ForwardStartEffect` states its three cases and `ForwardStartIdempotent` that a repeat changes nothing |
| Navigation.ForwardResume | src/main/core/container.ts:70-77 | the rest of `forward`; `ForwardResumeEffect` states that only the flag clears during a back, and otherwise it is one reveal |
| Navigation.BackStart | src/main/core/container.ts:80-82 | `back` up to the exit call; `BackEffect` states the raised flag, the exit request and the throw with no active module |
| Navigation.BackResume | src/main/core/container.ts:82-85 | the `then` callback of `back`; `BackEffect` states that a refusal changes nothing and an acceptance is one reveal, and `BackAcceptedOrderIndependent` that its order against `ForwardResume` does not matter |
| NavigationProps.ActivateFailsIffUnmounted | src/main/core/container.ts:38-39 | activation throws iff the name is not mounted; then the state is untouched; it never changes the map, the history or the flag |
| NavigationProps.ActivateShowsOnlyTarget | src/main/core/container.ts:40-47 | after a successful activation, a mounted module is shown iff it is the target; the target becomes active when it is the mounted entry, and otherwise the active module is unchanged |
| NavigationProps.ActivationCallsVisibility | src/main/core/container.ts:40-47 | the show/hide calls of the activation loop leave exactly the target shown among the entries they visit, and other modules as they were |
| NavigationProps.HideCallVisibility | src/main/core/container.ts:50-52 | hiding a module makes it not shown and leaves every other module's visibility as it was |
| NavigationProps.QuietCallsKeepVisibility | src/main/core/container.ts:19-85 | calls that neither show nor hide (mount, initialize, resize, waitForExit, exit) leave every module's visibility as it was |
| NavigationProps.QuietKeepsAtMostOneShown | src/main/core/container.ts:19-85 | such calls keep at most one mounted module shown |
| NavigationProps.ActivateKeepsInvariants | src/main/core/container.ts:38-48 | activation keeps the invariant and at most one mounted module shown |
| NavigationProps.HideActiveKeepsInvariants | src/main/core/container.ts:50-52 | hiding the active module keeps the invariant and at most one mounted module shown |
| NavigationProps.ResizeCallsInMapOrder | src/main/core/container.ts:54-58 | the resize fan-out makes one call per mounted module, in map order, and shows or hides nothing |
| NavigationProps.AddModuleKeepsInvariants | src/main/core/container.ts:19-24 | mounting keeps the invariant, and keeps at most one mounted module shown when the added module is not shown |
| NavigationProps.OnResizeKeepsInvariants | src/main/core/container.ts:54-58 | the resize fan-out keeps the invariant and at most one mounted module shown |
| NavigationProps.BackStartKeepsInvariants | src/main/core/container.ts:80-82 | raising the flag and sending the exit request keep the invariant and at most one mounted module shown |
| NavigationProps.InvPreserved | src/main/core/container.ts:19-97 | every operation, thrown or not, keeps history entries distinct and the names of history entries and the active module mounted |
| NavigationProps.AtMostOneShownPreserved | src/main/core/container.ts:19-97 | every operation keeps at most one mounted module shown, given that an added module is not already shown |
| NavigationProps.RunKeepsAtMostOneShown | src/main/core/container.ts:19-97 | starting with at most one mounted module shown, after any sequence of operations that adds no module while it is still shown, at most one mounted module is shown |
| NavigationProps.FromInitial | src/main/core/container.ts:5-13 | from a new container, every run keeps the invariant, and every run that adds no module while it is still shown keeps at most one mounted module shown |
| NavigationProps.HistoryChanges | src/main/core/container.ts:60-97 | history grows only through forward, by the new module; it shrinks only by its top, through a reveal after a voluntary exit or an accepted back |
| NavigationProps.ForwardStartEffect | src/main/core/container.ts:61-68 | forward to a module in history does nothing; to an unmounted name it only initializes, then throws; otherwise it initializes first, shows only the target, pushes it, and then waits |
| NavigationProps.ForwardStartIdempotent | src/main/core/container.ts:61 | a second forward to a module still in history changes nothing |
| NavigationProps.ForwardStartKeepsInvariants | src/main/core/container.ts:61-66 | forward keeps the invariant and at most one mounted module shown |
| NavigationProps.ShowPreviousEffect | src/main/core/container.ts:88-97 | pops at most one entry; with entries left it shows exactly the new top; with none left it hides the active module, keeps it recorded as active, and throws when there is none |
| NavigationProps.ShowPreviousKeepsInvariants | src/main/core/container.ts:88-97 | the reveal keeps the invariant and at most one mounted module shown |
| NavigationProps.ForwardResumeEffect | src/main/core/container.ts:70-77 | with the flag raised only the flag is cleared; otherwise the result is exactly that of the reveal, and the flag is clear afterwards |
| NavigationProps.BackEffect | src/main/core/container.ts:80-85 | back raises the flag and sends one exit request to the active module; a refusal leaves everything as it was; an acceptance is one reveal |
| NavigationProps.BackAcceptedOrderIndependent | src/main/core/container.ts:70-85 | after an accepted back, the forward continuation and the back callback give the same state in either order: one reveal, flag clear |
| NavigationProps.ForwardThenSelfExitRestores | src/main/core/container.ts:60-97 | forward followed by a voluntary exit restores the history and shows exactly the previous top among the mounted modules; when there was none, no mounted module is shown |
| NavigationProps.TwoModulesMounted | src/main/core/container.ts:19-24 | mounting two differently named modules into a new container gives an empty history with both mounted under their names |
| NavigationProps.ForwardOnto | src/main/core/container.ts:60-68 | forward to a mounted module outside a back pushes it, makes it active and the only mounted module shown, and initializes it with the parcel |
| NavigationProps.SelfExitReturns | src/main/core/container.ts:68-97 | with one module in history, a module reached by forward that closes itself brings the first back: active, the only mounted module shown, and the only entry |
| NavigationProps.ListDetailScenario | src/main/core/container.ts:60-97 | list then detail: history [list] with only the list shown among all mounted modules, then [list, detail] with only the detail shown and initialized with the parcel; the detail's self-exit returns to [list] with the list active and the only mounted module shown |
| NavigationProps.AcceptedBack | src/main/core/container.ts:70-85 | an accepted back is one exit request followed by one reveal, which does not throw, with the flag clear |
| NavigationProps.AcceptedBackReveals | src/main/core/container.ts:80-97 | with b on top of a, an accepted back leaves history [a] with a active and the only mounted module shown |
| NavigationProps.AcceptedBackEmpties | src/main/core/container.ts:80-97 | with only a in history and the only module shown, an accepted back empties the history and leaves no mounted module shown; a stays recorded as active |
| NavigationProps.DoubleBackScenario | src/main/core/container.ts:60-97 | forward a, forward b, accepted back: history [a] with a the only mounted module shown; a second accepted back: empty history, no mounted module shown, a still recorded as active |
| NavigationProps.RefusedBack | src/main/core/container.ts:70-85 | a refused back only raises the flag and records the request; the next resumed forward only clears the flag |
| NavigationProps.RefusedBackScenario | src/main/core/container.ts:60-97 | after b refuses a back, nothing moves, b stays the only mounted module shown and the flag stays raised; b's later self-exit does not reveal a: only the flag clears |
| HtmlComponents.FanOutInMapOrder | src/main/core/module/html_component.ts:51-53 | a fan-out makes exactly one call per sub-container, in map order |
| HtmlComponents.HTMLComponent.constructor | src/main/core/module/html_component.ts:7-30 | a new component is hidden, has no pending slot and no events |
| HtmlComponents.HTMLComponent.DispatchResizeEvent | src/main/core/module/html_component.ts:32-38 | does nothing without a wrapper element; otherwise sends a resize to every sub-container, in map order |
| HtmlComponents.HTMLComponent.Initialize | src/main/core/module/html_component.ts:50-56 | initializes every sub-container with the parcel, in map order, before raising its own initialize handler |
| HtmlComponents.HTMLComponent.Show | src/main/core/module/html_component.ts:58-66 | displays the component, raises its show handler, then tells every sub-container, in map order |
| HtmlComponents.HTMLComponent.Hide | src/main/core/module/html_component.ts:68-73 | hides the component and raises only its own hide handler, with no cascade |
| HtmlComponents.HTMLComponent.WaitForExit | src/main/core/module/html_component.ts:77-81 | arms the wait slot with a new promise, replacing any earlier one; the new promise differs from any still pending in the exit and message slots |
| HtmlComponents.HTMLComponent.Exit | src/main/core/module/html_component.ts:83-89 | arms the exit slot with a new promise, replacing any earlier one, then raises the exit handler with the action; the new promise differs from any still pending in the wait and message slots |
| HtmlComponents.HTMLComponent.ContinueExitProcess | src/main/core/module/html_component.ts:91-100 | answers a pending exit true, then resolves a pending wait with the result; both slots end empty, so a second call fires nothing |
| HtmlComponents.HTMLComponent.CancelExitProcess | src/main/core/module/html_component.ts:102-107 | answers a pending exit false and empties only that slot; the wait slot is untouched; with nothing pending nothing happens |
| HtmlComponents.HTMLComponent.PassMessage | src/main/core/module/html_component.ts:109-114 | arms the message slot with a new promise, then raises the receive-message handler; the new promise differs from any still pending in the exit and wait slots |
| HtmlComponents.HTMLComponent.ReturnMessageResponse | src/main/core/module/html_component.ts:116-121 | with a message pending, answers it with the response and empties the slot |
| HtmlComponents.HTMLComponent.GetSubContainerNames | src/main/core/module/html_component.ts:131-137 | returns one name per sub-container entry, in map order |
| HtmlComponents.RefuseThenAcceptExit | src/main/core/module/html_component.ts:77-107 | a refused exit leaves the wait pending; a later accepted exit answers the new request and resolves the original wait in one call; a repeat fires nothing |

## Left out

- DOM work is reduced to show/hide calls and a visible flag. This covers the style
  writes in the `Container` constructor and in `show`/`hide`, `addModuleElement`, and
  `getElement` on both classes. `hide`'s test of `visibility !== "hidden"` is dropped:
  `Hide` always clears the flag.
- `getId`, `getName` and `getCaption` return constant fields (`getCaption` returns the
  name). The model exposes those fields (`id`, `name`) directly.
- `getCurrentContainer` is not modelled. It returns `currentContainer`, a field that
  `HTMLComponent` never assigns itself. Presumably it is set by the subclasses' `mount`,
  which is left out.
- The adapter's handlers are recorded as events. Their implementations are not part of
  this model. So is what a module does inside `initialize`, `show`, `hide`, `exit` and
  `mount`, seen from the container.
- `HtmlComponents.HTMLComponent.Show`, `Initialize`, `Hide`: a missing `htmlAdapter`,
  or a missing wrapper element in `show`/`hide`, would throw a type error. The model
  assumes both are present.
- `HtmlComponents.HTMLComponent.Exit`, `PassMessage`: `htmlAdapter` is `null` until a
  subclass sets it. With a null adapter, the promise executor arms the slot and then
  throws, so the returned promise rejects.
  - The model always raises the handler and never rejects.
  - It does not capture that `back`'s `then` callback would then never run. A later
    `continueExitProcess` would still fire the armed resolver, but nothing would
    observe it.
  - In the model, a later `ExitAnswered(_, true)` would instead drive
    `BackResume(true)`.
- `fetch`, `SourceRepository`, the abstract `mount`, `onCreate`,
  `loadSubContainerInfos` and the CSS setters are not modelled: they are remote I/O or
  have no body. The constructor of `HTMLComponent` takes the sub-container entries and
  whether a wrapper element exists as they would be after fetch and mount.
  `subContainerInfos` is kept as the sequence of its values in iteration order, since
  its keys are never read.
- `Containers.Container.AddModule`: the suspension at `await module.mount(this)` is not
  modelled, nor is a rejected mount. The mount call and the map update happen together.
- Interleavings of concurrent `forward`/`back` calls beyond the two-phase split are not
  modelled. Neither is which promise continuation JavaScript runs first. Both orders
  are covered by `BackAcceptedOrderIndependent`.
- The container's modules and `HTMLComponent` are modelled separately. The container
  records the calls it makes; the component records the promises it settles. A
  `WaitResolved` event is what resumes `forward` (`ForwardResume`), and an
  `ExitAnswered(_, exited)` event is what runs `BackResume(exited)`.
- The container calls `dispachResizeEvent` while the component defines
  `dispatchResizeEvent`. Both are taken to be the one resize call.
- `ActionType` has members other than `BACK` in the dto file, which is not part of this
  model. The container only ever sends `Back`.
- src/main/core/overlay_manager.ts is not part of this model. It is a window-level
  singleton that routes mouse and focus events, and its show methods are stubs.
- `HtmlComponents.HTMLComponent.ReturnMessageResponse` requires a pending message. The
  source guards on `this.passMessage`, a method and so always truthy, not on the
  resolver. A response with no message pending therefore calls a null resolver and
  throws a type error, which the model does not describe.
