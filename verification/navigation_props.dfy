/**
 * What the navigation state machine of `Navigation` guarantees: the invariant every
 * operation keeps, "at most one mounted module is shown", how each operation moves the
 * history stack, and the scenarios a container is meant to support.
 */
module NavigationProps {
  import opened Wrappers
  import opened Dto
  import opened Navigation

  /** No call in `extra` shows or hides anything. */
  predicate Quiet(extra: seq<Call>) {
    forall i :: 0 <= i < |extra| ==> !extra[i].Show? && !extra[i].Hide?
  }

  /** Calls that neither show nor hide leave every module's visibility as it was. */
  lemma {:induction false} QuietCallsKeepVisibility(c: seq<Call>, extra: seq<Call>, x: Module)
    requires Quiet(extra)
    ensures IsShown(c + extra, x) == IsShown(c, x)
  {
    if extra == [] {
      assert c + extra == c;
    } else {
      var init := extra[..|extra| - 1];
      QuietCallsKeepVisibility(c, init, x);
      assert (c + extra)[..|c + extra| - 1] == c + init;
    }
  }

  /** Hiding `a` makes `a` not shown and leaves every other module as it was. */
  lemma HideCallVisibility(c: seq<Call>, a: Module, x: Module)
    ensures IsShown(c + [Hide(a)], x) == (x != a && IsShown(c, x))
  {
    assert (c + [Hide(a)])[..|c|] == c;
  }

  /** `onResize` notifies every mounted module once, in map order, and shows or hides nothing. */
  lemma {:induction false} ResizeCallsInMapOrder(keys: seq<string>, mounted: map<string, Module>)
    requires forall k :: k in keys ==> k in mounted
    ensures |ResizeCalls(keys, mounted)| == |keys|
    ensures forall i :: 0 <= i < |keys| ==> ResizeCalls(keys, mounted)[i] == Resize(mounted[keys[i]])
    ensures Quiet(ResizeCalls(keys, mounted))
  {
    if keys != [] {
      ResizeCallsInMapOrder(keys[..|keys| - 1], mounted);
    }
  }

  /**
   * After the calls of `activateModule(m)` over `keys`, a module that is the entry of
   * one of those keys is shown exactly when it is `m`; any other module is as before.
   */
  lemma {:induction false} ActivationCallsVisibility(
    c: seq<Call>, keys: seq<string>, mounted: map<string, Module>, m: Module, x: Module)
    requires forall k :: k in keys ==> k in mounted
    ensures IsShown(c + ActivationCalls(keys, mounted, m), x)
         == if exists j :: 0 <= j < |keys| && mounted[keys[j]] == x then x == m else IsShown(c, x)
  {
    if keys == [] {
      assert c + ActivationCalls(keys, mounted, m) == c;
    } else {
      var init := keys[..|keys| - 1];
      var k := keys[|keys| - 1];
      ActivationCallsVisibility(c, init, mounted, m, x);
      var full := c + ActivationCalls(keys, mounted, m);
      assert full == (c + ActivationCalls(init, mounted, m)) + [ActivationCall(mounted, m, k)];
      assert full[..|full| - 1] == c + ActivationCalls(init, mounted, m);
      if mounted[k] != x {
        if exists j :: 0 <= j < |keys| && mounted[keys[j]] == x {
          var j :| 0 <= j < |keys| && mounted[keys[j]] == x;
          assert j < |init| && mounted[init[j]] == x;
        }
      } else {
        assert mounted[keys[|keys| - 1]] == x;
      }
    }
  }

  /**
   * `activateModule` throws exactly when `m`'s name is not mounted, and then changes
   * nothing; it never touches the mounted map, the history or the back flag.
   */
  lemma ActivateFailsIffUnmounted(s: Nav, m: Module)
    requires WellFormed(s)
    ensures Activate(s, m).thrown.Some? <==> m.name !in s.mounted
    ensures Activate(s, m).thrown.Some? ==> Activate(s, m) == Step(s, Some(NotMounted))
    ensures var r := Activate(s, m).nav;
      r.mounted == s.mounted && r.order == s.order && r.history == s.history && r.inBack == s.inBack
  {
  }

  /**
   * After `activateModule(m)` succeeds, a mounted module is shown exactly when it is `m`:
   * `m` itself when it is the mounted entry, none when it is a stale object carrying a
   * mounted name. In the first case `m` becomes the active module; in the second the
   * active module is not changed.
   */
  lemma ActivateShowsOnlyTarget(s: Nav, m: Module)
    requires WellFormed(s)
    requires m.name in s.mounted
    ensures Activate(s, m).thrown == None
    ensures forall k :: k in s.mounted ==>
      (IsShown(Activate(s, m).nav.calls, s.mounted[k]) <==> s.mounted[k] == m)
    ensures s.mounted[m.name] == m ==> Activate(s, m).nav.active == Some(m) && IsShown(Activate(s, m).nav.calls, m)
    ensures s.mounted[m.name] != m ==> Activate(s, m).nav.active == s.active
  {
    forall k | k in s.mounted
      ensures IsShown(Activate(s, m).nav.calls, s.mounted[k]) <==> s.mounted[k] == m
    {
      ActivationCallsVisibility(s.calls, s.order, s.mounted, m, s.mounted[k]);
      var j :| 0 <= j < |s.order| && s.order[j] == k;
      assert s.mounted[s.order[j]] == s.mounted[k];
    }
  }

  /** At most one mounted module is shown. */
  ghost predicate AtMostOneShown(s: Nav) {
    forall k1, k2 ::
      k1 in s.mounted && k2 in s.mounted && IsShown(s.calls, s.mounted[k1]) && IsShown(s.calls, s.mounted[k2])
      ==> k1 == k2
  }

  /** Appending calls that neither show nor hide keeps at most one module shown. */
  lemma QuietKeepsAtMostOneShown(s: Nav, extra: seq<Call>)
    requires AtMostOneShown(s) && Quiet(extra)
    ensures AtMostOneShown(s.(calls := s.calls + extra))
  {
    forall x: Module ensures IsShown(s.calls + extra, x) == IsShown(s.calls, x) {
      QuietCallsKeepVisibility(s.calls, extra, x);
    }
  }

  lemma ActivateKeepsInvariants(s: Nav, m: Module)
    requires Inv(s)
    ensures Inv(Activate(s, m).nav)
    ensures AtMostOneShown(s) ==> AtMostOneShown(Activate(s, m).nav)
  {
    if m.name in s.mounted {
      ActivateShowsOnlyTarget(s, m);
    }
  }

  lemma HideActiveKeepsInvariants(s: Nav)
    requires Inv(s)
    ensures Inv(HideActive(s).nav)
    ensures AtMostOneShown(s) ==> AtMostOneShown(HideActive(s).nav)
  {
    if s.active.Some? {
      forall x: Module ensures IsShown(s.calls + [Hide(s.active.value)], x) ==> IsShown(s.calls, x) {
        HideCallVisibility(s.calls, s.active.value, x);
      }
    }
  }

  lemma ShowPreviousKeepsInvariants(s: Nav)
    requires Inv(s)
    ensures Inv(ShowPrevious(s).nav)
    ensures AtMostOneShown(s) ==> AtMostOneShown(ShowPrevious(s).nav)
  {
    var popped := if |s.history| > 0 then s.(history := s.history[..|s.history| - 1]) else s;
    assert Inv(popped);
    if |popped.history| > 0 {
      ActivateKeepsInvariants(popped, popped.history[|popped.history| - 1]);
    } else {
      HideActiveKeepsInvariants(popped);
    }
  }

  lemma ForwardStartKeepsInvariants(s: Nav, m: Module, parcel: Option<Parcel>)
    requires Inv(s)
    ensures Inv(ForwardStart(s, m, parcel).nav)
    ensures AtMostOneShown(s) ==> AtMostOneShown(ForwardStart(s, m, parcel).nav)
  {
    ForwardStartEffect(s, m, parcel);
    var r := ForwardStart(s, m, parcel).nav;
    if m !in s.history && m.name !in s.mounted {
      if AtMostOneShown(s) {
        QuietKeepsAtMostOneShown(s, [Initialize(m, parcel)]);
      }
    } else if m !in s.history {
      assert forall i :: 0 <= i < |r.history| ==> r.history[i].name in r.mounted by {
        assert forall i :: 0 <= i < |s.history| ==> r.history[i] == s.history[i];
      }
    }
  }

  /** Mounting a module that is not shown keeps the invariant and at most one module shown. */
  lemma AddModuleKeepsInvariants(s: Nav, m: Module)
    requires Inv(s)
    ensures Inv(AddModule(s, m))
    ensures AtMostOneShown(s) && !IsShown(s.calls, m) ==> AtMostOneShown(AddModule(s, m))
  {
    var r := AddModule(s, m);
    assert forall k :: k in r.mounted <==> k in r.order;
    if AtMostOneShown(s) && !IsShown(s.calls, m) {
      forall x: Module ensures IsShown(r.calls, x) == IsShown(s.calls, x) {
        QuietCallsKeepVisibility(s.calls, [Mount(m)], x);
      }
    }
  }

  lemma OnResizeKeepsInvariants(s: Nav)
    requires Inv(s)
    ensures Inv(OnResize(s))
    ensures AtMostOneShown(s) ==> AtMostOneShown(OnResize(s))
  {
    ResizeCallsInMapOrder(s.order, s.mounted);
    if AtMostOneShown(s) {
      QuietKeepsAtMostOneShown(s, ResizeCalls(s.order, s.mounted));
    }
  }

  lemma BackStartKeepsInvariants(s: Nav)
    requires Inv(s)
    ensures Inv(BackStart(s).nav)
    ensures AtMostOneShown(s) ==> AtMostOneShown(BackStart(s).nav)
  {
    if s.active.Some? && AtMostOneShown(s) {
      QuietKeepsAtMostOneShown(s.(inBack := true), [Exit(s.active.value, Back)]);
    }
  }

  /** Every operation keeps the container invariant, thrown or not. */
  lemma InvPreserved(s: Nav, op: Op)
    requires Inv(s)
    ensures Inv(Apply(s, op).nav)
  {
    AtMostOneShownPreserved(s, op);
  }

  /** Every operation keeps at most one mounted module shown, provided an added module is not shown already. */
  lemma AtMostOneShownPreserved(s: Nav, op: Op)
    requires Inv(s)
    ensures Inv(Apply(s, op).nav)
    ensures AtMostOneShown(s) && (op.AddModuleOp? ==> !IsShown(s.calls, op.m))
      ==> AtMostOneShown(Apply(s, op).nav)
  {
    match op
    case AddModuleOp(m) => AddModuleKeepsInvariants(s, m);
    case ActivateModuleOp(m) => ActivateKeepsInvariants(s, m);
    case HideModuleOp => HideActiveKeepsInvariants(s);
    case OnResizeOp => OnResizeKeepsInvariants(s);
    case ForwardStartOp(m, parcel) => ForwardStartKeepsInvariants(s, m, parcel);
    case ForwardResumeOp => ShowPreviousKeepsInvariants(s);
    case BackStartOp => BackStartKeepsInvariants(s);
    case BackResumeOp(exited) => ShowPreviousKeepsInvariants(s);
  }

  /** The state after a sequence of operations, each applied whether or not the one before threw. */
  ghost function Run(s: Nav, ops: seq<Op>): (r: Nav)
    requires Inv(s)
    ensures Inv(r)
    decreases |ops|
  {
    if ops == [] then s
    else
      InvPreserved(s, ops[0]);
      Run(Apply(s, ops[0]).nav, ops[1..])
  }

  /** No module is added while the container still shows it. */
  ghost predicate FreshAdds(s: Nav, ops: seq<Op>)
    requires Inv(s)
    decreases |ops|
  {
    ops == [] ||
    ((ops[0].AddModuleOp? ==> !IsShown(s.calls, ops[0].m))
     && (InvPreserved(s, ops[0]); FreshAdds(Apply(s, ops[0]).nav, ops[1..])))
  }

  /** After any sequence of operations, at most one mounted module is shown. */
  lemma {:induction false} RunKeepsAtMostOneShown(s: Nav, ops: seq<Op>)
    requires Inv(s) && AtMostOneShown(s) && FreshAdds(s, ops)
    ensures AtMostOneShown(Run(s, ops))
    decreases |ops|
  {
    if ops != [] {
      AtMostOneShownPreserved(s, ops[0]);
      RunKeepsAtMostOneShown(Apply(s, ops[0]).nav, ops[1..]);
    }
  }

  /** From a new container, every run keeps the invariant and shows at most one mounted module. */
  lemma FromInitial(ops: seq<Op>)
    requires FreshAdds(Initial(), ops)
    ensures Inv(Run(Initial(), ops)) && AtMostOneShown(Run(Initial(), ops))
  {
    RunKeepsAtMostOneShown(Initial(), ops);
  }

  /**
   * The history stack only grows through `forward`, by exactly the new module, which
   * was not in it; it only shrinks through a reveal of the previous module (a
   * voluntary exit outside a back, or an accepted back), by exactly its top.
   */
  lemma HistoryChanges(s: Nav, op: Op)
    requires Inv(s)
    ensures var h, h' := s.history, Apply(s, op).nav.history;
      && (|h'| > |h| ==> op.ForwardStartOp? && op.m !in h && h' == h + [op.m])
      && (|h'| < |h| ==> h' == h[..|h| - 1] && ((op.ForwardResumeOp? && !s.inBack) || op == BackResumeOp(true)))
      && (|h'| == |h| ==> h' == h)
  {
  }

  /**
   * `forward(m)` with `m` already in history does nothing. Otherwise it throws, having
   * only initialized `m`, when `m`'s name is not mounted; or it initializes `m`, shows
   * exactly `m` among the mounted modules, pushes `m` on a history that stays
   * duplicate-free, and only then waits for `m`'s exit.
   */
  lemma ForwardStartEffect(s: Nav, m: Module, parcel: Option<Parcel>)
    requires Inv(s)
    ensures m in s.history ==> ForwardStart(s, m, parcel) == Step(s, None)
    ensures m !in s.history && m.name !in s.mounted ==>
      var r := ForwardStart(s, m, parcel);
      && r.thrown == Some(NotMounted)
      && r.nav == s.(calls := s.calls + [Initialize(m, parcel)])
    ensures m !in s.history && m.name in s.mounted ==>
      var r := ForwardStart(s, m, parcel);
      && r.thrown == None
      && r.nav.history == s.history + [m] && Distinct(r.nav.history)
      && r.nav.mounted == s.mounted && r.nav.order == s.order && r.nav.inBack == s.inBack
      && (forall k :: k in s.mounted ==> (IsShown(r.nav.calls, s.mounted[k]) <==> s.mounted[k] == m))
      && (s.mounted[m.name] == m ==> r.nav.active == Some(m))
      && (s.mounted[m.name] != m ==> r.nav.active == s.active)
      && |r.nav.calls| > |s.calls| + 1
      && r.nav.calls[|s.calls|] == Initialize(m, parcel)
      && r.nav.calls[|r.nav.calls| - 1] == WaitForExit(m)
  {
    if m !in s.history && m.name in s.mounted {
      var initialized := s.(calls := s.calls + [Initialize(m, parcel)]);
      ActivateShowsOnlyTarget(initialized, m);
      var activated := Activate(initialized, m);
      var r := ForwardStart(s, m, parcel);
      forall k | k in s.mounted
        ensures IsShown(r.nav.calls, s.mounted[k]) <==> s.mounted[k] == m
      {
        QuietCallsKeepVisibility(activated.nav.calls, [WaitForExit(m)], s.mounted[k]);
      }
      var j :| 0 <= j < |s.order| && s.order[j] == m.name;
      assert |ActivationCalls(s.order, s.mounted, m)| > 0;
    }
  }

  /** A second `forward(m)` while the first is still waiting for `m` changes nothing. */
  lemma ForwardStartIdempotent(s: Nav, m: Module, p1: Option<Parcel>, p2: Option<Parcel>)
    requires Inv(s)
    requires ForwardStart(s, m, p1).thrown == None
    ensures WellFormed(ForwardStart(s, m, p1).nav)
    ensures ForwardStart(ForwardStart(s, m, p1).nav, m, p2) == Step(ForwardStart(s, m, p1).nav, None)
  {
    ForwardStartKeepsInvariants(s, m, p1);
    ForwardStartEffect(s, m, p1);
  }

  /**
   * `showPreviousModule` pops at most one entry. When entries remain it reveals the new
   * top and hides every other mounted module; when none remain it hides the active
   * module, which stays the active module, and throws when there is none.
   */
  lemma ShowPreviousEffect(s: Nav)
    requires Inv(s)
    ensures var r, h := ShowPrevious(s), s.history;
      && r.nav.history == (if |h| > 0 then h[..|h| - 1] else h)
      && r.nav.mounted == s.mounted && r.nav.inBack == s.inBack
    ensures var r := ShowPrevious(s); var h := r.nav.history;
      |h| > 0 ==>
        && r.thrown == None
        && (forall k :: k in s.mounted ==> (IsShown(r.nav.calls, s.mounted[k]) <==> s.mounted[k] == h[|h| - 1]))
        && (s.mounted[h[|h| - 1].name] == h[|h| - 1] ==> r.nav.active == Some(h[|h| - 1]))
    ensures var r := ShowPrevious(s);
      r.nav.history == [] ==>
        && r.nav.active == s.active
        && (s.active.None? ==> r.thrown == Some(NoActiveModule))
        && (s.active.Some? ==> r.thrown == None && !IsShown(r.nav.calls, s.active.value))
  {
    var popped := if |s.history| > 0 then s.(history := s.history[..|s.history| - 1]) else s;
    var h := popped.history;
    if |h| > 0 {
      ActivateShowsOnlyTarget(popped, h[|h| - 1]);
    } else if s.active.Some? {
      HideCallVisibility(s.calls, s.active.value, s.active.value);
    }
  }

  /**
   * When the module awaited by `forward` has exited: if the exit came from `back`, only
   * the flag is cleared; otherwise the previous module is revealed exactly as
   * `showPreviousModule` does, and the flag stays clear unless that threw.
   */
  lemma ForwardResumeEffect(s: Nav)
    requires Inv(s)
    ensures s.inBack ==> ForwardResume(s) == Step(s.(inBack := false), None)
    ensures !s.inBack ==> ForwardResume(s) == ShowPrevious(s)
    ensures ForwardResume(s).thrown == None ==> !ForwardResume(s).nav.inBack
  {
    ShowPreviousEffect(s);
  }

  /**
   * `back` raises the flag and asks the active module to exit (throwing when there is
   * none). A refusal leaves history, the active module and the raised flag as they
   * were; an acceptance reveals the previous module once.
   */
  lemma BackEffect(s: Nav)
    requires Inv(s)
    ensures var st := BackStart(s);
      && st.nav.inBack
      && st.nav.history == s.history && st.nav.active == s.active && st.nav.mounted == s.mounted
      && (s.active.None? ==> st.thrown == Some(NoActiveModule) && st.nav.calls == s.calls)
      && (s.active.Some? ==> st.thrown == None && st.nav.calls == s.calls + [Exit(s.active.value, Back)])
    ensures WellFormed(BackStart(s).nav)
    ensures BackResume(BackStart(s).nav, false) == Step(BackStart(s).nav, None)
    ensures BackResume(BackStart(s).nav, true) == ShowPrevious(BackStart(s).nav)
  {
  }

  /**
   * An accepted `back` settles two promises: the one `back` waits on and the one the
   * pending `forward` waits on. Whichever of their continuations runs first, the
   * previous module is revealed exactly once and the flag ends clear.
   */
  lemma BackAcceptedOrderIndependent(s: Nav)
    requires Inv(s) && s.inBack
    ensures WellFormed(ForwardResume(s).nav) && WellFormed(BackResume(s, true).nav)
    ensures BackResume(ForwardResume(s).nav, true).nav == ShowPrevious(s).nav.(inBack := false)
    ensures ForwardResume(BackResume(s, true).nav).nav == ShowPrevious(s).nav.(inBack := false)
  {
    ShowPreviousKeepsInvariants(s);
    ShowPreviousEffect(s);
    var s' := s.(inBack := false);
    assert ShowPrevious(s') == Step(ShowPrevious(s).nav.(inBack := false), ShowPrevious(s).thrown) by {
      var popped := if |s.history| > 0 then s.(history := s.history[..|s.history| - 1]) else s;
      var popped' := if |s'.history| > 0 then s'.(history := s'.history[..|s'.history| - 1]) else s';
      assert popped' == popped.(inBack := false);
    }
  }

  /**
   * A voluntary exit of a module reached by `forward` returns the container to where it
   * was: the same history and, when the previous top is still the mounted entry of its
   * name, that module active and the only one shown; with no previous entry, `m` is
   * hidden.
   */
  lemma ForwardThenSelfExitRestores(s: Nav, m: Module, parcel: Option<Parcel>)
    requires Inv(s) && !s.inBack
    requires m !in s.history && m.name in s.mounted && s.mounted[m.name] == m
    ensures WellFormed(ForwardStart(s, m, parcel).nav)
    ensures var r := ForwardResume(ForwardStart(s, m, parcel).nav);
      && r.thrown == None && r.nav.history == s.history && !r.nav.inBack
      && (s.history == [] ==> forall k :: k in s.mounted ==> !IsShown(r.nav.calls, s.mounted[k]))
      && (s.history != [] ==>
            var top := s.history[|s.history| - 1];
            forall k :: k in s.mounted ==> (IsShown(r.nav.calls, s.mounted[k]) <==> s.mounted[k] == top))
      && (s.history != [] && s.mounted[s.history[|s.history| - 1].name] == s.history[|s.history| - 1] ==>
            r.nav.active == Some(s.history[|s.history| - 1]))
  {
    ForwardStartKeepsInvariants(s, m, parcel);
    ForwardStartEffect(s, m, parcel);
    var f := ForwardStart(s, m, parcel).nav;
    ShowPreviousEffect(f);
    assert f.history[..|f.history| - 1] == s.history;
    if s.history == [] {
      assert ShowPrevious(f).nav.calls == f.calls + [Hide(m)];
      forall k | k in s.mounted
        ensures !IsShown(ShowPrevious(f).nav.calls, s.mounted[k])
      {
        HideCallVisibility(f.calls, m, s.mounted[k]);
      }
    }
  }

  /** The state after one more operation, which keeps the invariant. */
  ghost function After(s: Nav, op: Op): (r: Nav)
    requires Inv(s)
    ensures Inv(r)
  {
    InvPreserved(s, op);
    Apply(s, op).nav
  }

  /** `a` and `b` are two different modules, each the mounted entry of its own name. */
  ghost predicate BothMounted(s: Nav, a: Module, b: Module) {
    && a.name != b.name
    && a.name in s.mounted && s.mounted[a.name] == a
    && b.name in s.mounted && s.mounted[b.name] == b
  }

  /** Among the mounted modules, `x` is shown and no other is. */
  ghost predicate OnlyShown(s: Nav, x: Module) {
    forall k :: k in s.mounted ==> (IsShown(s.calls, s.mounted[k]) <==> s.mounted[k] == x)
  }

  /** No mounted module is shown. */
  ghost predicate NoneShown(s: Nav) {
    forall k :: k in s.mounted ==> !IsShown(s.calls, s.mounted[k])
  }

  /**
   * `forward(m)` outside a back, to a mounted module not in history: `m` is pushed,
   * becomes active and is the only mounted module shown, and it was initialized with
   * the parcel.
   */
  lemma ForwardOnto(s: Nav, m: Module, other: Module, parcel: Option<Parcel>)
    requires Inv(s) && !s.inBack && BothMounted(s, m, other) && m !in s.history
    ensures var r := After(s, ForwardStartOp(m, parcel));
      && r.history == s.history + [m] && r.active == Some(m) && !r.inBack && BothMounted(r, m, other)
      && OnlyShown(r, m)
      && Initialize(m, parcel) in r.calls
  {
    ForwardStartEffect(s, m, parcel);
    var r := After(s, ForwardStartOp(m, parcel));
    assert r.calls[|s.calls|] == Initialize(m, parcel);
  }

  /**
   * A list and a detail module mounted in a container with an empty history: forward to
   * the list, then to the detail with a parcel; the detail closes itself and the list
   * is back on screen.
   */
  lemma ListDetailScenario(s0: Nav, list: Module, detail: Module, parcel: Parcel)
    requires Inv(s0) && s0.history == [] && !s0.inBack && BothMounted(s0, list, detail)
    ensures var s := After(s0, ForwardStartOp(list, None));
      s.history == [list] && OnlyShown(s, list)
    ensures var s := After(After(s0, ForwardStartOp(list, None)), ForwardStartOp(detail, Some(parcel)));
      && s.history == [list, detail] && OnlyShown(s, detail)
      && Initialize(detail, Some(parcel)) in s.calls
      && ForwardResume(s).thrown == None
    ensures var s := After(After(After(s0, ForwardStartOp(list, None)), ForwardStartOp(detail, Some(parcel))), ForwardResumeOp);
      && s.history == [list] && s.active == Some(list) && OnlyShown(s, list)
  {
    ForwardOnto(s0, list, detail, None);
    var s1 := After(s0, ForwardStartOp(list, None));
    ForwardOnto(s1, detail, list, Some(parcel));
    SelfExitReturns(s1, list, detail, Some(parcel));
  }

  /** With only `list` in history, `detail` reached by `forward` and closing itself brings `list` back. */
  lemma SelfExitReturns(s: Nav, list: Module, detail: Module, parcel: Option<Parcel>)
    requires Inv(s) && !s.inBack && s.history == [list] && BothMounted(s, list, detail)
    ensures ForwardResume(After(s, ForwardStartOp(detail, parcel))).thrown == None
    ensures var r := After(After(s, ForwardStartOp(detail, parcel)), ForwardResumeOp);
      r.history == [list] && r.active == Some(list) && OnlyShown(r, list)
  {
    ForwardThenSelfExitRestores(s, detail, parcel);
    ForwardStartEffect(s, detail, parcel);
    var f := ForwardStart(s, detail, parcel).nav;
    assert After(s, ForwardStartOp(detail, parcel)) == f;
    var r := ForwardResume(f);
    assert After(f, ForwardResumeOp) == r.nav;
    assert r.nav.mounted == s.mounted by {
      ShowPreviousEffect(f);
    }
    assert OnlyShown(r.nav, list);
  }

  /** Mounting two differently named modules into a new container meets the scenarios' assumptions. */
  lemma TwoModulesMounted(a: Module, b: Module)
    requires a.name != b.name
    ensures var s := AddModule(AddModule(Initial(), a), b);
      Inv(s) && AtMostOneShown(s) && s.history == [] && !s.inBack && BothMounted(s, a, b)
  {
    var s1 := AddModule(Initial(), a);
    AtMostOneShownPreserved(Initial(), AddModuleOp(a));
    AtMostOneShownPreserved(s1, AddModuleOp(b));
    assert s1.calls == [Mount(a)];
    assert !IsShown(s1.calls, b) by {
      assert s1.calls[..0] == [];
    }
  }

  /**
   * A back that the module accepts while a `forward` still waits on it: its exit
   * settles both the promise `back` waits on and the one `forward` waits on, and the
   * previous module is revealed once.
   */
  lemma AcceptedBack(s: Nav)
    requires Inv(s) && s.active.Some?
    ensures var r := After(After(After(s, BackStartOp), ForwardResumeOp), BackResumeOp(true));
      var p := ShowPrevious(s.(inBack := true, calls := s.calls + [Exit(s.active.value, Back)]));
      p.thrown == None && r == p.nav.(inBack := false)
  {
    ShowPreviousEffect(s.(inBack := true, calls := s.calls + [Exit(s.active.value, Back)]));
    var b := BackStart(s).nav;
    BackAcceptedOrderIndependent(b);
  }

  /** With `b` on top of `a`, a back that `b` accepts reveals `a`. */
  lemma AcceptedBackReveals(s: Nav, a: Module, b: Module)
    requires Inv(s) && s.history == [a, b] && s.active == Some(b) && BothMounted(s, a, b)
    ensures var t := After(After(After(s, BackStartOp), ForwardResumeOp), BackResumeOp(true));
      && t.history == [a] && t.active == Some(a) && !t.inBack && BothMounted(t, a, b)
      && OnlyShown(t, a)
  {
    AcceptedBack(s);
    var sb := s.(inBack := true, calls := s.calls + [Exit(b, Back)]);
    ShowPreviousEffect(sb);
    assert [a, b][..1] == [a];
  }

  /** With only `a` in history and shown, a back that `a` accepts empties the history and hides `a`. */
  lemma AcceptedBackEmpties(t: Nav, a: Module)
    requires Inv(t) && t.history == [a] && t.active == Some(a) && OnlyShown(t, a)
    ensures var u := After(After(After(t, BackStartOp), ForwardResumeOp), BackResumeOp(true));
      && u.history == [] && u.active == Some(a) && !u.inBack && NoneShown(u)
  {
    AcceptedBack(t);
    var tb := t.(inBack := true, calls := t.calls + [Exit(a, Back)]);
    ShowPreviousEffect(tb);
    var u := ShowPrevious(tb).nav;
    assert u.calls == tb.calls + [Hide(a)];
    forall k | k in t.mounted
      ensures !IsShown(u.calls, t.mounted[k])
    {
      QuietCallsKeepVisibility(t.calls, [Exit(a, Back)], t.mounted[k]);
      HideCallVisibility(tb.calls, a, t.mounted[k]);
    }
  }

  /**
   * Forward to `a`, then to `b`; a back that `b` accepts reveals `a`; a second back that
   * `a` accepts empties the history and leaves no mounted module shown, with `a` still
   * recorded as the active module.
   */
  lemma DoubleBackScenario(s0: Nav, a: Module, b: Module)
    requires Inv(s0) && s0.history == [] && !s0.inBack && BothMounted(s0, a, b)
    ensures var s := After(After(s0, ForwardStartOp(a, None)), ForwardStartOp(b, None));
      var t := After(After(After(s, BackStartOp), ForwardResumeOp), BackResumeOp(true));
      t.history == [a] && t.active == Some(a) && !t.inBack && OnlyShown(t, a)
    ensures var s := After(After(s0, ForwardStartOp(a, None)), ForwardStartOp(b, None));
      var t := After(After(After(s, BackStartOp), ForwardResumeOp), BackResumeOp(true));
      var u := After(After(After(t, BackStartOp), ForwardResumeOp), BackResumeOp(true));
      u.history == [] && u.active == Some(a) && !u.inBack && NoneShown(u)
  {
    ForwardOnto(s0, a, b, None);
    var s1 := After(s0, ForwardStartOp(a, None));
    ForwardOnto(s1, b, a, None);
    var s := After(s1, ForwardStartOp(b, None));
    AcceptedBackReveals(s, a, b);
    var t := After(After(After(s, BackStartOp), ForwardResumeOp), BackResumeOp(true));
    AcceptedBackEmpties(t, a);
  }

  /**
   * A back that the active module refuses only raises the flag and records the exit
   * request; the next exit that `forward` sees then only clears the flag.
   */
  lemma RefusedBack(s: Nav)
    requires Inv(s) && s.active.Some?
    ensures var bs := s.(inBack := true, calls := s.calls + [Exit(s.active.value, Back)]);
      && After(After(s, BackStartOp), BackResumeOp(false)) == bs
      && After(bs, ForwardResumeOp) == bs.(inBack := false)
  {
  }

  /**
   * Forward to `a`, then to `b`; `b` refuses a back, so nothing moves and the flag stays
   * raised. When `b` later closes on its own, the raised flag makes `forward` skip the
   * reveal: the history still ends in `b`, `b` is still the only module shown, and only
   * the flag clears.
   */
  lemma RefusedBackScenario(s0: Nav, a: Module, b: Module)
    requires Inv(s0) && s0.history == [] && !s0.inBack && BothMounted(s0, a, b)
    ensures var s := After(After(s0, ForwardStartOp(a, None)), ForwardStartOp(b, None));
      var t := After(After(s, BackStartOp), BackResumeOp(false));
      t.history == [a, b] && t.active == Some(b) && t.inBack && OnlyShown(t, b)
    ensures var s := After(After(s0, ForwardStartOp(a, None)), ForwardStartOp(b, None));
      var u := After(After(After(s, BackStartOp), BackResumeOp(false)), ForwardResumeOp);
      u.history == [a, b] && u.active == Some(b) && !u.inBack && OnlyShown(u, b)
  {
    ForwardOnto(s0, a, b, None);
    var s1 := After(s0, ForwardStartOp(a, None));
    ForwardOnto(s1, b, a, None);
    var s := After(s1, ForwardStartOp(b, None));
    RefusedBack(s);
    forall k | k in s.mounted
      ensures IsShown(s.calls + [Exit(b, Back)], s.mounted[k]) == IsShown(s.calls, s.mounted[k])
    {
      QuietCallsKeepVisibility(s.calls, [Exit(b, Back)], s.mounted[k]);
    }
  }
}
