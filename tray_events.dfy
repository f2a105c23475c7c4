/**
 * How the shell reacts to the events the tray and window toolkit delivers
 * (`on_tray_event` and the window and run-loop closures in `main`,
 * src-tauri/src/main.rs).
 *
 * A handler's behaviour is the sequence of effects it asks for: calls into
 * the module registry (`stop_modules`, `handle_system_click`, whose bodies
 * are not part of this model) and requests to the toolkit (show or hide a
 * window, prevent a close or an exit, exit the process).
 */
module TrayEvents {
  import opened TrayMenu

  /** The tray events the toolkit delivers; positions and sizes are left out. */
  datatype TrayEvent =
    | LeftClick
    | RightClick
    | DoubleClick
    | MenuItemClick(id: string)

  /** Window events: a close request, or any other event the shell ignores. */
  datatype WindowEvent = CloseRequested | OtherWindowEvent

  /** Run-loop events: an exit request, or any other event the shell ignores. */
  datatype RunEvent = ExitRequested | OtherRunEvent

  /** Everything the toolkit delivers to the shell's handlers. */
  datatype AppEvent =
    | Tray(tray: TrayEvent)
    | Window(window: WindowEvent)
    | Run(run: RunEvent)

  /** One thing a handler or the toolkit does, in the order it is done. */
  datatype Effect =
    | ShowMainWindow
    | HideWindow
    | CloseWindow
    | PreventClose
    | PreventExit
    | StopModules
    | HandleSystemClick(id: string)
    | Exit(code: int)

  /** Effects that call into the module registry. */
  predicate IsRegistryCall(e: Effect) { e.StopModules? || e.HandleSystemClick? }

  /** True when the trace ends the process somewhere. */
  predicate Exits(trace: seq<Effect>)
  {
    exists i :: 0 <= i < |trace| && trace[i].Exit?
  }

  /**
   * The quit discipline: every exit has status 0, is the last effect of
   * the trace, and comes right after all modules were asked to stop.
   */
  predicate QuitDiscipline(trace: seq<Effect>)
  {
    forall j :: 0 <= j < |trace| && trace[j].Exit? ==>
      trace[j].code == 0 && j == |trace| - 1 && 0 < j && trace[j - 1] == StopModules
  }

  /** The number of times `e` occurs in the trace. */
  function CountOf(trace: seq<Effect>, e: Effect): nat
  {
    if trace == [] then 0
    else (if trace[0] == e then 1 else 0) + CountOf(trace[1..], e)
  }

  /** Counting distributes over concatenation. */
  lemma {:induction false} CountOfAppend(a: seq<Effect>, b: seq<Effect>, e: Effect)
    ensures CountOf(a + b, e) == CountOf(a, e) + CountOf(b, e)
  {
    if a != [] {
      assert (a + b)[0] == a[0];
      assert (a + b)[1..] == a[1..] + b;
      CountOfAppend(a[1..], b, e);
    } else {
      assert a + b == b;
    }
  }

  /** An effect occurs in a trace exactly when it is counted there. */
  lemma {:induction false} CountOfPositive(trace: seq<Effect>, e: Effect)
    ensures CountOf(trace, e) > 0 <==> e in trace
  {
    if trace != [] {
      CountOfPositive(trace[1..], e);
      assert trace == [trace[0]] + trace[1..];
    }
  }

  /**
   * The tray handler. A double click or the "open" item shows the main
   * window; the "quit" item stops all modules and then exits with status
   * 0; any other item id goes to the registry's toggle; single left and
   * right clicks are ignored.
   */
  function OnTrayEvent(event: TrayEvent): (effects: seq<Effect>)
    ensures Exits(effects) <==> event == MenuItemClick(QuitId)
    ensures QuitDiscipline(effects)
    ensures CountOf(effects, StopModules) == (if event == MenuItemClick(QuitId) then 1 else 0)
    ensures ShowMainWindow in effects <==> event == DoubleClick || event == MenuItemClick(OpenId)
    ensures ShowMainWindow in effects ==> effects == [ShowMainWindow]
    ensures forall id :: HandleSystemClick(id) in effects <==>
              event == MenuItemClick(id) && id != OpenId && id != QuitId
    ensures forall id :: HandleSystemClick(id) in effects ==> effects == [HandleSystemClick(id)]
    ensures effects == [] <==> event == LeftClick || event == RightClick
    ensures forall i, j :: 0 <= i < j < |effects| ==> !(IsRegistryCall(effects[i]) && IsRegistryCall(effects[j]))
    ensures forall e :: e in effects ==> e == ShowMainWindow || e == StopModules || e == Exit(0) || e.HandleSystemClick?
  {
    match event
    case DoubleClick => [ShowMainWindow]
    case MenuItemClick(id) =>
      if id == QuitId then
        var quit := [StopModules, Exit(0)];
        assert quit[1].Exit?;
        quit
      else if id == OpenId then [ShowMainWindow]
      else [HandleSystemClick(id)]
    case _ => []
  }

  /** A close request hides the window and keeps it from closing; other window events are ignored. */
  function OnWindowEvent(event: WindowEvent): (effects: seq<Effect>)
    ensures event == CloseRequested <==> PreventClose in effects
    ensures event == CloseRequested ==> HideWindow in effects
    ensures event == OtherWindowEvent ==> effects == []
    ensures forall e :: e in effects ==> e == HideWindow || e == PreventClose
  {
    match event
    case CloseRequested => [HideWindow, PreventClose]
    case OtherWindowEvent => []
  }

  /** An exit request from the run loop is always refused; other run-loop events are ignored. */
  function OnRunEvent(event: RunEvent): (effects: seq<Effect>)
    ensures event == ExitRequested <==> PreventExit in effects
    ensures event == OtherRunEvent ==> effects == []
    ensures forall e :: e in effects ==> e == PreventExit
  {
    match event
    case ExitRequested => [PreventExit]
    case OtherRunEvent => []
  }

  /** Routes an event to the handler for its source. */
  function OnEvent(event: AppEvent): (effects: seq<Effect>)
    ensures Exits(effects) <==> event == Tray(MenuItemClick(QuitId))
    ensures QuitDiscipline(effects)
    ensures CountOf(effects, StopModules) == (if event == Tray(MenuItemClick(QuitId)) then 1 else 0)
    ensures forall id :: HandleSystemClick(id) in effects ==> event == Tray(MenuItemClick(id))
    ensures ShowMainWindow in effects <==> event == Tray(DoubleClick) || event == Tray(MenuItemClick(OpenId))
    ensures PreventClose in effects <==> event == Window(CloseRequested)
    ensures event == Window(CloseRequested) ==> HideWindow in effects
    ensures PreventExit in effects <==> event == Run(ExitRequested)
    ensures CloseWindow !in effects
    ensures event.Tray? ==> effects == OnTrayEvent(event.tray)
    ensures event.Window? ==> effects == OnWindowEvent(event.window)
    ensures event.Run? ==> effects == OnRunEvent(event.run)
  {
    match event
    case Tray(e) => OnTrayEvent(e)
    case Window(e) => CountOfPositive(OnWindowEvent(e), StopModules); OnWindowEvent(e)
    case Run(e) => CountOfPositive(OnRunEvent(e), StopModules); OnRunEvent(e)
  }

  /**
   * What the toolkit does by default once a handler has returned with
   * `effects`. An exit request that was not prevented ends the process. A
   * close request that was not prevented closes the window; the main window
   * being the only one, the run loop then raises an exit request, which is
   * handled in turn.
   */
  function Complete(event: AppEvent, effects: seq<Effect>): seq<Effect>
    decreases if event.Window? then 1 else 0
  {
    if event == Run(ExitRequested) && PreventExit !in effects then
      effects + [Exit(0)]
    else if event == Window(CloseRequested) && PreventClose !in effects then
      effects + [CloseWindow] + Complete(Run(ExitRequested), OnEvent(Run(ExitRequested)))
    else
      effects
  }

  /** An exit request the handler does not prevent ends the process without stopping the modules. */
  lemma UnpreventedExitSkipsStop(effects: seq<Effect>)
    requires PreventExit !in effects && StopModules !in effects
    ensures Exits(Complete(Run(ExitRequested), effects))
    ensures !QuitDiscipline(Complete(Run(ExitRequested), effects))
  {
    var done := Complete(Run(ExitRequested), effects);
    assert done[|effects|] == Exit(0);
    if |effects| > 0 {
      assert done[|effects| - 1] == effects[|effects| - 1];
    }
  }

  /** One event as the toolkit delivers it: the handler's effects, then the toolkit's default. */
  function Deliver(event: AppEvent): seq<Effect>
  {
    Complete(event, OnEvent(event))
  }

  /**
   * Because the handlers prevent every close and every exit request, the
   * toolkit adds nothing: delivering an event does what its handler does.
   */
  lemma DeliverFollowsPolicy(event: AppEvent)
    ensures Deliver(event) == OnEvent(event)
  {
  }

  /**
   * The effects of delivering `events` one after another.
   * An exit ends the process, so no event after it is handled.
   */
  function Session(events: seq<AppEvent>): seq<Effect>
  {
    if events == [] then []
    else
      var effects := Deliver(events[0]);
      if Exits(effects) then effects else effects + Session(events[1..])
  }

  /** A session ends the process exactly when a Quit click is among its events. */
  lemma {:induction false} SessionExitsIffQuit(events: seq<AppEvent>)
    ensures Exits(Session(events)) <==> Tray(MenuItemClick(QuitId)) in events
  {
    if events != [] {
      DeliverFollowsPolicy(events[0]);
      var effects := Deliver(events[0]);
      if !Exits(effects) {
        SessionExitsIffQuit(events[1..]);
        var rest := Session(events[1..]);
        assert Session(events) == effects + rest;
        if Exits(rest) {
          var i :| 0 <= i < |rest| && rest[i].Exit?;
          assert (effects + rest)[|effects| + i] == rest[i];
        }
        if Exits(effects + rest) {
          var i :| 0 <= i < |effects + rest| && (effects + rest)[i].Exit?;
          assert i >= |effects|;
          assert rest[i - |effects|].Exit?;
        }
        assert events == [events[0]] + events[1..];
      }
    }
  }

  /**
   * Everything after the first Quit click is never handled: the session is
   * the session of the events before it, then the stop and the exit.
   */
  lemma {:induction false} SessionEndsAtFirstQuit(events: seq<AppEvent>, k: nat)
    requires k < |events| && events[k] == Tray(MenuItemClick(QuitId))
    requires Tray(MenuItemClick(QuitId)) !in events[..k]
    ensures Session(events) == Session(events[..k]) + [StopModules, Exit(0)]
  {
    DeliverFollowsPolicy(events[0]);
    if k == 0 {
      assert events[..0] == [];
    } else {
      assert events[0] in events[..k];
      var effects := Deliver(events[0]);
      assert !Exits(effects);
      assert events[1..][..k - 1] == events[..k][1..];
      assert forall x :: x in events[1..][..k - 1] ==> x in events[..k];
      SessionEndsAtFirstQuit(events[1..], k - 1);
    }
  }

  /** Appending more effects after a trace that does not exit keeps the quit discipline. */
  lemma QuitDisciplineAppend(a: seq<Effect>, b: seq<Effect>)
    requires !Exits(a) && QuitDiscipline(b)
    ensures QuitDiscipline(a + b)
  {
  }

  /**
   * Over a whole session the process exits at most once, with status 0, as
   * the very last effect, and right after all modules were asked to stop.
   */
  lemma {:induction false} SessionKeepsQuitDiscipline(events: seq<AppEvent>)
    ensures QuitDiscipline(Session(events))
  {
    if events != [] {
      DeliverFollowsPolicy(events[0]);
      var effects := Deliver(events[0]);
      if !Exits(effects) {
        SessionKeepsQuitDiscipline(events[1..]);
        QuitDisciplineAppend(effects, Session(events[1..]));
      }
    }
  }

  /**
   * Over a whole session `stop_modules` is called once if a Quit click was
   * delivered and never otherwise.
   */
  lemma {:induction false} SessionStopsModulesOnlyOnQuit(events: seq<AppEvent>)
    ensures CountOf(Session(events), StopModules) == (if Tray(MenuItemClick(QuitId)) in events then 1 else 0)
  {
    if events != [] {
      DeliverFollowsPolicy(events[0]);
      var effects := Deliver(events[0]);
      assert events == [events[0]] + events[1..];
      if !Exits(effects) {
        SessionStopsModulesOnlyOnQuit(events[1..]);
        CountOfAppend(effects, Session(events[1..]), StopModules);
      }
    }
  }

  /** No session ever closes the window: every close request only hides it. */
  lemma {:induction false} SessionNeverClosesWindow(events: seq<AppEvent>)
    ensures CloseWindow !in Session(events)
  {
    if events != [] {
      DeliverFollowsPolicy(events[0]);
      if !Exits(Deliver(events[0])) {
        SessionNeverClosesWindow(events[1..]);
      }
    }
  }

  /** Every module toggle in a session comes from a click on that module's item. */
  lemma {:induction false} SessionTogglesOnlyClickedModules(events: seq<AppEvent>, id: string)
    requires HandleSystemClick(id) in Session(events)
    ensures Tray(MenuItemClick(id)) in events
  {
    if events != [] {
      DeliverFollowsPolicy(events[0]);
      var effects := Deliver(events[0]);
      if HandleSystemClick(id) !in effects {
        assert !Exits(effects) && HandleSystemClick(id) in Session(events[1..]);
        SessionTogglesOnlyClickedModules(events[1..], id);
      }
    }
  }

  /** Clicking the item the menu shows for a module toggles that module, unless its name is a fixed id. */
  lemma ModuleItemClickToggles(m: ModuleStatus)
    requires m.0 != OpenId && m.0 != QuitId
    ensures OnTrayEvent(MenuItemClick(ModuleItem(m).item.id)) == [HandleSystemClick(m.0)]
  {
  }

  /** A module named like a fixed item cannot be toggled from the tray: its click opens the window or quits. */
  lemma ReservedModuleNamesShadowed(running: bool)
    ensures OnTrayEvent(MenuItemClick(ModuleItem((OpenId, running)).item.id)) == [ShowMainWindow]
    ensures OnTrayEvent(MenuItemClick(ModuleItem((QuitId, running)).item.id)) == [StopModules, Exit(0)]
  {
  }
}
