# aw-tauri desktop shell: tray, event policy and handle publication

This project models the supervisory logic of the aw-tauri desktop shell
(src-tauri/src/main.rs). The shell hosts the ActivityWatch server, puts an
icon in the system tray and supervises a set of collector processes
("modules"). The model covers three parts of that file:

- **Tray menu** (`TrayMenu`, tray_menu.dfy). `create_tray_menu` turns a
  snapshot of the module registry into a menu. The snapshot is a sequence of
  `(name, running)` pairs in the registry's iteration order. The menu holds
  five entries: Open, a separator, a Modules submenu, a separator, Quit. The
  submenu holds one item per module. Each item's id is the module name. Its
  label is `"<name> (Running)"` or `"<name> (Stopped)"`. `CreateTrayMenu`
  keeps the source's loop, which extends the submenu one item at a time.
  `ParseLabel` reads a label back, so the lemmas can show that labels are
  injective.
- **Event policy** (`TrayEvents`, tray_events.dfy). Each handler is a
  function from one event to the sequence of effects it asks for. An effect
  is a registry call (`StopModules`, `HandleSystemClick(id)`) or a toolkit
  request (show or hide a window, prevent a close, prevent an exit, exit
  with a status). `Complete` adds what the toolkit does by default after a
  handler returns. An exit request that was not prevented ends the process.
  A close request that was not prevented closes the window, and the run
  loop then raises an exit request. `Deliver` is one event as delivered:
  handler, then default. `Session` gives the effects of delivering a
  sequence of events in order; handling stops at the first exit, since
  `app.exit` terminates the process. Because the handlers prevent every
  close and exit request, the default adds nothing (`DeliverFollowsPolicy`).
  From that, the lemmas about `Session` show that only the Quit item ends
  the process, with status 0, and only after all modules were asked to
  stop, and that the window is never closed.
- **Handle publisher** (`AppHandle`, app_handle.dfy). `HandlePublisher` is
  a class holding the write-once slot (`HANDLE`, a `OnceLock`) and the
  `started` flag of `HANDLE_CONDVAR`. `InitAppHandle` fills the slot only
  if it is empty, and always sets the flag. `GetAppHandle` requires that a
  handle was published; the source panics on `unwrap` otherwise.
  `GetWhenReady` is a reader that waited for the flag: the class invariant
  `Valid` ties the flag to the slot, so that read is always safe.

The lemmas also show a consequence of using module names as menu ids: a
module named `open` or `quit` cannot be toggled from the tray. Clicking its
item opens the window or quits (`ReservedModuleNamesShadowed`).

## Model

| member | source | states |
|---|---|---|
| TrayMenu.CreateTrayMenu | src-tauri/src/main.rs:101-128 | Whatever the registry holds, the menu is Open (id "open"), separator, "Modules" submenu, separator, Quit (id "quit"). The submenu has exactly one item per registry entry, in the registry's order. Each item's id is the module's name and its label is the module's label. An empty registry gives an empty submenu and still the fixed entries. |
| TrayMenu.CreateTray | src-tauri/src/main.rs:130-133 | The tray carries a menu with that same shape and those same module items. |
| TrayMenu.LabelRoundTrip | src-tauri/src/main.rs:112-116 | A module label read back gives exactly the name and running flag it was made from. |
| TrayMenu.LabelInjective | src-tauri/src/main.rs:112-116 | Two module labels are equal only when both the names and the running flags are equal. |
| TrayMenu.LabelShape | src-tauri/src/main.rs:112-116 | A label is the module name followed by " (Running)" when the flag is true and by " (Stopped)" when it is false. |
| TrayEvents.OnTrayEvent | src-tauri/src/main.rs:135-170 | A tray event exits exactly when it is a click on "quit". Quit calls stop_modules exactly once and then exits with status 0 as its last effect. The window is shown exactly for a double click or a click on "open", and then nothing else happens. handle_system_click(id) happens exactly for a click on an id other than "open" and "quit", with that same id and nothing else. Left and right clicks have no effect. No event makes more than one registry call. |
| TrayEvents.OnWindowEvent | src-tauri/src/main.rs:83-89 | A close request hides the window and prevents the close. No other window event prevents a close, and any other window event has no effect. A window event does nothing except hide the window and prevent the close. |
| TrayEvents.OnRunEvent | src-tauri/src/main.rs:93-98 | An exit request from the run loop is always prevented. Any other run-loop event has no effect. A run-loop event does nothing except prevent the exit. |
| TrayEvents.OnEvent | src-tauri/src/main.rs:82-98 | Routing keeps each handler's guarantees: a tray, window or run-loop event has exactly its handler's effects, so every clause of `OnTrayEvent`, `OnWindowEvent` and `OnRunEvent` carries over. In particular, only a Quit click exits, with stop_modules once and then exit 0. Every toggle names the clicked id. The window is shown exactly for a double click or an "open" click. A close is prevented exactly for a close request, which also hides the window. An exit is prevented exactly for an exit request. No handler closes the window. |
| TrayEvents.UnpreventedExitSkipsStop | src-tauri/src/main.rs:93-96 | If a handler did not prevent an exit request and did not stop the modules, the toolkit ends the process without stop_modules before the exit. This is what the exit policy guards against. |
| TrayEvents.DeliverFollowsPolicy | src-tauri/src/main.rs:83-98 | Every event, once delivered, has exactly its handler's effects. The toolkit's default close and exit never apply, because the close and exit handlers prevent them. |
| TrayEvents.SessionExitsIffQuit | src-tauri/src/main.rs:82-98 | Over any sequence of events, the process exits exactly when a Quit click is among them. Close and exit requests never end it, because the handlers prevent the toolkit's default. |
| TrayEvents.SessionNeverClosesWindow | src-tauri/src/main.rs:83-89 | Over any sequence of events the window is never closed: close requests only hide it. |
| TrayEvents.SessionEndsAtFirstQuit | src-tauri/src/main.rs:151-156 | The session's effects are the effects of the events before the first Quit click, then stop_modules, then exit 0. No later event is handled. |
| TrayEvents.SessionKeepsQuitDiscipline | src-tauri/src/main.rs:151-156 | In any session every exit has status 0, is the last effect, and comes directly after stop_modules. |
| TrayEvents.SessionStopsModulesOnlyOnQuit | src-tauri/src/main.rs:150-156 | In any session stop_modules is called once if a Quit click was delivered, and never otherwise. |
| TrayEvents.SessionTogglesOnlyClickedModules | src-tauri/src/main.rs:162-166 | Every handle_system_click(id) in a session comes from a delivered click on the menu item with that id. |
| TrayEvents.ModuleItemClickToggles | src-tauri/src/main.rs:117 | Clicking the item built for a module passes that module's name to handle_system_click, provided the name is neither "open" nor "quit". |
| TrayEvents.ReservedModuleNamesShadowed | src-tauri/src/main.rs:150-161 | The item of a module named "open" shows the window when clicked. The item of a module named "quit" stops all modules and exits. |
| AppHandle.HandlePublisher.InitAppHandle | src-tauri/src/main.rs:20-26 | If the slot is empty it now holds the given handle; otherwise it keeps the handle it had. The started flag is true afterwards. |
| AppHandle.HandlePublisher.GetAppHandle | src-tauri/src/main.rs:28-30 | Requires a published handle and returns exactly the handle in the slot. |
| AppHandle.HandlePublisher.GetWhenReady | src-tauri/src/main.rs:17-30 | A reader that finds the ready flag set always finds a published handle, so its read cannot hit the `unwrap` panic, and it returns exactly that handle. |
| AppHandle.HandlePublisher.constructor | src-tauri/src/main.rs:15-18 | Before startup the slot is empty and the flag is false. |
| AppHandle.PublishTwice | src-tauri/src/main.rs:20-30 | After publishing h1 and then h2, the handle read back is h1 and the flag is true. |

## Left out

- The server bootstrap in `main` (configuration, database path, device id, datastore, asset resolver, launching the HTTP server on the async runtime): these are calls into other crates and I/O.
- The `AW_WEBUI_DIR` environment variable check, the filesystem `exists()` test and its panic: they depend on the environment and the filesystem.
- The mutexes around the registry and the handle, the condition variable's `notify_all`, and any blocking wait on it: this is concurrency. Only the sequential write-once slot and ready flag are modelled.
- The bodies of `stop_modules` and `handle_system_click`, and the registry's concrete type and iteration order: the `manager` module is not part of this model. The two calls appear only as effects, and the iteration order is an input sequence.
- The toolkit itself (`SystemTray` builders, `get_window("main")`, `show`, `hide`, `app.exit`, `tauri::Builder`): these appear only as menu values and effects. The `unwrap` calls on `get_window("main")`, `show` and `hide` are assumed to succeed; in the source `get_window("main").unwrap()` panics when no window is labelled "main".
- Tray event positions and sizes, and the window and run-loop events that the shell ignores: each ignored kind is one `Other…` constructor.
- `println!` logging and the `greet` command.
- main.rs builds the menu once (main.rs:51). What the manager module does with the published handle, such as refreshing the tray, is not modelled.
- The toolkit default in `Complete` assumes that the main window is the application's only window, so closing it makes the run loop raise an exit request. The window configuration is not part of this model.
