/**
 * The tray menu built from a snapshot of the module registry
 * (`create_tray_menu` and `create_tray` in src-tauri/src/main.rs).
 *
 * The snapshot is the registry's `(name, running)` pairs in the order the
 * registry iterates them; that order is an input here.
 */
module TrayMenu {
  import opened Wrappers

  /** A custom menu item: its id is reported back on a click, its title is shown. */
  datatype MenuItem = MenuItem(id: string, title: string)

  /** The toolkit's native menu items; the shell only ever uses the separator. */
  datatype NativeItem = Separator

  /** One entry of a tray menu or submenu. */
  datatype Entry =
    | CustomItem(item: MenuItem)
    | Native(native: NativeItem)
    | Submenu(title: string, inner: Menu)

  /** A tray menu: its entries, top to bottom. */
  datatype Menu = Menu(items: seq<Entry>)

  /** A tray icon carrying its menu. */
  datatype SystemTray = SystemTray(menu: Menu)

  /** One registry entry as the shell sees it: module name and running flag. */
  type ModuleStatus = (string, bool)

  const OpenId: string := "open"
  const QuitId: string := "quit"
  const ModulesTitle: string := "Modules"

  /** The fixed entries around the Modules submenu. */
  const OpenItem: Entry := CustomItem(MenuItem(OpenId, "Open"))
  const QuitItem: Entry := CustomItem(MenuItem(QuitId, "Quit"))
  const SeparatorItem: Entry := Native(Separator)

  /** The empty menu (`SystemTrayMenu::new()`). */
  function EmptyMenu(): Menu { Menu([]) }

  /** Appends an entry at the bottom of a menu (`add_item`, `add_native_item`, `add_submenu`). */
  function Add(menu: Menu, entry: Entry): Menu { Menu(menu.items + [entry]) }

  /** The word shown for a running flag. */
  function Status(running: bool): string { if running then "Running" else "Stopped" }

  /** What follows the name in a module's label: `" (<Status>)"`. */
  function Suffix(running: bool): string { " (" + Status(running) + ")" }

  /** " (Running)" and " (Stopped)" have the same length. */
  const SuffixLength: nat := |Suffix(true)|

  /** The label of a module's item: `"<name> (<Status>)"`. */
  function ModuleLabel(name: string, running: bool): string
  {
    name + Suffix(running)
  }

  /** The item shown for one registry entry: its id is the module name. */
  function ModuleItem(m: ModuleStatus): Entry
  {
    CustomItem(MenuItem(m.0, ModuleLabel(m.0, m.1)))
  }

  /**
   * Reads a module label back into the name and running flag it was made
   * from; None for a string that is not a module label.
   */
  function ParseLabel(text: string): (r: Option<ModuleStatus>)
    ensures r.Some? ==> |r.value.0| + SuffixLength == |text|
  {
    if |text| < SuffixLength then None
    else
      var cut := |text| - SuffixLength;
      if text[cut..] == Suffix(true) then Some((text[..cut], true))
      else if text[cut..] == Suffix(false) then Some((text[..cut], false))
      else None
  }

  /** Reading a module label back gives the name and flag it was made from. */
  lemma LabelRoundTrip(name: string, running: bool)
    ensures ParseLabel(ModuleLabel(name, running)) == Some((name, running))
  {
    var text := ModuleLabel(name, running);
    assert Suffix(true) == " (Running)" && Suffix(false) == " (Stopped)";
    assert |Suffix(running)| == SuffixLength;
    assert text[..|name|] == name;
    assert text[|name|..] == Suffix(running);
  }

  /** Two module items carry the same label only for the same name and flag. */
  lemma LabelInjective(a: string, ra: bool, b: string, rb: bool)
    requires ModuleLabel(a, ra) == ModuleLabel(b, rb)
    ensures a == b && ra == rb
  {
    LabelRoundTrip(a, ra);
    LabelRoundTrip(b, rb);
  }

  /** The label starts with the module name and ends with its status in parentheses. */
  lemma LabelShape(name: string, running: bool)
    ensures |ModuleLabel(name, running)| == |name| + 10
    ensures ModuleLabel(name, running)[..|name|] == name
    ensures running ==> ModuleLabel(name, running)[|name|..] == " (Running)"
    ensures !running ==> ModuleLabel(name, running)[|name|..] == " (Stopped)"
  {
  }

  /** True when the menu has the fixed five-entry shape around a Modules submenu. */
  predicate FixedShape(menu: Menu)
  {
    && |menu.items| == 5
    && menu.items[0] == OpenItem
    && menu.items[1] == SeparatorItem
    && menu.items[2].Submenu?
    && menu.items[2].title == ModulesTitle
    && menu.items[3] == SeparatorItem
    && menu.items[4] == QuitItem
  }

  /**
   * Builds the tray menu from a registry snapshot: Open, separator, a
   * Modules submenu with one item per module in snapshot order, separator,
   * Quit.
   */
  method CreateTrayMenu(modulesRunning: seq<ModuleStatus>) returns (menu: Menu)
    ensures FixedShape(menu)
    ensures |menu.items[2].inner.items| == |modulesRunning|
    ensures forall i :: 0 <= i < |modulesRunning| ==>
              menu.items[2].inner.items[i] == ModuleItem(modulesRunning[i])
  {
    var open := OpenItem;
    var quit := QuitItem;

    var moduleMenu := EmptyMenu();
    var i := 0;
    while i < |modulesRunning|
      invariant 0 <= i <= |modulesRunning|
      invariant |moduleMenu.items| == i
      invariant forall k :: 0 <= k < i ==> moduleMenu.items[k] == ModuleItem(modulesRunning[k])
    {
      var (name, running) := modulesRunning[i];
      var text := ModuleLabel(name, running);
      moduleMenu := Add(moduleMenu, CustomItem(MenuItem(name, text)));
      i := i + 1;
    }

    var moduleSubmenu := Submenu(ModulesTitle, moduleMenu);

    menu := Add(Add(Add(Add(Add(EmptyMenu(), open), SeparatorItem), moduleSubmenu), SeparatorItem), quit);
  }

  /** The tray icon with the menu built from the snapshot. */
  method CreateTray(modulesRunning: seq<ModuleStatus>) returns (tray: SystemTray)
    ensures FixedShape(tray.menu)
    ensures |tray.menu.items[2].inner.items| == |modulesRunning|
    ensures forall i :: 0 <= i < |modulesRunning| ==> tray.menu.items[2].inner.items[i] == ModuleItem(modulesRunning[i])
  {
    var trayMenu := CreateTrayMenu(modulesRunning);
    tray := SystemTray(trayMenu);
  }
}
