/** The declared menu tree of `internal/bot/menu_types.go`: menu identifiers,
    buttons, menu definitions, the registry that the `register*` methods fill
    once, and the admin role check that guards a button. */
module MenuTypes {
  import opened Wrappers

  /** A menu identifier. The source declares it as a string type, so any
      string, registered or not, is a menu type. */
  type MenuType = string

  /** A chat user id (an int64 in the source; its width plays no role here). */
  type UserId = int

  const MenuMain: MenuType := "main"
  const MenuTasks: MenuType := "tasks"
  const MenuProfile: MenuType := "profile"
  const MenuStats: MenuType := "stats"
  const MenuMore: MenuType := "more"
  const MenuAdmin: MenuType := "admin"
  const MenuNearTasks: MenuType := "near_tasks"

  /** The role checks a button can carry. The source stores a method value
      (`(*Bot).IsAdminCheck`); here it is a tag that `RoleHolds` interprets. */
  datatype RoleCheck = AdminCheck

  /** One declared button. An empty `handler`, `emoji` or `subMenu` means
      "not set"; `requiresRole` is `None` for the source's nil function. */
  datatype MenuButton = MenuButton(
    textKey: string,
    handler: string,
    emoji: string,
    subMenu: MenuType,
    requiresAuth: bool,
    requiresRole: Option<RoleCheck>,
    inlineData: string)

  /** One menu screen. `layout[k]` is the number of buttons in row k. */
  datatype MenuDefinition = MenuDefinition(
    menuType: MenuType,
    titleKey: string,
    buttons: seq<MenuButton>,
    layout: seq<nat>,
    hasBack: bool)

  type Registry = map<MenuType, MenuDefinition>

  /** Result of the user repository's admin lookup: the flag, or an error. */
  type AdminLookup = UserId -> Result<bool, string>

  /** `IsAdminCheck`: the repository's answer, and false when the lookup
      fails (the check fails closed). */
  function IsAdminCheck(isAdmin: AdminLookup, userId: UserId): (r: bool)
    ensures r <==> isAdmin(userId) == Success(true)
  {
    match isAdmin(userId)
    case Failure(_) => false
    case Success(admin) => admin
  }

  /** Evaluates a button's role check for a user. */
  function RoleHolds(check: RoleCheck, isAdmin: AdminLookup, userId: UserId): (r: bool)
    ensures check == AdminCheck ==> (r <==> IsAdminCheck(isAdmin, userId))
  {
    match check
    case AdminCheck => IsAdminCheck(isAdmin, userId)
  }

  function HandlerButton(textKey: string, handler: string, requiresAuth: bool): MenuButton {
    MenuButton(textKey, handler, "", "", requiresAuth, None, "")
  }

  function SubMenuButton(textKey: string, subMenu: MenuType, requiresAuth: bool, role: Option<RoleCheck>): MenuButton {
    MenuButton(textKey, "", "", subMenu, requiresAuth, role, "")
  }

  function MainMenu(): MenuDefinition {
    MenuDefinition(MenuMain, "", [
      SubMenuButton("menu.tasks", MenuTasks, true, None),
      SubMenuButton("menu.profile", MenuProfile, true, None),
      SubMenuButton("menu.more", MenuMore, true, None),
      HandlerButton("menu.logout", "logout", true)
    ], [1, 1], false)
  }

  function TasksMenu(): MenuDefinition {
    MenuDefinition(MenuTasks, "tasks.title", [
      HandlerButton("menu.active_tasks", "active_tasks", false),
      HandlerButton("menu.tasks_near", "near_tasks", false)
    ], [1, 1], true)
  }

  function ProfileMenu(): MenuDefinition {
    MenuDefinition(MenuProfile, "profile.title", [
      HandlerButton("menu.about_me", "info", false),
      SubMenuButton("menu.my_statistic", MenuStats, false, None),
      HandlerButton("menu.create_report", "report", false)
    ], [1, 1, 1], true)
  }

  function StatsMenu(): MenuDefinition {
    MenuDefinition(MenuStats, "statistic.title", [
      HandlerButton("menu.today", "statistic_today", false),
      HandlerButton("menu.this_month", "statistic_month", false),
      HandlerButton("menu.this_year", "statistic_year", false)
    ], [1, 1, 1], true)
  }

  function MoreMenu(): MenuDefinition {
    MenuDefinition(MenuMore, "more.title", [
      HandlerButton("menu.language", "language", false),
      HandlerButton("menu.report_issue", "report_issue", false),
      SubMenuButton("menu.admin_panel", MenuAdmin, false, Some(AdminCheck))
    ], [1, 1, 1], true)
  }

  function AdminMenu(): MenuDefinition {
    MenuDefinition(MenuAdmin, "admin.panel.title", [
      HandlerButton("menu.broadcast", "broadcast_initiate", false),
      HandlerButton("menu.geocoding_issues", "geocoding_issues", false),
      HandlerButton("menu.geocoding_reset", "geocoding_reset", false)
    ], [1, 1, 1], true)
  }

  function NearTasksMenu(): MenuDefinition {
    MenuDefinition(MenuNearTasks, "", [
      HandlerButton("menu.send_location", "near_tasks_location", false)
    ], [1], true)
  }

  /** The registry `NewMenuRegistry` leaves behind. */
  function DeclaredMenus(): Registry {
    map[MenuMain := MainMenu(), MenuTasks := TasksMenu(), MenuProfile := ProfileMenu(),
        MenuStats := StatsMenu(), MenuMore := MoreMenu(), MenuAdmin := AdminMenu(),
        MenuNearTasks := NearTasksMenu()]
  }

  /** `MenuRegistry`: filled once by the `register*` methods, read with `Get`.
      A registration assigns into the map, so a second one for the same key
      would replace the first. */
  class MenuRegistry {
    var menus: Registry

    /** `NewMenuRegistry`. */
    constructor ()
      ensures menus == DeclaredMenus()
    {
      menus := map[];
      new;
      RegisterMainMenu();
      RegisterTasksMenu();
      RegisterProfileMenu();
      RegisterStatsMenu();
      RegisterMoreMenu();
      RegisterAdminMenu();
      RegisterNearTasksMenu();
    }

    method RegisterMainMenu()
      modifies this
      ensures menus == old(menus)[MenuMain := MainMenu()]
    {
      menus := menus[MenuMain := MainMenu()];
    }

    method RegisterTasksMenu()
      modifies this
      ensures menus == old(menus)[MenuTasks := TasksMenu()]
    {
      menus := menus[MenuTasks := TasksMenu()];
    }

    method RegisterProfileMenu()
      modifies this
      ensures menus == old(menus)[MenuProfile := ProfileMenu()]
    {
      menus := menus[MenuProfile := ProfileMenu()];
    }

    method RegisterStatsMenu()
      modifies this
      ensures menus == old(menus)[MenuStats := StatsMenu()]
    {
      menus := menus[MenuStats := StatsMenu()];
    }

    method RegisterMoreMenu()
      modifies this
      ensures menus == old(menus)[MenuMore := MoreMenu()]
    {
      menus := menus[MenuMore := MoreMenu()];
    }

    method RegisterAdminMenu()
      modifies this
      ensures menus == old(menus)[MenuAdmin := AdminMenu()]
    {
      menus := menus[MenuAdmin := AdminMenu()];
    }

    method RegisterNearTasksMenu()
      modifies this
      ensures menus == old(menus)[MenuNearTasks := NearTasksMenu()]
    {
      menus := menus[MenuNearTasks := NearTasksMenu()];
    }

    /** `Get`: the definition stored under the key, or none (the source's nil)
        for a key that was never registered. */
    function Get(menuType: MenuType): (d: Option<MenuDefinition>)
      reads this
      ensures d.Some? <==> menuType in menus
      ensures d.Some? ==> d.value == menus[menuType]
    {
      if menuType in menus then Some(menus[menuType]) else None
    }
  }

  /** The seven menu types that `NewMenuRegistry` registers. */
  lemma {:induction false} DeclaredKeys()
    ensures DeclaredMenus().Keys ==
            {MenuMain, MenuTasks, MenuProfile, MenuStats, MenuMore, MenuAdmin, MenuNearTasks}
  {
  }

  /** Every definition is stored under its own `Type`. */
  lemma {:induction false} DeclaredTypesMatchKeys()
    ensures forall t :: t in DeclaredMenus() ==> DeclaredMenus()[t].menuType == t
  {
  }

  /** A button either runs a handler or opens a submenu, never both. */
  predicate HasOneTarget(b: MenuButton) {
    b.handler != "" <==> b.subMenu == ""
  }

  predicate AllHaveOneTarget(d: MenuDefinition) {
    forall i :: 0 <= i < |d.buttons| ==> HasOneTarget(d.buttons[i])
  }

  predicate SubMenusIn(d: MenuDefinition, reg: Registry) {
    forall i :: 0 <= i < |d.buttons| && d.buttons[i].subMenu != "" ==> d.buttons[i].subMenu in reg
  }

  /** Lists the registered menus one by one. */
  lemma {:induction false} DeclaredMenuCases(t: MenuType)
    requires t in DeclaredMenus()
    ensures t == MenuMain ==> DeclaredMenus()[t] == MainMenu()
    ensures t == MenuTasks ==> DeclaredMenus()[t] == TasksMenu()
    ensures t == MenuProfile ==> DeclaredMenus()[t] == ProfileMenu()
    ensures t == MenuStats ==> DeclaredMenus()[t] == StatsMenu()
    ensures t == MenuMore ==> DeclaredMenus()[t] == MoreMenu()
    ensures t == MenuAdmin ==> DeclaredMenus()[t] == AdminMenu()
    ensures t == MenuNearTasks ==> DeclaredMenus()[t] == NearTasksMenu()
    ensures t in {MenuMain, MenuTasks, MenuProfile, MenuStats, MenuMore, MenuAdmin, MenuNearTasks}
  {
  }

  /** Every declared button has exactly one of a handler and a submenu. */
  lemma {:induction false} DeclaredButtonsHaveOneTarget()
    ensures forall t :: t in DeclaredMenus() ==> AllHaveOneTarget(DeclaredMenus()[t])
  {
    forall t | t in DeclaredMenus()
      ensures AllHaveOneTarget(DeclaredMenus()[t])
    {
      DeclaredMenuCases(t);
    }
  }

  /** Every submenu a button opens is a registered menu. */
  lemma {:induction false} DeclaredSubMenusRegistered()
    ensures forall t :: t in DeclaredMenus() ==> SubMenusIn(DeclaredMenus()[t], DeclaredMenus())
  {
    forall t | t in DeclaredMenus()
      ensures SubMenusIn(DeclaredMenus()[t], DeclaredMenus())
    {
      DeclaredMenuCases(t);
    }
  }

  /** Only the main menu has no back row. */
  lemma {:induction false} OnlyMainWithoutBack()
    ensures forall t :: t in DeclaredMenus() ==> (!DeclaredMenus()[t].hasBack <==> t == MenuMain)
  {
    forall t | t in DeclaredMenus()
      ensures !DeclaredMenus()[t].hasBack <==> t == MenuMain
    {
      DeclaredMenuCases(t);
    }
  }

  /** The admin-panel button of the "more" menu is the only role-checked one. */
  lemma {:induction false} OnlyAdminPanelRoleChecked()
    ensures forall t, i :: t in DeclaredMenus() && 0 <= i < |DeclaredMenus()[t].buttons| ==>
              (DeclaredMenus()[t].buttons[i].requiresRole.Some? <==> t == MenuMore && i == 2)
    ensures MoreMenu().buttons[2] == SubMenuButton("menu.admin_panel", MenuAdmin, false, Some(AdminCheck))
  {
    forall t, i | t in DeclaredMenus() && 0 <= i < |DeclaredMenus()[t].buttons|
      ensures DeclaredMenus()[t].buttons[i].requiresRole.Some? <==> t == MenuMore && i == 2
    {
      DeclaredMenuCases(t);
    }
  }
}
