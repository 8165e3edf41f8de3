/**
 The navigation menu: three nested loops that copy what the user may see out of the registry, drop what
 is left empty, and find the one link to mark as active.
*/
module NavMenu {
  import opened Collections

  /** Registry entries; every list is a dictionary in its order, keyed by name or link. */
  datatype Item = Item(link: string, permissions: seq<string>, name: string, weight: nat)
  datatype Group = Group(name: string, permissions: seq<string>, items: seq<Item>)
  datatype Tab = Tab(name: string, permissions: seq<string>, icon: string, groups: seq<Group>)

  datatype MenuItem = MenuItem(isActive: bool, name: string, weight: nat)
  type MenuGroup = map<string, MenuItem>
  datatype MenuTab = MenuTab(icon: string, groups: map<string, MenuGroup>)
  type Menu = map<string, MenuTab>

  /** A place in the menu: tab, group, link. */
  datatype Place = Place(tab: string, group: string, link: string)

  /** The user: which permissions `has_perm` grants. */
  type User = string -> bool

  /** No permissions are listed, or the user has at least one of them. */
  predicate Permitted(user: User, permissions: seq<string>) {
    permissions == [] || exists p :: p in permissions && user(p)
  }

  /** One permission is enough, none is needed where none is listed, and somebody without any of those listed is kept
      out. */
  lemma PermittedExactly(user: User, permissions: seq<string>)
    ensures Permitted(user, permissions) <==> |permissions| == 0 || MayOne(user, permissions)
  {
  }

  ghost predicate MayOne(user: User, permissions: seq<string>) {
    exists i :: 0 <= i < |permissions| && user(permissions[i])
  }

  /** Dictionary keys are unique. */
  predicate Keyed(tabs: seq<Tab>) {
    && (forall i, j :: 0 <= i < j < |tabs| ==> tabs[i].name != tabs[j].name)
    && forall i :: 0 <= i < |tabs| ==> KeyedGroups(tabs[i].groups)
  }

  predicate KeyedGroups(groups: seq<Group>) {
    && (forall i, j :: 0 <= i < j < |groups| ==> groups[i].name != groups[j].name)
    && forall i :: 0 <= i < |groups| ==> KeyedItems(groups[i].items)
  }

  predicate KeyedItems(items: seq<Item>) {
    forall i, j :: 0 <= i < j < |items| ==> items[i].link != items[j].link
  }

  // ----- the active link

  /** An exact match always wins; a match of the related list view only if nothing was found before. */
  function Prefer(active: Option<Place>, place: Place, url: string, related: Option<string>): (r: Option<Place>) {
    if place.link == url then Some(place)
    else if active.None? && related == Some(place.link) then Some(place)
    else active
  }

  function PreferAll(
    active: Option<Place>, places: seq<Place>, url: string, related: Option<string>): (r: Option<Place>) {
    if places == [] then active
    else Prefer(PreferAll(active, places[..|places| - 1], url, related), places[|places| - 1], url, related)
  }

  lemma {:induction false} PreferConcat(
    active: Option<Place>, a: seq<Place>, b: seq<Place>, url: string, related: Option<string>)
    ensures PreferAll(active, a + b, url, related) == PreferAll(PreferAll(active, a, url, related), b, url, related)
  {
    if b == [] {
      assert a + b == a;
    } else {
      var front, last := b[..|b| - 1], b[|b| - 1];
      PreferConcat(active, a, front, url, related);
      assert (a + b)[..|a + b| - 1] == a + front && (a + b)[|a + b| - 1] == last;
    }
  }

  // ----- what may be seen, in the order of the registry

  function ItemPlaces(user: User, tab: string, group: string, items: seq<Item>): (places: seq<Place>) {
    if items == [] then []
    else
      var last := items[|items| - 1];
      ItemPlaces(user, tab, group, items[..|items| - 1]) + if Permitted(user, last.permissions)
        then [Place(tab, group, last.link)] else []
  }

  function GroupPlaces(user: User, tab: string, groups: seq<Group>): (places: seq<Place>) {
    if groups == [] then []
    else
      var last := groups[|groups| - 1];
      GroupPlaces(user, tab, groups[..|groups| - 1]) +
      if Permitted(user, last.permissions) then ItemPlaces(user, tab, last.name, last.items) else []
  }

  function TabPlaces(user: User, tabs: seq<Tab>): (places: seq<Place>) {
    if tabs == [] then []
    else
      var last := tabs[|tabs| - 1];
      TabPlaces(user, tabs[..|tabs| - 1]) +
      if Permitted(user, last.permissions) then GroupPlaces(user, last.name, last.groups) else []
  }

  // ----- the loops

  method MenuItems(user: User, tab: string, group: string, items: seq<Item>, url: string, related: Option<string>,
    active: Option<Place>)
    returns (menu: MenuGroup, found: Option<Place>)
    requires KeyedItems(items)
    ensures menu == ItemMenu(user, items)
    ensures found == PreferAll(active, ItemPlaces(user, tab, group, items), url, related)
  {
    menu, found := map[], active;
    for k := 0 to |items|
      invariant menu == ItemMenu(user, items[..k])
      invariant found == PreferAll(active, ItemPlaces(user, tab, group, items[..k]), url, related)
    {
      assert items[..k + 1][..k] == items[..k];
      var item := items[k];
      if Permitted(user, item.permissions) {
        if item.link == url {
          found := Some(Place(tab, group, item.link));
        } else if found.None? && related == Some(item.link) {
          found := Some(Place(tab, group, item.link));
        }
        menu := menu[item.link := MenuItem(false, item.name, item.weight)];
        ghost var places := ItemPlaces(user, tab, group, items[..k]) + [Place(tab, group, item.link)];
        assert places[..|places| - 1] == ItemPlaces(user, tab, group, items[..k]);
      } else {
        assert ItemPlaces(user, tab, group, items[..k + 1]) == ItemPlaces(user, tab, group, items[..k]);
      }
    }
    assert items[..|items|] == items;
  }

  method MenuGroups(
    user: User, tab: string, groups: seq<Group>, url: string, related: Option<string>, active: Option<Place>)
    returns (menu: map<string, MenuGroup>, found: Option<Place>)
    requires KeyedGroups(groups)
    ensures menu == GroupMenu(user, groups)
    ensures found == PreferAll(active, GroupPlaces(user, tab, groups), url, related)
  {
    menu, found := map[], active;
    for k := 0 to |groups|
      invariant menu == GroupMenu(user, groups[..k])
      invariant found == PreferAll(active, GroupPlaces(user, tab, groups[..k]), url, related)
    {
      assert groups[..k + 1][..k] == groups[..k];
      var group := groups[k];
      GroupMenuKeys(user, groups[..k], group.name);
      if Permitted(user, group.permissions) {
        var items;
        PreferConcat(active, GroupPlaces(user, tab, groups[..k]), ItemPlaces(user, tab, group.name, group.items),
          url, related);
        items, found := MenuItems(user, tab, group.name, group.items, url, related, found);
        menu := menu[group.name := items];
        if |menu[group.name]| == 0 {
          menu := menu - {group.name};
        }
      } else {
        assert GroupPlaces(user, tab, groups[..k + 1]) == GroupPlaces(user, tab, groups[..k]);
      }
    }
    assert groups[..|groups|] == groups;
  }

  method MenuTabs(user: User, tabs: seq<Tab>, url: string, related: Option<string>)
    returns (menu: Menu, found: Option<Place>)
    requires Keyed(tabs)
    ensures menu == TabMenu(user, tabs)
    ensures found == PreferAll(None, TabPlaces(user, tabs), url, related)
  {
    menu, found := map[], None;
    for k := 0 to |tabs|
      invariant menu == TabMenu(user, tabs[..k])
      invariant found == PreferAll(None, TabPlaces(user, tabs[..k]), url, related)
    {
      assert tabs[..k + 1][..k] == tabs[..k];
      var tab := tabs[k];
      TabMenuKeys(user, tabs[..k], tab.name);
      if Permitted(user, tab.permissions) {
        var groups;
        PreferConcat(None, TabPlaces(user, tabs[..k]), GroupPlaces(user, tab.name, tab.groups), url, related);
        groups, found := MenuGroups(user, tab.name, tab.groups, url, related, found);
        menu := menu[tab.name := MenuTab(tab.icon, groups)];
        if |menu[tab.name].groups| == 0 {
          menu := menu - {tab.name};
        }
      } else {
        assert TabPlaces(user, tabs[..k + 1]) == TabPlaces(user, tabs[..k]);
      }
    }
    assert tabs[..|tabs|] == tabs;
  }

  /** The whole menu, with the link found marked as active. */
  method NavMenu(user: User, tabs: seq<Tab>, url: string, related: Option<string>) returns (menu: Menu)
    requires Keyed(tabs)
    ensures Active(user, tabs, url, related).Some? ==>
      InMenu(TabMenu(user, tabs), Active(user, tabs, url, related).value)
    ensures menu == WithActive(TabMenu(user, tabs), Active(user, tabs, url, related))
  {
    var active;
    menu, active := MenuTabs(user, tabs, url, related);
    ActiveIsInMenu(user, tabs, url, related);
    if active.Some? {
      var place := active.value;
      var tab := menu[place.tab];
      var group := tab.groups[place.group];
      group := group[place.link := group[place.link].(isActive := true)];
      menu := menu[place.tab := tab.(groups := tab.groups[place.group := group])];
    }
  }

  // ----- what the loops compute

  function ItemMenu(user: User, items: seq<Item>): (menu: MenuGroup) {
    if items == [] then map[]
    else
      var before, last := ItemMenu(user, items[..|items| - 1]), items[|items| - 1];
      if Permitted(user, last.permissions) then before[last.link := MenuItem(false, last.name, last.weight)] else before
  }

  function GroupMenu(user: User, groups: seq<Group>): (menu: map<string, MenuGroup>) {
    if groups == [] then map[]
    else
      var before, last := GroupMenu(user, groups[..|groups| - 1]), groups[|groups| - 1];
      if Permitted(user, last.permissions) && ItemMenu(user, last.items) != map[]
      then before[last.name := ItemMenu(user, last.items)] else before
  }

  function TabMenu(user: User, tabs: seq<Tab>): (menu: Menu) {
    if tabs == [] then map[]
    else
      var before, last := TabMenu(user, tabs[..|tabs| - 1]), tabs[|tabs| - 1];
      if Permitted(user, last.permissions) && GroupMenu(user, last.groups) != map[]
      then before[last.name := MenuTab(last.icon, GroupMenu(user, last.groups))] else before
  }

  lemma {:induction false} GroupMenuKeys(user: User, groups: seq<Group>, name: string)
    requires forall i :: 0 <= i < |groups| ==> groups[i].name != name
    ensures name !in GroupMenu(user, groups)
  {
    if groups != [] {
      GroupMenuKeys(user, groups[..|groups| - 1], name);
    }
  }

  lemma {:induction false} TabMenuKeys(user: User, tabs: seq<Tab>, name: string)
    requires forall i :: 0 <= i < |tabs| ==> tabs[i].name != name
    ensures name !in TabMenu(user, tabs)
  {
    if tabs != [] {
      TabMenuKeys(user, tabs[..|tabs| - 1], name);
    }
  }

  function Active(user: User, tabs: seq<Tab>, url: string, related: Option<string>): (active: Option<Place>) {
    PreferAll(None, TabPlaces(user, tabs), url, related)
  }

  predicate InMenu(menu: Menu, p: Place) {
    p.tab in menu && p.group in menu[p.tab].groups && p.link in menu[p.tab].groups[p.group]
  }

  function ItemAt(menu: Menu, p: Place): (item: MenuItem)
    requires InMenu(menu, p)
  {
    menu[p.tab].groups[p.group][p.link]
  }

  /** The final write. */
  function WithActive(menu: Menu, active: Option<Place>): (r: Menu)
    requires active.Some? ==> InMenu(menu, active.value)
  {
    if active.None? then menu
    else
      var p := active.value;
      var group := menu[p.tab].groups[p.group][p.link := ItemAt(menu, p).(isActive := true)];
      menu[p.tab := menu[p.tab].(groups := menu[p.tab].groups[p.group := group])]
  }

  // ----- the menu holds exactly what may be seen

  lemma {:induction false} ItemMenuHolds(user: User, items: seq<Item>, tab: string, group: string, link: string)
    ensures link in ItemMenu(user, items) <==> Place(tab, group, link) in ItemPlaces(user, tab, group, items)
    ensures forall l :: l in ItemMenu(user, items) ==> !ItemMenu(user, items)[l].isActive
  {
    if items != [] {
      ItemMenuHolds(user, items[..|items| - 1], tab, group, link);
    }
  }

  /** A permitted item is shown with the name and weight that the registry gives it. */
  lemma {:induction false} ItemMenuCarries(user: User, items: seq<Item>, i: nat)
    requires KeyedItems(items) && i < |items| && Permitted(user, items[i].permissions)
    ensures items[i].link in ItemMenu(user, items)
    ensures ItemMenu(user, items)[items[i].link] == MenuItem(false, items[i].name, items[i].weight)
  {
    if i < |items| - 1 {
      ItemMenuCarries(user, items[..|items| - 1], i);
    }
  }

  lemma {:induction false} GroupMenuHolds(user: User, groups: seq<Group>, p: Place)
    requires KeyedGroups(groups)
    ensures p.group in GroupMenu(user, groups) && p.link in GroupMenu(user, groups)[p.group] <==>
      p in GroupPlaces(user, p.tab, groups)
    ensures forall g :: g in GroupMenu(user, groups) ==> GroupMenu(user, groups)[g] != map[]
  {
    if groups != [] {
      var front, last := groups[..|groups| - 1], groups[|groups| - 1];
      GroupMenuHolds(user, front, p);
      ItemMenuHolds(user, last.items, p.tab, last.name, p.link);
      PlacesInItems(user, p.tab, last.name, last.items, p);
      GroupMenuKeys(user, front, last.name);
    }
  }

  lemma {:induction false} TabMenuHolds(user: User, tabs: seq<Tab>, p: Place)
    requires Keyed(tabs)
    ensures InMenu(TabMenu(user, tabs), p) <==> p in TabPlaces(user, tabs)
  {
    if tabs != [] {
      var front, last := tabs[..|tabs| - 1], tabs[|tabs| - 1];
      TabMenuHolds(user, front, p);
      GroupMenuHolds(user, last.groups, p);
      TabMenuKeys(user, front, last.name);
      if p in GroupPlaces(user, last.name, last.groups) {
        PlacesInGroups(user, last.name, last.groups, p);
      }
    }
  }

  lemma {:induction false} TabsNotEmpty(user: User, tabs: seq<Tab>, t: string)
    requires Keyed(tabs) && t in TabMenu(user, tabs)
    ensures TabMenu(user, tabs)[t].groups != map[]
    ensures forall g :: g in TabMenu(user, tabs)[t].groups ==> TabMenu(user, tabs)[t].groups[g] != map[]
  {
    var front, last := tabs[..|tabs| - 1], tabs[|tabs| - 1];
    GroupMenuHolds(user, last.groups, Place("", "", ""));
    if t in TabMenu(user, front) {
      TabsNotEmpty(user, front, t);
    }
  }

  /** Marking an item neither adds a tab or a group nor empties one. */
  lemma MarkingKeepsTabs(menu: Menu, active: Option<Place>, t: string)
    requires active.Some? ==> InMenu(menu, active.value)
    ensures t in WithActive(menu, active) <==> t in menu
    ensures t in menu ==> WithActive(menu, active)[t].groups.Keys == menu[t].groups.Keys
    ensures t in menu ==> forall g :: g in menu[t].groups ==>
      WithActive(menu, active)[t].groups[g].Keys == menu[t].groups[g].Keys
  {
  }

  /** A tab or group without anything to show in it is not shown. */
  lemma NothingIsEmpty(user: User, tabs: seq<Tab>, url: string, related: Option<string>, t: string)
    requires Keyed(tabs)
    ensures Active(user, tabs, url, related).Some? ==>
      InMenu(TabMenu(user, tabs), Active(user, tabs, url, related).value)
    ensures var menu := WithActive(TabMenu(user, tabs), Active(user, tabs, url, related));
      t in menu ==> menu[t].groups != map[] && forall g :: g in menu[t].groups ==> menu[t].groups[g] != map[]
  {
    ActiveIsInMenu(user, tabs, url, related);
    var before, active := TabMenu(user, tabs), Active(user, tabs, url, related);
    MarkingKeepsTabs(before, active, t);
    if t in before {
      TabsNotEmpty(user, tabs, t);
      SameKeysNotEmpty(before[t].groups, WithActive(before, active)[t].groups);
    }
  }

  lemma SameKeysNotEmpty(before: map<string, MenuGroup>, after: map<string, MenuGroup>)
    requires before != map[] && (forall g :: g in before ==> before[g] != map[])
    requires after.Keys == before.Keys && forall g :: g in before ==> after[g].Keys == before[g].Keys
    ensures after != map[] && forall g :: g in after ==> after[g] != map[]
  {
    assert before.Keys != {};
    forall g | g in after ensures after[g] != map[] {
      assert before[g].Keys != {};
    }
  }

  /** Permitted at all three levels of the registry. */
  ghost predicate MaySee(user: User, tabs: seq<Tab>, p: Place) {
    exists i, j, k ::
      0 <= i < |tabs| && 0 <= j < |tabs[i].groups| && 0 <= k < |tabs[i].groups[j].items| &&
      IsPlace(user, tabs[i], tabs[i].groups[j], tabs[i].groups[j].items[k], p)
  }

  ghost predicate IsPlace(user: User, t: Tab, g: Group, item: Item, p: Place) {
    && (|t.permissions| == 0 || MayOne(user, t.permissions))
    && (|g.permissions| == 0 || MayOne(user, g.permissions))
    && (|item.permissions| == 0 || MayOne(user, item.permissions))
    && p == Place(t.name, g.name, item.link)
  }

  lemma {:induction false} PlacesInItems(user: User, tab: string, group: string, items: seq<Item>, p: Place)
    ensures p in ItemPlaces(user, tab, group, items) <==>
      p.tab == tab && p.group == group &&
      exists i :: 0 <= i < |items| && items[i].link == p.link && Permitted(user, items[i].permissions)
  {
    if items != [] {
      var front := items[..|items| - 1];
      PlacesInItems(user, tab, group, front, p);
      assert forall i :: 0 <= i < |front| ==> front[i] == items[i];
    }
  }

  lemma {:induction false} PlacesInGroups(user: User, tab: string, groups: seq<Group>, p: Place)
    ensures p in GroupPlaces(user, tab, groups) <==> SomeGroup(user, tab, groups, p)
    ensures p in GroupPlaces(user, tab, groups) ==> p.tab == tab
  {
    if groups != [] {
      var front, last := groups[..|groups| - 1], groups[|groups| - 1];
      PlacesInGroups(user, tab, front, p);
      PlacesInItems(user, tab, last.name, last.items, p);
      assert groups == front + [last];
      SomeGroupSnoc(user, tab, front, last, p);
    }
  }

  predicate SomeGroup(user: User, tab: string, groups: seq<Group>, p: Place) {
    exists j :: 0 <= j < |groups| && InGroup(user, tab, groups[j], p)
  }

  lemma SomeGroupSnoc(user: User, tab: string, front: seq<Group>, last: Group, p: Place)
    ensures SomeGroup(user, tab, front + [last], p) <==> SomeGroup(user, tab, front, p) || InGroup(user, tab, last, p)
  {
    var all := front + [last];
    assert all[|front|] == last;
    assert forall j :: 0 <= j < |front| ==> all[j] == front[j];
  }

  predicate InGroup(user: User, tab: string, g: Group, p: Place) {
    Permitted(user, g.permissions) && p in ItemPlaces(user, tab, g.name, g.items)
  }

  lemma {:induction false} PlacesInTabs(user: User, tabs: seq<Tab>, p: Place)
    ensures p in TabPlaces(user, tabs) <==> exists i :: 0 <= i < |tabs| && InTab(user, tabs[i], p)
  {
    if tabs != [] {
      var front := tabs[..|tabs| - 1];
      PlacesInTabs(user, front, p);
      assert forall i :: 0 <= i < |front| ==> front[i] == tabs[i];
    }
  }

  predicate InTab(user: User, t: Tab, p: Place) {
    Permitted(user, t.permissions) && p in GroupPlaces(user, t.name, t.groups)
  }

  lemma PlacesMaySee(user: User, tabs: seq<Tab>, p: Place)
    ensures p in TabPlaces(user, tabs) <==> MaySee(user, tabs, p)
  {
    PlacesInTabs(user, tabs, p);
    if i :| 0 <= i < |tabs| && InTab(user, tabs[i], p) {
      InTabMaySee(user, tabs, i, p);
    }
    if i, j, k :|
      0 <= i < |tabs| && 0 <= j < |tabs[i].groups| && 0 <= k < |tabs[i].groups[j].items| &&
      IsPlace(user, tabs[i], tabs[i].groups[j], tabs[i].groups[j].items[k], p) {
      PlaceIsInTab(user, tabs[i], j, k, p);
    }
  }

  lemma InTabMaySee(user: User, tabs: seq<Tab>, i: nat, p: Place)
    requires i < |tabs| && InTab(user, tabs[i], p)
    ensures MaySee(user, tabs, p)
  {
    PlacesInGroups(user, tabs[i].name, tabs[i].groups, p);
    var j :| 0 <= j < |tabs[i].groups| && InGroup(user, tabs[i].name, tabs[i].groups[j], p);
    var items := tabs[i].groups[j].items;
    PlacesInItems(user, tabs[i].name, tabs[i].groups[j].name, items, p);
    var k :| 0 <= k < |items| && items[k].link == p.link && Permitted(user, items[k].permissions);
    assert IsPlace(user, tabs[i], tabs[i].groups[j], tabs[i].groups[j].items[k], p);
  }

  lemma PlaceIsInTab(user: User, t: Tab, j: nat, k: nat, p: Place)
    requires j < |t.groups| && k < |t.groups[j].items| && IsPlace(user, t, t.groups[j], t.groups[j].items[k], p)
    ensures InTab(user, t, p)
  {
    PlacesInItems(user, t.name, t.groups[j].name, t.groups[j].items, p);
    assert InGroup(user, t.name, t.groups[j], p);
    PlacesInGroups(user, t.name, t.groups, p);
  }

  /** The menu holds exactly the items permitted at tab, group and item level. */
  lemma MenuHoldsPermitted(user: User, tabs: seq<Tab>, url: string, related: Option<string>, p: Place)
    requires Keyed(tabs)
    ensures Active(user, tabs, url, related).Some? ==>
      InMenu(TabMenu(user, tabs), Active(user, tabs, url, related).value)
    ensures InMenu(WithActive(TabMenu(user, tabs), Active(user, tabs, url, related)), p) <==> MaySee(user, tabs, p)
  {
    ActiveIsInMenu(user, tabs, url, related);
    TabMenuHolds(user, tabs, p);
    PlacesMaySee(user, tabs, p);
  }

  lemma {:induction false} GroupMenuCarries(user: User, groups: seq<Group>, j: nat)
    requires KeyedGroups(groups) && j < |groups| && Permitted(user, groups[j].permissions)
    requires ItemMenu(user, groups[j].items) != map[]
    ensures groups[j].name in GroupMenu(user, groups)
    ensures GroupMenu(user, groups)[groups[j].name] == ItemMenu(user, groups[j].items)
  {
    if j < |groups| - 1 {
      GroupMenuCarries(user, groups[..|groups| - 1], j);
    }
  }

  lemma {:induction false} TabMenuCarries(user: User, tabs: seq<Tab>, i: nat)
    requires Keyed(tabs) && i < |tabs| && Permitted(user, tabs[i].permissions)
    requires GroupMenu(user, tabs[i].groups) != map[]
    ensures tabs[i].name in TabMenu(user, tabs)
    ensures TabMenu(user, tabs)[tabs[i].name] == MenuTab(tabs[i].icon, GroupMenu(user, tabs[i].groups))
  {
    if i < |tabs| - 1 {
      TabMenuCarries(user, tabs[..|tabs| - 1], i);
    }
  }

  /** Every item that may be seen stands in the finished menu with the name and weight that the registry gives it, in
      a tab with the registry's icon, and is marked exactly if it is the active one. */
  lemma MenuCarries(user: User, tabs: seq<Tab>, url: string, related: Option<string>, i: nat, j: nat, k: nat, p: Place)
    requires Keyed(tabs) && i < |tabs| && j < |tabs[i].groups| && k < |tabs[i].groups[j].items|
    requires IsPlace(user, tabs[i], tabs[i].groups[j], tabs[i].groups[j].items[k], p)
    ensures Active(user, tabs, url, related).Some? ==>
      InMenu(TabMenu(user, tabs), Active(user, tabs, url, related).value)
    ensures var menu := WithActive(TabMenu(user, tabs), Active(user, tabs, url, related));
      var item := tabs[i].groups[j].items[k];
      && InMenu(menu, p) && menu[p.tab].icon == tabs[i].icon
      && ItemAt(menu, p) == MenuItem(Active(user, tabs, url, related) == Some(p), item.name, item.weight)
  {
    var group := tabs[i].groups[j];
    PermittedExactly(user, tabs[i].permissions);
    PermittedExactly(user, group.permissions);
    PermittedExactly(user, group.items[k].permissions);
    ItemMenuCarries(user, group.items, k);
    GroupMenuCarries(user, tabs[i].groups, j);
    TabMenuCarries(user, tabs, i);
    ActiveIsInMenu(user, tabs, url, related);
    ActiveItemExactly(user, tabs, url, related, p);
    MarkingKeepsIcons(TabMenu(user, tabs), Active(user, tabs, url, related), p.tab);
  }

  lemma MarkingKeepsIcons(menu: Menu, active: Option<Place>, t: string)
    requires active.Some? ==> InMenu(menu, active.value)
    ensures t in menu ==> t in WithActive(menu, active) && WithActive(menu, active)[t].icon == menu[t].icon
  {
  }

  // ----- the active link

  lemma {:induction false} PreferIsAmong(places: seq<Place>, url: string, related: Option<string>)
    ensures var r := PreferAll(None, places, url, related); r.Some? ==> r.value in places
  {
    if places != [] {
      var front, last := places[..|places| - 1], places[|places| - 1];
      assert places == front + [last];
      PreferIsAmong(front, url, related);
    }
  }

  /** The write at the end always finds its entry. */
  lemma ActiveIsInMenu(user: User, tabs: seq<Tab>, url: string, related: Option<string>)
    requires Keyed(tabs)
    ensures var active := Active(user, tabs, url, related); active.Some? ==> InMenu(TabMenu(user, tabs), active.value)
  {
    PreferIsAmong(TabPlaces(user, tabs), url, related);
    if Active(user, tabs, url, related).Some? {
      TabMenuHolds(user, tabs, Active(user, tabs, url, related).value);
    }
  }

  predicate IsLast(places: seq<Place>, url: string, i: nat)
    requires i < |places|
  {
    places[i].link == url && forall j :: i < j < |places| ==> places[j].link != url
  }

  predicate IsFirst(places: seq<Place>, related: Option<string>, i: nat)
    requires i < |places|
  {
    related == Some(places[i].link) && forall j :: 0 <= j < i ==> related != Some(places[j].link)
  }

  /** The last place with the URL itself; without one, the first place with the related list view's link; otherwise
      none. */
  ghost predicate IsChoice(places: seq<Place>, url: string, related: Option<string>, r: Option<Place>) {
    if exists i :: 0 <= i < |places| && places[i].link == url then
      exists i :: 0 <= i < |places| && r == Some(places[i]) && IsLast(places, url, i)
    else if exists i :: 0 <= i < |places| && related == Some(places[i].link) then
      exists i :: 0 <= i < |places| && r == Some(places[i]) && IsFirst(places, related, i)
    else r == None
  }

  lemma {:induction false} PreferChooses(places: seq<Place>, url: string, related: Option<string>)
    ensures IsChoice(places, url, related, PreferAll(None, places, url, related))
  {
    if places != [] {
      var front, last := places[..|places| - 1], places[|places| - 1];
      PreferChooses(front, url, related);
      ChoiceGoesOn(front, last, url, related, PreferAll(None, front, url, related));
      assert places == front + [last];
    }
  }

  lemma ChoiceGoesOn(front: seq<Place>, last: Place, url: string, related: Option<string>, r: Option<Place>)
    requires IsChoice(front, url, related, r)
    ensures IsChoice(front + [last], url, related, Prefer(r, last, url, related))
  {
    var places := front + [last];
    assert places[|front|] == last;
    assert forall i :: 0 <= i < |front| ==> places[i] == front[i];
    if last.link == url {
      assert IsLast(places, url, |front|);
    } else if i :| 0 <= i < |front| && r == Some(front[i]) && IsLast(front, url, i) {
      assert IsLast(places, url, i);
    } else if i :| 0 <= i < |front| && r == Some(front[i]) && IsFirst(front, related, i) {
      assert IsFirst(places, related, i);
    } else if related == Some(last.link) {
      assert IsFirst(places, related, |front|);
    }
  }

  /** For any registry, user and URL, the active link is the preferred one of those that may be seen ... */
  lemma ActiveIsPreferred(user: User, tabs: seq<Tab>, url: string, related: Option<string>)
    ensures IsChoice(TabPlaces(user, tabs), url, related, Active(user, tabs, url, related))
  {
    PreferChooses(TabPlaces(user, tabs), url, related);
  }

  lemma MarkingOne(menu: Menu, active: Option<Place>, p: Place)
    requires active.Some? ==> InMenu(menu, active.value)
    requires InMenu(menu, p) && !ItemAt(menu, p).isActive
    ensures InMenu(WithActive(menu, active), p)
    ensures ItemAt(WithActive(menu, active), p) == ItemAt(menu, p).(isActive := active == Some(p))
  {
  }

  /** ... and the only item of the menu that is marked; its name, its weight and all else stay. */
  lemma ActiveItemExactly(user: User, tabs: seq<Tab>, url: string, related: Option<string>, p: Place)
    requires Keyed(tabs) && InMenu(TabMenu(user, tabs), p)
    ensures var active := Active(user, tabs, url, related);
      && (active.Some? ==> InMenu(TabMenu(user, tabs), active.value))
      && InMenu(WithActive(TabMenu(user, tabs), active), p)
      && ItemAt(WithActive(TabMenu(user, tabs), active), p) == ItemAt(TabMenu(user, tabs), p).(isActive := active ==
        Some(p))
  {
    ActiveIsInMenu(user, tabs, url, related);
    NothingActiveBefore(user, tabs, p);
    MarkingOne(TabMenu(user, tabs), Active(user, tabs, url, related), p);
  }

  lemma {:induction false} NothingActiveInGroups(user: User, groups: seq<Group>, p: Place)
    requires p.group in GroupMenu(user, groups) && p.link in GroupMenu(user, groups)[p.group]
    ensures !GroupMenu(user, groups)[p.group][p.link].isActive
  {
    if groups != [] {
      var front, last := groups[..|groups| - 1], groups[|groups| - 1];
      ItemMenuHolds(user, last.items, "", "", "");
      if p.group in GroupMenu(user, front) && p.link in GroupMenu(user, front)[p.group] {
        NothingActiveInGroups(user, front, p);
      }
    }
  }

  lemma {:induction false} NothingActiveBefore(user: User, tabs: seq<Tab>, p: Place)
    requires InMenu(TabMenu(user, tabs), p)
    ensures !ItemAt(TabMenu(user, tabs), p).isActive
  {
    if tabs != [] {
      var front, last := tabs[..|tabs| - 1], tabs[|tabs| - 1];
      if p.group in GroupMenu(user, last.groups) && p.link in GroupMenu(user, last.groups)[p.group] {
        NothingActiveInGroups(user, last.groups, p);
      }
      if InMenu(TabMenu(user, front), p) {
        NothingActiveBefore(user, front, p);
      }
    }
  }
}
