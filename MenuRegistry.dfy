/**
 * The menu registry: $CONFIG->menus, a map from menu name to the list of
 * ElggMenuItem objects registered for that menu, in registration order.
 */
module MenuRegistry {
  import opened Menus

  type MenuMap = map<string, seq<MenuItem>>

  /** The second argument of elgg_register_menu_item. */
  datatype ItemArgument =
    | ItemObject(item: MenuItem)
      /** An options array; built is what ElggMenuItem::factory made of it, null when it failed. */
    | FactoryOptions(built: MenuItem?)
      /** Any other value. */
    | NotAnItem

  /** The item an argument stands for, or null when register must refuse it. */
  function ResolvedItem(arg: ItemArgument): MenuItem? {
    match arg
    case ItemObject(item) => item
    case FactoryOptions(built) => built
    case NotAnItem => null
  }

  /** The items of a menu, where a menu never registered has none. */
  function MenuOf(menus: MenuMap, m: string): seq<MenuItem> {
    if m in menus then menus[m] else []
  }

  /** The registry after appending item to menu m. */
  function WithItem(menus: MenuMap, m: string, item: MenuItem): (r: MenuMap)
    ensures r.Keys == menus.Keys + {m}
    ensures MenuOf(r, m) == MenuOf(menus, m) + [item]
    ensures forall other :: other != m ==> MenuOf(r, other) == MenuOf(menus, other)
  {
    menus[m := MenuOf(menus, m) + [item]]
  }

  /** What unregistering hands back and the registry it leaves. */
  datatype Removal = Removal(item: MenuItem?, menus: MenuMap)

  /** The outcome of unregistering the first item called name from menu m. */
  function Unregistered(menus: MenuMap, m: string, name: string): (r: Removal)
    ensures r.item == null <==> forall j :: 0 <= j < |MenuOf(menus, m)| ==> MenuOf(menus, m)[j].name != name
    ensures r.item == null ==> r.menus == menus
    ensures r.item != null ==> (m in menus && r.item.name == name &&
      var k := IndexOfName(menus[m], name);
      k < |menus[m]| && r.item == menus[m][k] && r.menus == menus[m := RemoveAt(menus[m], k)])
  {
    if m !in menus || menus[m] == [] then Removal(null, menus)
    else
      var k := IndexOfName(menus[m], name);
      if k == |menus[m]| then Removal(null, menus)
      else
        assert MenuOf(menus, m)[k].name == name;
        Removal(menus[m][k], menus[m := RemoveAt(menus[m], k)])
  }

  /**
   * Unregistering takes away exactly one item, the one returned, and touches
   * no other menu; the remaining items keep their order.
   */
  lemma UnregisterRemovesOne(menus: MenuMap, m: string, name: string)
    ensures var r := Unregistered(menus, m, name);
      r.menus.Keys == menus.Keys &&
      (forall other :: other != m ==> MenuOf(r.menus, other) == MenuOf(menus, other)) &&
      (r.item != null ==> multiset(MenuOf(r.menus, m)) + multiset{r.item} == multiset(MenuOf(menus, m)))
  {
    var r := Unregistered(menus, m, name);
    if r.item != null {
      RemoveAtMultiset(menus[m], IndexOfName(menus[m], name));
    }
  }

  /**
   * Registering an item under a name the menu does not hold yet and then
   * unregistering that name hands the item back and leaves the registry as
   * it was, except that a menu created by the registration stays, empty.
   */
  lemma RegisterThenUnregister(menus: MenuMap, m: string, item: MenuItem)
    requires forall j :: 0 <= j < |MenuOf(menus, m)| ==> MenuOf(menus, m)[j].name != item.name
    ensures Unregistered(WithItem(menus, m, item), m, item.name) == Removal(item, menus[m := MenuOf(menus, m)])
  {
    var items := MenuOf(menus, m);
    var grown := WithItem(menus, m, item);
    assert grown[m] == items + [item];
    assert grown[m][|items|] == item;
    assert IndexOfName(grown[m], item.name) == |items|;
    assert RemoveAt(grown[m], |items|) == items;
    assert grown[m := items] == menus[m := items];
  }

  class Registry {
    var menus: MenuMap

    constructor()
      ensures menus == map[]
    {
      menus := map[];
    }

    /** elgg_register_menu_item */
    method Register(menuName: string, arg: ItemArgument) returns (ok: bool)
      modifies this
      ensures ok <==> ResolvedItem(arg) != null
      ensures ok ==> menus == WithItem(old(menus), menuName, ResolvedItem(arg))
      ensures !ok ==> menus == old(menus)
    {
      var menuItem: MenuItem?;
      match arg {
        case FactoryOptions(built) =>
          if built == null { return false; }
          menuItem := built;
        case ItemObject(item) =>
          menuItem := item;
        case NotAnItem =>
          menuItem := null;
      }
      if menuItem == null {
        return false;
      }
      if menuName !in menus {
        menus := menus[menuName := []];
      }
      menus := menus[menuName := menus[menuName] + [menuItem]];
      ok := true;
    }

    /** elgg_unregister_menu_item */
    method Unregister(menuName: string, itemName: string) returns (removed: MenuItem?)
      modifies this
      ensures removed == Unregistered(old(menus), menuName, itemName).item
      ensures menus == Unregistered(old(menus), menuName, itemName).menus
    {
      if menuName !in menus || menus[menuName] == [] {
        return null;
      }
      var items := menus[menuName];
      var i := 0;
      while i < |items|
        invariant 0 <= i <= |items|
        invariant forall j :: 0 <= j < i ==> items[j].name != itemName
      {
        if items[i].name == itemName {
          menus := menus[menuName := items[..i] + items[i + 1..]];
          return items[i];
        }
        i := i + 1;
      }
      removed := null;
    }

    /** elgg_is_menu_item_registered */
    method IsRegistered(menuName: string, itemName: string) returns (b: bool)
      ensures b <==> (menuName in menus &&
        exists j :: 0 <= j < |menus[menuName]| && menus[menuName][j].name == itemName)
    {
      if menuName !in menus {
        return false;
      }
      var items := menus[menuName];
      var i := 0;
      while i < |items|
        invariant 0 <= i <= |items|
        invariant forall j :: 0 <= j < i ==> items[j].name != itemName
      {
        if items[i].name == itemName {
          return true;
        }
        i := i + 1;
      }
      b := false;
    }

    /** elgg_get_menu_item: the first item of that name, or null. */
    method GetItem(menuName: string, itemName: string) returns (item: MenuItem?)
      ensures item == null <==> (menuName !in menus ||
        forall j :: 0 <= j < |menus[menuName]| ==> menus[menuName][j].name != itemName)
      ensures item != null ==> (menuName in menus &&
        item == menus[menuName][IndexOfName(menus[menuName], itemName)] && item.name == itemName)
    {
      if menuName !in menus {
        return null;
      }
      var items := menus[menuName];
      var i := 0;
      while i < |items|
        invariant 0 <= i <= |items|
        invariant forall j :: 0 <= j < i ==> items[j].name != itemName
      {
        if items[i].name == itemName {
          return items[i];
        }
        i := i + 1;
      }
      item := null;
    }
  }
}
