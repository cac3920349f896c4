/**
 * Menu items and menus as the navigation library sees them.
 *
 * An ElggMenuItem is an object: the prepare hooks change its selected flag
 * and its child-menu options in place, and the same object is shared by the
 * registry and by every prepared menu that holds it.  Its name, text and
 * href are never changed by the navigation library, so they are constants
 * here.  An href of "" stands for a missing href.
 *
 * A prepared menu is a PHP array from section name ('default', 'more', ...)
 * to a list of items; its order matters, so it is a sequence of sections
 * with distinct names.
 */
module Menus {
  import opened PhpValues

  class MenuItem {
    const name: string
    const text: string
    const href: string
    var selected: bool
    var parent: MenuItem?
    var childOptions: map<string, Value>

    /** new ElggMenuItem($name, $text, $href) */
    constructor(name: string, text: string, href: string)
      ensures this.name == name && this.text == text && this.href == href
      ensures !selected && parent == null && childOptions == map[]
    {
      this.name := name;
      this.text := text;
      this.href := href;
      selected := false;
      parent := null;
      childOptions := map[];
    }
  }

  /** Index of the first item called n, or |items| when there is none. */
  function IndexOfName(items: seq<MenuItem>, n: string): (k: nat)
    ensures k <= |items|
    ensures k < |items| ==> items[k].name == n
    ensures forall j :: 0 <= j < k ==> items[j].name != n
  {
    if items == [] then 0
    else if items[0].name == n then 0
    else 1 + IndexOfName(items[1..], n)
  }

  /** The list without its k-th entry; the others keep their order (PHP's unset on a list). */
  function RemoveAt(items: seq<MenuItem>, k: nat): (r: seq<MenuItem>)
    requires k < |items|
    ensures |r| == |items| - 1
    ensures forall j :: 0 <= j < k ==> r[j] == items[j]
    ensures forall j :: k <= j < |r| ==> r[j] == items[j + 1]
  {
    items[..k] + items[k + 1..]
  }

  lemma RemoveAtMultiset(items: seq<MenuItem>, k: nat)
    requires k < |items|
    ensures multiset(RemoveAt(items, k)) + multiset{items[k]} == multiset(items)
  {
    assert items == items[..k] + [items[k]] + items[k + 1..];
  }

  datatype Section = Section(name: string, items: seq<MenuItem>)

  /** The section names, in order. */
  function Names(menu: seq<Section>): seq<string>
  {
    if menu == [] then [] else [menu[0].name] + Names(menu[1..])
  }

  /** A PHP array has each key once. */
  predicate DistinctNames(menu: seq<Section>) {
    menu == [] || (menu[0].name !in Names(menu[1..]) && DistinctNames(menu[1..]))
  }

  /** $menu[$n], where a missing section reads as no items. */
  function SectionItems(menu: seq<Section>, n: string): seq<MenuItem>
  {
    if menu == [] then []
    else if menu[0].name == n then menu[0].items
    else SectionItems(menu[1..], n)
  }

  /**
   * $menu[$n] = $items: an existing section keeps its place, a new one goes
   * at the end.
   */
  function SetSection(menu: seq<Section>, n: string, items: seq<MenuItem>): (r: seq<Section>)
    ensures SectionItems(r, n) == items
    ensures forall m :: m != n ==> SectionItems(r, m) == SectionItems(menu, m)
  {
    if menu == [] then [Section(n, items)]
    else if menu[0].name == n then [Section(n, items)] + menu[1..]
    else [menu[0]] + SetSection(menu[1..], n, items)
  }

  /** Setting a section renames nothing and adds its name at the end when it is new. */
  lemma {:induction false} SetSectionNames(menu: seq<Section>, n: string, items: seq<MenuItem>)
    ensures Names(SetSection(menu, n, items)) == if n in Names(menu) then Names(menu) else Names(menu) + [n]
    ensures DistinctNames(menu) ==> DistinctNames(SetSection(menu, n, items))
    decreases |menu|
  {
    var r := SetSection(menu, n, items);
    if menu == [] {
    } else if menu[0].name == n {
      assert r[1..] == menu[1..];
    } else {
      var tail := SetSection(menu[1..], n, items);
      SetSectionNames(menu[1..], n, items);
      assert r[1..] == tail;
      assert Names(r) == [menu[0].name] + Names(tail);
      if n !in Names(menu) {
        assert Names(menu) + [n] == [menu[0].name] + (Names(menu[1..]) + [n]);
      }
    }
  }

  /** Every item of the menu, section by section, in order. */
  function AllItems(menu: seq<Section>): seq<MenuItem>
  {
    if menu == [] then [] else menu[0].items + AllItems(menu[1..])
  }

  lemma {:induction false} AllItemsAppend(a: seq<Section>, b: seq<Section>)
    ensures AllItems(a + b) == AllItems(a) + AllItems(b)
    decreases |a|
  {
    if a != [] {
      assert (a + b)[0] == a[0];
      assert (a + b)[1..] == a[1..] + b;
      AllItemsAppend(a[1..], b);
      calc {
        AllItems(a + b);
        a[0].items + AllItems(a[1..] + b);
        a[0].items + (AllItems(a[1..]) + AllItems(b));
        (a[0].items + AllItems(a[1..])) + AllItems(b);
      }
    } else {
      assert a + b == b;
    }
  }

  /** The items of the first s sections and then those of section s. */
  lemma AllItemsStep(menu: seq<Section>, s: nat)
    requires s < |menu|
    ensures AllItems(menu[..s + 1]) == AllItems(menu[..s]) + menu[s].items
  {
    assert menu[..s + 1] == menu[..s] + [menu[s]];
    AllItemsAppend(menu[..s], [menu[s]]);
    assert AllItems([menu[s]]) == menu[s].items + AllItems([]);
  }

  lemma AllItemsWhole(menu: seq<Section>)
    ensures AllItems(menu[..|menu|]) == AllItems(menu)
  {
    assert menu[..|menu|] == menu;
  }

  /** Item j of section i is one of the menu's items. */
  lemma {:induction false} ItemInAllItems(menu: seq<Section>, i: nat, j: nat)
    requires i < |menu| && j < |menu[i].items|
    ensures menu[i].items[j] in AllItems(menu)
    decreases i
  {
    if i > 0 {
      assert menu[1..][i - 1] == menu[i];
      ItemInAllItems(menu[1..], i - 1, j);
    }
  }

  /** Item j of section i sits after the items of the sections before it. */
  lemma AllItemsAt(menu: seq<Section>, s: nat, i: nat)
    requires s < |menu| && i < |menu[s].items|
    ensures |AllItems(menu[..s])| + i < |AllItems(menu)|
    ensures AllItems(menu)[|AllItems(menu[..s])| + i] == menu[s].items[i]
  {
    assert menu == menu[..s + 1] + menu[s + 1..];
    AllItemsAppend(menu[..s + 1], menu[s + 1..]);
    AllItemsStep(menu, s);
  }

  /** The items of a menu passed in exist already. */
  lemma {:induction false} AllItemsAllocated(menu: seq<Section>)
    ensures forall x | x in AllItems(menu) :: allocated(x)
    decreases |menu|
  {
    if menu != [] {
      AllItemsAllocated(menu[1..]);
    }
  }

  /** The items of a section are among the items of the menu. */
  lemma {:induction false} SectionItemsInMenu(menu: seq<Section>, n: string, x: MenuItem)
    requires x in SectionItems(menu, n)
    ensures x in AllItems(menu)
    decreases |menu|
  {
    if menu[0].name != n {
      SectionItemsInMenu(menu[1..], n, x);
    }
    assert AllItems(menu) == menu[0].items + AllItems(menu[1..]);
  }

  /** Setting a section brings in no item but the new section's. */
  lemma {:induction false} SetSectionItems(menu: seq<Section>, n: string, items: seq<MenuItem>, x: MenuItem)
    requires x in AllItems(SetSection(menu, n, items))
    ensures x in AllItems(menu) || x in items
    decreases |menu|
  {
    if menu == [] {
      assert AllItems([Section(n, items)]) == items + AllItems([]);
    } else if menu[0].name == n {
      assert ([Section(n, items)] + menu[1..])[1..] == menu[1..];
    } else {
      var tail := SetSection(menu[1..], n, items);
      assert ([menu[0]] + tail)[1..] == tail;
      if x !in menu[0].items {
        SetSectionItems(menu[1..], n, items, x);
      }
    }
  }

  /** The selected flags of a list of items, in order. */
  function Flags(items: seq<MenuItem>): (r: seq<bool>)
    reads items
    ensures |r| == |items|
    ensures forall j :: 0 <= j < |items| ==> r[j] == items[j].selected
  {
    if items == [] then [] else Flags(items[..|items| - 1]) + [items[|items| - 1].selected]
  }
}
