/**
 * _elgg_page_menu_setup: gives every page-menu item a child-menu display
 * ('toggle' unless one is set) and marks the ancestors of the selected item
 * as selected, which expands them.
 */
module PageMenu {
  import opened PhpValues
  import opened Menus

  const DefaultChildDisplay: Value := Str("toggle")

  /** PHP's !empty($options['display']). */
  predicate HasDisplay(options: map<string, Value>) {
    "display" in options && Truthy(options["display"])
  }

  /** The child-menu options with an empty display replaced by 'toggle'. */
  function WithDefaultDisplay(options: map<string, Value>): (r: map<string, Value>)
    ensures HasDisplay(r)
    ensures HasDisplay(options) ==> r == options
    ensures !HasDisplay(options) ==> r["display"] == DefaultChildDisplay
    ensures forall k :: k != "display" ==> (k in r <==> k in options) && (k in r ==> r[k] == options[k])
  {
    if HasDisplay(options) then options else options["display" := DefaultChildDisplay]
  }

  /** An item that appears twice in a menu is set up twice, to the same effect. */
  lemma WithDefaultDisplayIdempotent(options: map<string, Value>)
    ensures WithDefaultDisplay(WithDefaultDisplay(options)) == WithDefaultDisplay(options)
  {
  }

  /**
   * chain lists the parents of item, nearest first, up to one with no
   * parent.  Being finite, it rules out a cycle of parents, on which the
   * source's while loop would not end.
   */
  predicate AncestorChain(item: MenuItem, chain: seq<MenuItem>)
    reads item, chain
  {
    (chain == [] ==> item.parent == null) &&
    (chain != [] ==>
      item.parent == chain[0] && chain[|chain| - 1].parent == null &&
      forall i :: 0 <= i < |chain| - 1 ==> chain[i].parent == chain[i + 1])
  }

  /** Options of the items, as they were before the setup. */
  type Snapshot = map<MenuItem, map<string, Value>>

  /** Every item listed in done has its default display, every other keeps its snapshot options. */
  predicate DisplaysSetFor(orig: Snapshot, done: seq<MenuItem>)
    reads orig.Keys
  {
    forall x | x in orig :: x.childOptions == if x in done then WithDefaultDisplay(orig[x]) else orig[x]
  }

  /** The inner loop over the items of one section. */
  method SetSectionDisplays(items: seq<MenuItem>, ghost done: seq<MenuItem>, ghost orig: Snapshot)
    requires forall x | x in items :: x in orig
    requires DisplaysSetFor(orig, done)
    modifies (set x | x in items)`childOptions
    ensures DisplaysSetFor(orig, done + items)
  {
    var i := 0;
    while i < |items|
      invariant 0 <= i <= |items|
      invariant DisplaysSetFor(orig, done + items[..i])
    {
      var item := items[i];
      WithDefaultDisplayIdempotent(orig[item]);
      item.childOptions := WithDefaultDisplay(item.childOptions);
      assert done + items[..i + 1] == done + items[..i] + [item];
      i := i + 1;
    }
    assert items[..i] == items;
  }

  /** The loop over the sections. */
  method SetMenuDisplays(menu: seq<Section>, ghost orig: Snapshot)
    requires forall x | x in AllItems(menu) :: x in orig
    requires DisplaysSetFor(orig, [])
    modifies (set x | x in AllItems(menu))`childOptions
    ensures DisplaysSetFor(orig, AllItems(menu))
  {
    assert AllItems(menu[..0]) == [];
    var s := 0;
    while s < |menu|
      invariant 0 <= s <= |menu|
      invariant DisplaysSetFor(orig, AllItems(menu[..s]))
    {
      AllItemsStep(menu, s);
      forall b | 0 <= b < |menu[s].items| ensures menu[s].items[b] in AllItems(menu) {
        ItemInAllItems(menu, s, b);
      }
      SetSectionDisplays(menu[s].items, AllItems(menu[..s]), orig);
      s := s + 1;
    }
    AllItemsWhole(menu);
  }

  /** The child-menu loop: every item gets its default display; nothing else is written. */
  method SetChildDisplays(menu: seq<Section>)
    modifies (set x | x in AllItems(menu))`childOptions
    ensures forall i, j | 0 <= i < |menu| && 0 <= j < |menu[i].items| ::
      menu[i].items[j].childOptions == WithDefaultDisplay(old(menu[i].items[j].childOptions))
  {
    ghost var orig: Snapshot := map x | x in AllItems(menu) :: x.childOptions;
    SetMenuDisplays(menu, orig);
    forall a, b | 0 <= a < |menu| && 0 <= b < |menu[a].items|
      ensures menu[a].items[b].childOptions == WithDefaultDisplay(old(menu[a].items[b].childOptions))
    {
      ItemInAllItems(menu, a, b);
    }
  }

  /** The parent walk: every ancestor of the selected item is selected; nothing else is written. */
  method SelectAncestors(selectedItem: MenuItem, ghost chain: seq<MenuItem>)
    requires AncestorChain(selectedItem, chain)
    modifies (set x | x in chain)`selected
    ensures forall x | x in chain :: x.selected
  {
    var parent := selectedItem.parent;
    ghost var i := 0;
    while parent != null
      invariant 0 <= i <= |chain|
      invariant i < |chain| ==> parent == chain[i]
      invariant i == |chain| ==> parent == null
      invariant forall j :: 0 <= j < i ==> chain[j].selected
      decreases |chain| - i
    {
      parent.selected := true;
      parent := parent.parent;
      i := i + 1;
    }
  }

  /**
   * _elgg_page_menu_setup.  The hook's value is the menu, its
   * 'selected_item' parameter is selectedItem (null when it is not a menu
   * item), and chain is that item's ancestor chain.
   */
  method PageMenuSetup(menu: seq<Section>, selectedItem: MenuItem?, ghost chain: seq<MenuItem>) returns (r: seq<Section>)
    requires selectedItem != null ==> AncestorChain(selectedItem, chain)
    modifies (set x | x in AllItems(menu)) + (set x | x in chain)
    ensures r == menu
    ensures forall i, j | 0 <= i < |menu| && 0 <= j < |menu[i].items| ::
      menu[i].items[j].childOptions == WithDefaultDisplay(old(menu[i].items[j].childOptions))
    ensures forall x | x in chain && x !in AllItems(menu) :: x.childOptions == old(x.childOptions)
    ensures selectedItem != null ==> forall x | x in chain :: x.selected
    ensures forall i, j | 0 <= i < |menu| && 0 <= j < |menu[i].items| ::
      (selectedItem == null || menu[i].items[j] !in chain) ==>
      menu[i].items[j].selected == old(menu[i].items[j].selected)
    ensures selectedItem == null ==> forall x | x in chain :: x.selected == old(x.selected)
    ensures forall i, j | 0 <= i < |menu| && 0 <= j < |menu[i].items| ::
      menu[i].items[j].parent == old(menu[i].items[j].parent)
    ensures forall x | x in chain :: x.parent == old(x.parent)
  {
    SetChildDisplays(menu);
    if selectedItem != null {
      SelectAncestors(selectedItem, chain);
    }
    r := menu;
  }
}
