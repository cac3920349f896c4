/**
 * _elgg_site_menu_setup: arranges the site menu's 'default' and 'more'
 * sections, either from the featured item names and custom items an
 * administrator configured or by moving the items after the fifth to
 * 'more', and then selects one item as a fallback when nothing is
 * selected.  The site URL, the current URL, the context and the URL
 * normalisation a new menu item applies to its href are parameters.
 */
module SiteMenu {
  import opened Common
  import opened Menus

  /** How many items the default section keeps when no items are featured. */
  const MaxDisplayItems: nat := 5

  // ---------------------------------------------------------------------
  // Featured items

  /** The items called n, in order. */
  function Named(s: seq<MenuItem>, n: string): (r: seq<MenuItem>)
    ensures forall x | x in r :: x.name == n
  {
    if s == [] then []
    else Named(s[..|s| - 1], n) + (if s[|s| - 1].name == n then [s[|s| - 1]] else [])
  }

  /** The items not called n, in order. */
  function Unnamed(s: seq<MenuItem>, n: string): seq<MenuItem>
  {
    if s == [] then []
    else Unnamed(s[..|s| - 1], n) + (if s[|s| - 1].name != n then [s[|s| - 1]] else [])
  }

  /** The items whose name is none of names, in order. */
  function Keep(s: seq<MenuItem>, names: seq<string>): (r: seq<MenuItem>)
    ensures forall x | x in r :: x.name !in names
  {
    if s == [] then []
    else Keep(s[..|s| - 1], names) + (if s[|s| - 1].name !in names then [s[|s| - 1]] else [])
  }

  /** The featured items and what remains registered. */
  datatype Split = Split(featured: seq<MenuItem>, rest: seq<MenuItem>)

  /**
   * The nested featured loop: for each name in turn, every remaining item
   * of that name moves to the featured list.
   */
  function SplitFeatured(items: seq<MenuItem>, names: seq<string>): Split
  {
    if names == [] then Split([], items)
    else
      var before := SplitFeatured(items, names[..|names| - 1]);
      var n := names[|names| - 1];
      Split(before.featured + Named(before.rest, n), Unnamed(before.rest, n))
  }

  /**
   * The featured list assembled name by name from the whole default
   * section: all items of the first name, then all of the second, and so
   * on, where a repeated name adds nothing.
   */
  function FeaturedInNameOrder(items: seq<MenuItem>, names: seq<string>): seq<MenuItem>
  {
    if names == [] then []
    else
      var n := names[|names| - 1];
      FeaturedInNameOrder(items, names[..|names| - 1]) +
        (if n in names[..|names| - 1] then [] else Named(items, n))
  }

  lemma {:induction false} NamedSplit(s: seq<MenuItem>, n: string)
    ensures multiset(Named(s, n)) + multiset(Unnamed(s, n)) == multiset(s)
    decreases |s|
  {
    if s != [] {
      var init := s[..|s| - 1];
      NamedSplit(init, n);
      assert s == init + [s[|s| - 1]];
    }
  }

  lemma {:induction false} KeepNothing(s: seq<MenuItem>)
    ensures Keep(s, []) == s
    decreases |s|
  {
    if s != [] {
      KeepNothing(s[..|s| - 1]);
      assert s == s[..|s| - 1] + [s[|s| - 1]];
    }
  }

  /** Taking away the items called n from the kept items keeps one name fewer. */
  lemma {:induction false} UnnamedKeep(s: seq<MenuItem>, names: seq<string>, n: string)
    ensures Unnamed(Keep(s, names), n) == Keep(s, names + [n])
    decreases |s|
  {
    if s != [] {
      var init := s[..|s| - 1];
      var x := s[|s| - 1];
      UnnamedKeep(init, names, n);
      var k := Keep(init, names);
      assert s[..|s| - 1] == init;
      assert x.name in names + [n] <==> x.name in names || x.name == n;
      if x.name !in names {
        assert Keep(s, names) == k + [x];
        assert (k + [x])[..|k + [x]| - 1] == k;
      } else {
        assert Keep(s, names) == k;
      }
    }
  }

  /** Among the kept items, those called n are all the items called n, unless n was already taken. */
  lemma {:induction false} NamedKeep(s: seq<MenuItem>, names: seq<string>, n: string)
    ensures Named(Keep(s, names), n) == if n in names then [] else Named(s, n)
    decreases |s|
  {
    if s != [] {
      var init := s[..|s| - 1];
      var x := s[|s| - 1];
      NamedKeep(init, names, n);
      var k := Keep(init, names);
      assert s[..|s| - 1] == init;
      if x.name !in names {
        assert Keep(s, names) == k + [x];
        assert (k + [x])[..|k + [x]| - 1] == k;
      } else {
        assert Keep(s, names) == k;
      }
    }
  }

  /** What stays registered is the default section without every featured name, in order. */
  lemma {:induction false} SplitRest(items: seq<MenuItem>, names: seq<string>)
    ensures SplitFeatured(items, names).rest == Keep(items, names)
    decreases |names|
  {
    if names == [] {
      KeepNothing(items);
    } else {
      var init := names[..|names| - 1];
      SplitRest(items, init);
      UnnamedKeep(items, init, names[|names| - 1]);
      assert init + [names[|names| - 1]] == names;
    }
  }

  /** The featured items come in the order of the featured names. */
  lemma {:induction false} SplitFeaturedOrder(items: seq<MenuItem>, names: seq<string>)
    ensures SplitFeatured(items, names).featured == FeaturedInNameOrder(items, names)
    decreases |names|
  {
    if names != [] {
      var init := names[..|names| - 1];
      SplitFeaturedOrder(items, init);
      SplitRest(items, init);
      NamedKeep(items, init, names[|names| - 1]);
    }
  }

  /** No item is lost or duplicated: featured and rest together are the default section. */
  lemma {:induction false} SplitPreserves(items: seq<MenuItem>, names: seq<string>)
    ensures var split := SplitFeatured(items, names);
      multiset(split.featured) + multiset(split.rest) == multiset(items)
    decreases |names|
  {
    if names != [] {
      var init := names[..|names| - 1];
      SplitPreserves(items, init);
      NamedSplit(SplitFeatured(items, init).rest, names[|names| - 1]);
    }
  }

  /** The inner featured loop over the registered items for one name. */
  method TakeNamed(registered: seq<MenuItem>, n: string) returns (taken: seq<MenuItem>, kept: seq<MenuItem>)
    ensures taken == Named(registered, n) && kept == Unnamed(registered, n)
  {
    taken, kept := [], [];
    var j := 0;
    while j < |registered|
      invariant 0 <= j <= |registered|
      invariant taken == Named(registered[..j], n) && kept == Unnamed(registered[..j], n)
    {
      var item := registered[j];
      assert registered[..j + 1][..j] == registered[..j];
      if item.name == n {
        taken := taken + [item];
      } else {
        kept := kept + [item];
      }
      j := j + 1;
    }
    assert registered[..j] == registered;
  }

  /** The outer featured loop over the featured names. */
  method SplitFeaturedItems(registered: seq<MenuItem>, names: seq<string>) returns (featured: seq<MenuItem>, rest: seq<MenuItem>)
    ensures Split(featured, rest) == SplitFeatured(registered, names)
  {
    featured, rest := [], registered;
    var k := 0;
    while k < |names|
      invariant 0 <= k <= |names|
      invariant Split(featured, rest) == SplitFeatured(registered, names[..k])
    {
      assert names[..k + 1][..k] == names[..k];
      var taken, kept := TakeNamed(rest, names[k]);
      featured := featured + taken;
      rest := kept;
      k := k + 1;
    }
    assert names[..k] == names;
  }

  // ---------------------------------------------------------------------
  // Custom items

  /** "custom$n" */
  function CustomName(n: nat): string {
    "custom" + NatToString(n)
  }

  lemma CustomNamesDistinct(m: nat, n: nat)
    requires m != n
    ensures CustomName(m) != CustomName(n)
  {
    NatToStringInjective(m, n);
    assert CustomName(m)[6..] == NatToString(m);
    assert CustomName(n)[6..] == NatToString(n);
  }

  /**
   * The custom-item loop: one new item per configured title and URL,
   * numbered from 1.  normalizeUrl is what the ElggMenuItem constructor
   * does to an href.
   */
  method MakeCustomItems(customItems: seq<(string, string)>, normalizeUrl: string -> string) returns (customs: seq<MenuItem>)
    ensures |customs| == |customItems|
    ensures forall i :: 0 <= i < |customs| ==>
      fresh(customs[i]) && customs[i].name == CustomName(i + 1) &&
      customs[i].text == customItems[i].0 && customs[i].href == normalizeUrl(customItems[i].1) &&
      !customs[i].selected && customs[i].parent == null && customs[i].childOptions == map[]
  {
    customs := [];
    var n := 1;
    while n <= |customItems|
      invariant 1 <= n <= |customItems| + 1
      invariant |customs| == n - 1
      invariant forall i :: 0 <= i < |customs| ==>
        fresh(customs[i]) && customs[i].name == CustomName(i + 1) &&
        customs[i].text == customItems[i].0 && customs[i].href == normalizeUrl(customItems[i].1) &&
        !customs[i].selected && customs[i].parent == null && customs[i].childOptions == map[]
    {
      var (title, url) := customItems[n - 1];
      var item := new MenuItem(CustomName(n), title, normalizeUrl(url));
      customs := customs + [item];
      n := n + 1;
    }
  }

  // ---------------------------------------------------------------------
  // Arranging the sections

  /**
   * The sections after the first half of the setup, given the custom items
   * it creates.
   */
  function Arranged(menu: seq<Section>, names: seq<string>, customs: seq<MenuItem>): seq<Section>
  {
    if names != [] || customs != [] then FeaturedArrangement(menu, names, customs)
    else PlainArrangement(menu)
  }

  /** The featured branch. */
  function FeaturedArrangement(menu: seq<Section>, names: seq<string>, customs: seq<MenuItem>): seq<Section>
  {
    var split := SplitFeatured(SectionItems(menu, "default"), names);
    Placed(menu, split.featured + customs, split.rest)
  }

  /** $return['default'] = $shown; and, when rest is not empty, $return['more'] = $rest. */
  function Placed(menu: seq<Section>, shown: seq<MenuItem>, rest: seq<MenuItem>): (r: seq<Section>)
    ensures SectionItems(r, "default") == shown
    ensures SectionItems(r, "more") == if |rest| > 0 then rest else SectionItems(menu, "more")
    ensures forall m :: m != "default" && m != "more" ==> SectionItems(r, m) == SectionItems(menu, m)
  {
    var withDefault := SetSection(menu, "default", shown);
    if |rest| > 0 then SetSection(withDefault, "more", rest) else withDefault
  }

  lemma PlacedItemsFrom(menu: seq<Section>, shown: seq<MenuItem>, rest: seq<MenuItem>, x: MenuItem)
    requires x in AllItems(Placed(menu, shown, rest))
    ensures x in AllItems(menu) || x in shown || x in rest
  {
    var withDefault := SetSection(menu, "default", shown);
    if |rest| > 0 && x !in AllItems(withDefault) {
      SetSectionItems(withDefault, "more", rest, x);
    } else {
      SetSectionItems(menu, "default", shown, x);
    }
  }

  lemma PlacedNames(menu: seq<Section>, shown: seq<MenuItem>, rest: seq<MenuItem>)
    requires DistinctNames(menu)
    ensures DistinctNames(Placed(menu, shown, rest))
  {
    SetSectionNames(menu, "default", shown);
    SetSectionNames(SetSection(menu, "default", shown), "more", rest);
  }

  /** The branch without featured or custom items. */
  function PlainArrangement(menu: seq<Section>): seq<Section>
  {
    var registered := SectionItems(menu, "default");
    if |registered| > MaxDisplayItems + 1 then
      SetSection(SetSection(menu, "default", registered[..MaxDisplayItems]), "more", registered[MaxDisplayItems..])
    else menu
  }

  /**
   * Without featured or custom items, a default section of more than six
   * items keeps its first five and the rest move, in order, to 'more'; a
   * shorter one leaves the menu as it is.
   */
  lemma ArrangedPlain(menu: seq<Section>)
    ensures var d := SectionItems(menu, "default");
      var r := Arranged(menu, [], []);
      if |d| > MaxDisplayItems + 1 then
        SectionItems(r, "default") == d[..MaxDisplayItems] &&
        SectionItems(r, "more") == d[MaxDisplayItems..] &&
        SectionItems(r, "default") + SectionItems(r, "more") == d &&
        forall m :: m != "default" && m != "more" ==> SectionItems(r, m) == SectionItems(menu, m)
      else r == menu
  {
    var d := SectionItems(menu, "default");
    if |d| > MaxDisplayItems + 1 {
      assert d[..MaxDisplayItems] + d[MaxDisplayItems..] == d;
    }
  }

  /**
   * With featured or custom items, 'default' becomes the featured items in
   * the order of the featured names followed by the custom items; the
   * remaining items, in order, replace 'more' only when there are any; no
   * item of the old default section is lost or duplicated.
   */
  lemma ArrangedFeatured(menu: seq<Section>, names: seq<string>, customs: seq<MenuItem>)
    requires names != [] || customs != []
    ensures var d := SectionItems(menu, "default");
      var r := Arranged(menu, names, customs);
      var featured := FeaturedInNameOrder(d, names);
      var rest := Keep(d, names);
      SectionItems(r, "default") == featured + customs &&
      SectionItems(r, "more") == (if |rest| > 0 then rest else SectionItems(menu, "more")) &&
      multiset(featured) + multiset(rest) == multiset(d) &&
      forall m :: m != "default" && m != "more" ==> SectionItems(r, m) == SectionItems(menu, m)
  {
    var d := SectionItems(menu, "default");
    SplitFeaturedOrder(d, names);
    SplitRest(d, names);
    SplitPreserves(d, names);
  }

  /** The arranged menu still has each section name once. */
  lemma ArrangedDistinct(menu: seq<Section>, names: seq<string>, customs: seq<MenuItem>)
    requires DistinctNames(menu)
    ensures DistinctNames(Arranged(menu, names, customs))
  {
    var d := SectionItems(menu, "default");
    if names != [] || customs != [] {
      var split := SplitFeatured(d, names);
      PlacedNames(menu, split.featured + customs, split.rest);
    } else if |d| > MaxDisplayItems + 1 {
      SetSectionNames(menu, "default", d[..MaxDisplayItems]);
      SetSectionNames(SetSection(menu, "default", d[..MaxDisplayItems]), "more", d[MaxDisplayItems..]);
    }
  }

  /** Arranging brings in no item but the menu's own and the custom ones. */
  lemma ArrangedItemsFrom(menu: seq<Section>, names: seq<string>, customs: seq<MenuItem>, x: MenuItem)
    requires x in AllItems(Arranged(menu, names, customs))
    ensures x in AllItems(menu) || x in customs
  {
    if names != [] || customs != [] {
      FeaturedItemsFrom(menu, names, customs, x);
    } else {
      PlainItemsFrom(menu, x);
    }
  }

  lemma FeaturedItemsFrom(menu: seq<Section>, names: seq<string>, customs: seq<MenuItem>, x: MenuItem)
    requires x in AllItems(FeaturedArrangement(menu, names, customs))
    ensures x in AllItems(menu) || x in customs
  {
    var d := SectionItems(menu, "default");
    var split := SplitFeatured(d, names);
    PlacedItemsFrom(menu, split.featured + customs, split.rest, x);
    if x in split.featured || x in split.rest {
      SplitPreserves(d, names);
      assert x in multiset(split.featured) + multiset(split.rest);
      assert x in d;
      SectionItemsInMenu(menu, "default", x);
    }
  }

  lemma PlainItemsFrom(menu: seq<Section>, x: MenuItem)
    requires x in AllItems(PlainArrangement(menu))
    ensures x in AllItems(menu)
  {
    var d := SectionItems(menu, "default");
    if |d| > MaxDisplayItems + 1 {
      var withDefault := SetSection(menu, "default", d[..MaxDisplayItems]);
      if x !in AllItems(withDefault) {
        SetSectionItems(withDefault, "more", d[MaxDisplayItems..], x);
      } else {
        SetSectionItems(menu, "default", d[..MaxDisplayItems], x);
      }
      if x in AllItems(menu) {
      } else {
        assert x in d;
        SectionItemsInMenu(menu, "default", x);
      }
    }
  }

  /**
   * The first half of the setup: the featured split and the custom items,
   * or the five-item limit.
   */
  method ArrangeSections(menu: seq<Section>, featuredNames: seq<string>, customItems: seq<(string, string)>,
                         normalizeUrl: string -> string)
    returns (r: seq<Section>, customs: seq<MenuItem>)
    ensures |customs| == |customItems|
    ensures forall i :: 0 <= i < |customs| ==>
      fresh(customs[i]) && customs[i].name == CustomName(i + 1) &&
      customs[i].text == customItems[i].0 && customs[i].href == normalizeUrl(customItems[i].1) &&
      !customs[i].selected && customs[i].parent == null && customs[i].childOptions == map[]
    ensures r == Arranged(menu, featuredNames, customs)
    ensures forall x | x in AllItems(r) :: x in AllItems(menu) || x in customs
    ensures forall x | x in AllItems(r) :: if old(allocated(x)) then x.selected == old(x.selected) else !x.selected
  {
    AllItemsAllocated(menu);
    if featuredNames != [] || customItems != [] {
      var registered := SectionItems(menu, "default");
      var featured, rest := SplitFeaturedItems(registered, featuredNames);
      customs := MakeCustomItems(customItems, normalizeUrl);
      r := SetSection(menu, "default", featured + customs);
      if |rest| > 0 {
        r := SetSection(r, "more", rest);
      }
    } else {
      customs := [];
      var registered := SectionItems(menu, "default");
      r := menu;
      if |registered| > MaxDisplayItems + 1 {
        r := SetSection(r, "default", registered[..MaxDisplayItems]);
        r := SetSection(r, "more", registered[MaxDisplayItems..]);
      }
    }
    forall x | x in AllItems(r)
      ensures x in AllItems(menu) || x in customs
      ensures if old(allocated(x)) then x.selected == old(x.selected) else !x.selected
    {
      ArrangedItemsFrom(menu, featuredNames, customs, x);
      if !old(allocated(x)) {
        assert x in customs;
        var i :| 0 <= i < |customs| && customs[i] == x;
      }
    }
  }

  // ---------------------------------------------------------------------
  // Fallback selection

  /** strpos($href, $siteUrl) === 0, where PHP 7 answers false for an empty needle. */
  predicate Internal(href: string, siteUrl: string) {
    siteUrl != "" && StartsWith(href, siteUrl)
  }

  /** An internal item named after the context or linking to the current page. */
  predicate FallbackMatch(item: MenuItem, siteUrl: string, context: string, currentUrl: string) {
    Internal(item.href, siteUrl) && (item.name == context || item.href == currentUrl)
  }

  /** Position of the first item the fallback would select, or |items| when none qualifies. */
  function FallbackIndex(items: seq<MenuItem>, siteUrl: string, context: string, currentUrl: string): (k: nat)
    ensures k <= |items|
    ensures k < |items| ==> FallbackMatch(items[k], siteUrl, context, currentUrl)
    ensures forall j :: 0 <= j < k ==> !FallbackMatch(items[j], siteUrl, context, currentUrl)
  {
    if items == [] then 0
    else if FallbackMatch(items[0], siteUrl, context, currentUrl) then 0
    else 1 + FallbackIndex(items[1..], siteUrl, context, currentUrl)
  }

  /**
   * The selected flags after the fallback pass, given the flags before it:
   * when some item is selected nothing changes; otherwise the first
   * qualifying item becomes selected (at every place it appears).
   */
  function FallbackFlags(items: seq<MenuItem>, flags: seq<bool>, siteUrl: string, context: string, currentUrl: string): (r: seq<bool>)
    requires |flags| == |items|
    ensures |r| == |items|
  {
    if exists j :: 0 <= j < |flags| && flags[j] then flags
    else
      var k := FallbackIndex(items, siteUrl, context, currentUrl);
      if k == |items| then flags
      else WithSelected(items, flags, items[k])
  }

  /**
   * The fallback pass changes nothing when an item is already selected,
   * never clears a flag, and selects at most one item: the first internal
   * item named after the context or linking to the current page.
   */
  lemma FallbackSelectsAtMostOne(items: seq<MenuItem>, flags: seq<bool>, siteUrl: string, context: string, currentUrl: string)
    requires |flags| == |items|
    ensures var r := FallbackFlags(items, flags, siteUrl, context, currentUrl);
      var k := FallbackIndex(items, siteUrl, context, currentUrl);
      ((exists j :: 0 <= j < |flags| && flags[j]) ==> r == flags) &&
      (forall j :: 0 <= j < |r| && flags[j] ==> r[j]) &&
      (forall i, j :: 0 <= i < |r| && 0 <= j < |r| && r[i] != flags[i] && r[j] != flags[j] ==> items[i] == items[j]) &&
      (forall j :: 0 <= j < |r| && r[j] != flags[j] ==>
        k < |items| && FallbackMatch(items[j], siteUrl, context, currentUrl) && items[j] == items[k]) &&
      ((forall j :: 0 <= j < |flags| ==> !flags[j]) && k < |items| ==> r[k])
  {
  }

  lemma FallbackKeepsSelection(items: seq<MenuItem>, flags: seq<bool>, siteUrl: string, context: string, currentUrl: string, j: nat)
    requires |flags| == |items| && j < |flags| && flags[j]
    ensures FallbackFlags(items, flags, siteUrl, context, currentUrl) == flags
  {
  }

  lemma FallbackWithoutSelection(items: seq<MenuItem>, flags: seq<bool>, siteUrl: string, context: string, currentUrl: string)
    requires |flags| == |items| && forall j :: 0 <= j < |flags| ==> !flags[j]
    ensures var k := FallbackIndex(items, siteUrl, context, currentUrl);
      FallbackFlags(items, flags, siteUrl, context, currentUrl) ==
        if k == |items| then flags else WithSelected(items, flags, items[k])
  {
  }

  /** The flags once item is selected: every place holding it reads true. */
  function WithSelected(items: seq<MenuItem>, flags: seq<bool>, item: MenuItem): (r: seq<bool>)
    requires |flags| == |items|
    ensures |r| == |items|
    ensures forall j :: 0 <= j < |r| ==> r[j] == (flags[j] || items[j] == item)
  {
    seq(|items|, j requires 0 <= j < |items| => flags[j] || items[j] == item)
  }

  /** $item->setSelected(true), seen through a list of items. */
  method Select(ghost items: seq<MenuItem>, item: MenuItem)
    modifies item`selected
    ensures Flags(items) == WithSelected(items, old(Flags(items)), item)
  {
    item.selected := true;
  }

  /** The loop looking for a selected item. */
  method HasSelection(menu: seq<Section>) returns (b: bool)
    ensures b <==> exists j :: 0 <= j < |AllItems(menu)| && AllItems(menu)[j].selected
  {
    var s := 0;
    while s < |menu|
      invariant 0 <= s <= |menu|
      invariant |AllItems(menu[..s])| <= |AllItems(menu)|
      invariant forall j :: 0 <= j < |AllItems(menu[..s])| ==> !AllItems(menu)[j].selected
    {
      var items := menu[s].items;
      ghost var start := |AllItems(menu[..s])|;
      AllItemsStep(menu, s);
      var i := 0;
      while i < |items|
        invariant 0 <= i <= |items|
        invariant start + i <= |AllItems(menu)|
        invariant forall j :: 0 <= j < start + i ==> !AllItems(menu)[j].selected
      {
        AllItemsAt(menu, s, i);
        if items[i].selected {
          return true;
        }
        i := i + 1;
      }
      s := s + 1;
    }
    AllItemsWhole(menu);
    b := false;
  }

  /** The loop looking for the fallback item. */
  method FindFallback(menu: seq<Section>, siteUrl: string, context: string, currentUrl: string) returns (found: MenuItem?)
    ensures var k := FallbackIndex(AllItems(menu), siteUrl, context, currentUrl);
      found == if k < |AllItems(menu)| then AllItems(menu)[k] else null
  {
    var s := 0;
    while s < |menu|
      invariant 0 <= s <= |menu|
      invariant |AllItems(menu[..s])| <= |AllItems(menu)|
      invariant forall j :: 0 <= j < |AllItems(menu[..s])| ==>
        !FallbackMatch(AllItems(menu)[j], siteUrl, context, currentUrl)
    {
      var items := menu[s].items;
      ghost var start := |AllItems(menu[..s])|;
      AllItemsStep(menu, s);
      var i := 0;
      while i < |items|
        invariant 0 <= i <= |items|
        invariant start + i <= |AllItems(menu)|
        invariant forall j :: 0 <= j < start + i ==>
          !FallbackMatch(AllItems(menu)[j], siteUrl, context, currentUrl)
      {
        AllItemsAt(menu, s, i);
        var item := items[i];
        if StartsWith(item.href, siteUrl) && siteUrl != "" {
          if item.name == context {
            return item;
          }
          if item.href == currentUrl {
            return item;
          }
        }
        i := i + 1;
      }
      s := s + 1;
    }
    AllItemsWhole(menu);
    found := null;
  }

  /** The second half of the setup: select the fallback item when nothing is selected. */
  method SelectFallback(menu: seq<Section>, siteUrl: string, context: string, currentUrl: string)
    modifies (set x | x in AllItems(menu))`selected
    ensures Flags(AllItems(menu)) ==
      FallbackFlags(AllItems(menu), old(Flags(AllItems(menu))), siteUrl, context, currentUrl)
  {
    ghost var items := AllItems(menu);
    ghost var before := Flags(items);
    AllItemsAllocated(menu);
    var selected := HasSelection(menu);
    assert !selected ==> forall j :: 0 <= j < |items| ==> !items[j].selected;
    if selected {
      ghost var j :| 0 <= j < |items| && items[j].selected;
      FallbackKeepsSelection(items, before, siteUrl, context, currentUrl, j);
    } else {
      FallbackWithoutSelection(items, before, siteUrl, context, currentUrl);
      var item := FindFallback(menu, siteUrl, context, currentUrl);
      if item != null {
        Select(items, item);
      }
    }
  }

  /**
   * _elgg_site_menu_setup.  customs are the custom items it creates, and
   * before the selected flags of the arranged items before the fallback
   * pass: items that existed keep their flags until then, new ones start
   * unselected.  Items the arrangement drops from the menu keep their flags.
   */
  method SiteMenuSetup(menu: seq<Section>, featuredNames: seq<string>, customItems: seq<(string, string)>,
                       normalizeUrl: string -> string, siteUrl: string, context: string, currentUrl: string)
    returns (r: seq<Section>, ghost customs: seq<MenuItem>, ghost before: seq<bool>)
    modifies (set x | x in AllItems(menu))`selected
    ensures |customs| == |customItems|
    ensures forall i :: 0 <= i < |customs| ==>
      fresh(customs[i]) && customs[i].name == CustomName(i + 1) &&
      customs[i].text == customItems[i].0 && customs[i].href == normalizeUrl(customItems[i].1) &&
      customs[i].parent == null && customs[i].childOptions == map[]
    ensures r == Arranged(menu, featuredNames, customs)
    ensures |before| == |AllItems(r)|
    ensures forall j :: 0 <= j < |before| ==>
      var x := AllItems(r)[j];
      before[j] == if old(allocated(x)) then old(x.selected) else false
    ensures Flags(AllItems(r)) == FallbackFlags(AllItems(r), before, siteUrl, context, currentUrl)
    ensures forall i, j | 0 <= i < |menu| && 0 <= j < |menu[i].items| && menu[i].items[j] !in AllItems(r) ::
      menu[i].items[j].selected == old(menu[i].items[j].selected)
  {
    var cs;
    r, cs := ArrangeSections(menu, featuredNames, customItems, normalizeUrl);
    customs := cs;
    before := Flags(AllItems(r));
    SelectFallback(r, siteUrl, context, currentUrl);
  }
}
