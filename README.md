# Elgg navigation and private settings, modelled in Dafny

The model covers two parts of the Elgg social-networking platform.

**Navigation.** This is the menu registry, the breadcrumb stack and two
menu-preparation hooks from `engine/lib/navigation.php`:

- The registry is `$CONFIG->menus`. Items are registered, unregistered and
  looked up by name.
- Breadcrumbs are pushed and popped. Before display they are prepared: a
  linkless last crumb is dropped and every title becomes an excerpt.
- The site-menu setup fills the 'default' and 'more' sections. It uses the
  featured item names and custom items an administrator configured, or,
  when there are none, it applies the five-item limit. When nothing is
  selected it then selects one fallback item.
- The page-menu setup gives every item a child-menu display and expands the
  ancestors of the selected item.

Menu items are objects in the source, and the registry and the prepared
menus share them. So `Menus.MenuItem` is a class. Its selected flag, parent
and child-menu options are mutable fields. Its name, text and href are
constants, because the navigation code never changes them.

**Private settings.** This is `Elgg\Database\PrivateSettingsTable`: a store
of (entity GUID, name) → value rows with a per-entity settings cache in
front of it.

- `get` consults the cache first, then checks that the entity exists, then
  reads the row.
- `set`, `remove` and `removeAllForEntity` clear the entity's cache entry
  before they touch the rows.
- `getWhereSql` builds the SQL join and where fragments from the loosely
  typed filter options: name lists, value lists, name/value/operand pairs,
  a pair operator and a name prefix.
- `getEntities` merges those fragments into the options of an entity query.

PHP values are modelled by `PhpValues.Value`: null, booleans, integers,
strings, and ordered arrays with integer or string keys. The module also
gives PHP's truthiness, the string cast, `is_numeric` (PHP 7 rules) and
`array_merge`. `SettingsQuery` describes the fragments as functions of the
options. `PrivateSettings.PrivateSettingsTable.GetWhereSql` is a method with
the source's loops, and it is proved to compute exactly
`SettingsQuery.WhereSql`.

The builder's pairs loop reuses the variable `$value`. So a pair whose value
is an empty array is compared against the value text left by the previous
pair. For the first pair it is the text the values loop left behind: the
last value, or "0" when that is falsy. With no values at all (null or an
empty list) `$value` was never set and reads as "". The model keeps this
behaviour as written (`SettingsQuery.EmptyArrayValueReusesPrevious`).

Inputs from outside the code become parameters:

- the database's `sanitizeString` and the database prefix;
- the item `ElggMenuItem::factory` builds;
- the URL normalisation a new `ElggMenuItem` applies to its href;
- `elgg_get_excerpt`;
- `_elgg_normalize_plural_options_array`;
- the site URL, the context and the current URL.

## Model

| member | source | states |
|---|---|---|
| Menus.MenuItem.constructor | engine/lib/navigation.php:428 | `new ElggMenuItem($name, $text, $href)`: the item carries the given name, text and href, is unselected, has no parent and no child-menu options |
| Menus.IndexOfName | engine/lib/navigation.php:134-141 | the position of the first item with the name, or the list length when none has it; every item before it has another name |
| Menus.RemoveAt | engine/lib/navigation.php:138 | `unset` of one list entry: one entry fewer, those before it unchanged, those after it shifted down one, order kept |
| Menus.RemoveAtMultiset | engine/lib/navigation.php:138 | the removed entry and the remaining list together are exactly the old list |
| Menus.SetSection | engine/lib/navigation.php:433-436 | `$menu[$n] = $items`: section n reads items afterwards and every other section reads as before |
| Menus.SetSectionNames | engine/lib/navigation.php:433-445 | assigning a section renames nothing, adds the name at the end only when it is new, and keeps section names distinct |
| Menus.SetSectionItems | engine/lib/navigation.php:433-445 | assigning a section brings in no item except the menu's own and the assigned ones |
| Menus.Flags | engine/lib/navigation.php:451-460 | the selected flags of a list of items, one per item and in order |
| MenuRegistry.WithItem | engine/lib/navigation.php:111-114 | registering creates the menu when it is missing, appends the item at its end, and leaves every other menu unchanged |
| MenuRegistry.MenuOf | engine/lib/navigation.php:111-114 | the items of one menu, where a menu never registered has none |
| MenuRegistry.ResolvedItem | engine/lib/navigation.php:95-110 | the item an argument stands for: an item as given, the item the factory built from options, or null for anything else, which register refuses |
| MenuRegistry.Unregistered | engine/lib/navigation.php:127-144 | no item comes back exactly when no item of the menu has the name, and then the registry is unchanged; otherwise the first item with the name comes back and only that entry is removed |
| MenuRegistry.UnregisterRemovesOne | engine/lib/navigation.php:134-141 | unregistering keeps the menu names and the other menus; the returned item plus what remains is the old menu, as a multiset |
| MenuRegistry.RegisterThenUnregister | engine/lib/navigation.php:93-144 | registering an item under a name the menu lacks, then unregistering that name, returns the item and restores the registry (a menu created by the registration remains, empty) |
| MenuRegistry.Registry.constructor | engine/lib/navigation.php:111 | the registry starts with no menus |
| MenuRegistry.Registry.Register | engine/lib/navigation.php:93-116 | true exactly when the argument is an item or options the factory turned into one; then the item is appended as `WithItem` says; a factory failure or a non-item returns false and changes nothing |
| MenuRegistry.Registry.Unregister | engine/lib/navigation.php:127-144 | the loop returns and removes exactly what `Unregistered` describes, including null and no change for a missing or empty menu |
| MenuRegistry.Registry.IsRegistered | engine/lib/navigation.php:155-170 | true if and only if the menu exists and some item in it has the name |
| MenuRegistry.Registry.GetItem | engine/lib/navigation.php:181-196 | null if and only if the menu is missing or no item has the name; otherwise the first item with that name |
| Breadcrumbs.PopOf | engine/lib/navigation.php:262-273 | popping an empty stack gives nothing and leaves it empty; otherwise the popped crumb put back on top restores the stack |
| Breadcrumbs.Linkless | engine/lib/navigation.php:338 | `empty($last_crumb['link'])`: the crumb's link is falsy |
| Breadcrumbs.PushThenPop | engine/lib/navigation.php:250-273 | a push followed by a pop returns the pushed crumb and restores the stack |
| Breadcrumbs.BreadcrumbStack.constructor | engine/lib/navigation.php:251 | an unset breadcrumbs entry is the empty stack |
| Breadcrumbs.BreadcrumbStack.Push | engine/lib/navigation.php:250-254 | the crumb with the title and link goes on top of the stack |
| Breadcrumbs.BreadcrumbStack.Pop | engine/lib/navigation.php:262-273 | returns the top crumb and leaves the stack below it, or returns nothing on an empty stack, as `PopOf` says |
| Breadcrumbs.PrepareBreadcrumbs | engine/lib/navigation.php:335-347 | the last crumb is dropped if and only if there is one and its link is empty; every remaining crumb keeps its link and position, and its title becomes the 100-character excerpt |
| PageMenu.WithDefaultDisplay | engine/lib/navigation.php:499-502 | the options afterwards have a non-empty display; options that had one are unchanged; otherwise display becomes 'toggle' and every other option stays as it was |
| PageMenu.HasDisplay | engine/lib/navigation.php:500 | `!empty($options['display'])` |
| PageMenu.SetSectionDisplays | engine/lib/navigation.php:497-505 | the inner loop moves each item of a section to its default display and leaves the other items' options alone |
| PageMenu.SetMenuDisplays | engine/lib/navigation.php:496-506 | after the outer loop, every item of the menu has its default display |
| PageMenu.SetChildDisplays | engine/lib/navigation.php:496-506 | every item of every section ends with `WithDefaultDisplay` of its old options; an item listed twice is not changed twice |
| PageMenu.SelectAncestors | engine/lib/navigation.php:509-515 | the parent walk marks every ancestor of the selected item as selected |
| PageMenu.AncestorChain | engine/lib/navigation.php:509-515 | the chain of parents that the while loop walks, nearest first, ending at an item with no parent |
| PageMenu.PageMenuSetup | engine/lib/navigation.php:493-518 | returns the menu; every item gets its default display; with a selected item every ancestor is selected; the flags of items that are not ancestors, and all parents, stay as they were |
| SiteMenu.Named | engine/lib/navigation.php:417-421 | the items taken for one featured name all have that name |
| SiteMenu.Unnamed | engine/lib/navigation.php:417-421 | the items the inner loop leaves registered for one featured name: those not called that name, in order |
| SiteMenu.SplitFeatured | engine/lib/navigation.php:414-423 | the featured list and the remaining registered items after the nested loop, name by name; its meaning is stated by `SplitRest`, `SplitFeaturedOrder` and `SplitPreserves` |
| SiteMenu.Keep | engine/lib/navigation.php:416-423 | what stays registered has none of the featured names |
| SiteMenu.NamedSplit | engine/lib/navigation.php:417-421 | for one name, the items taken and the items kept together are the registered items, as a multiset |
| SiteMenu.UnnamedKeep | engine/lib/navigation.php:416-423 | taking one more name from the kept items is keeping the items free of one more name |
| SiteMenu.NamedKeep | engine/lib/navigation.php:416-423 | a later name takes, from what remains, all items of that name, or none if an earlier name was the same |
| SiteMenu.SplitRest | engine/lib/navigation.php:416-423 | after the featured loop, what remains is the default section without the items of any featured name, in order |
| SiteMenu.SplitFeaturedOrder | engine/lib/navigation.php:416-423 | the featured list holds all items of the first featured name, then of the second, and so on, in section order; a repeated name adds nothing |
| SiteMenu.SplitPreserves | engine/lib/navigation.php:416-423 | the featured items and the remaining items together are the default section, as a multiset |
| SiteMenu.TakeNamed | engine/lib/navigation.php:417-422 | the inner loop takes exactly the items with the name and keeps the others, in order |
| SiteMenu.SplitFeaturedItems | engine/lib/navigation.php:416-423 | the nested loops compute the featured split the lemmas above describe |
| SiteMenu.CustomNamesDistinct | engine/lib/navigation.php:426-431 | custom items with different numbers get different names `custom$n` |
| SiteMenu.CustomName | engine/lib/navigation.php:428 | the name "custom$n" of the n-th custom item |
| SiteMenu.MakeCustomItems | engine/lib/navigation.php:426-431 | one new unselected item per configured title and URL, in order, named custom1, custom2, …, with the normalised URL as its href |
| SiteMenu.Placed | engine/lib/navigation.php:433-436 | 'default' becomes the shown items; 'more' becomes the rest only when the rest is non-empty; every other section is unchanged |
| SiteMenu.PlacedItemsFrom | engine/lib/navigation.php:433-436 | placing brings in no item except the menu's own, the shown ones and the rest |
| SiteMenu.PlacedNames | engine/lib/navigation.php:433-436 | placing keeps section names distinct |
| SiteMenu.ArrangedPlain | engine/lib/navigation.php:437-446 | with nothing featured or custom, a default section of more than six items keeps its first five, and the rest move to 'more' in order; a shorter one leaves the menu unchanged |
| SiteMenu.Arranged | engine/lib/navigation.php:406-447 | the sections after the first half of the setup: the featured branch when featured names or custom items are configured, otherwise the five-item limit; stated by `ArrangedFeatured` and `ArrangedPlain` |
| SiteMenu.FeaturedArrangement | engine/lib/navigation.php:408-436 | the featured branch: the featured items and the customs become 'default', the rest 'more' when non-empty |
| SiteMenu.PlainArrangement | engine/lib/navigation.php:437-446 | the branch without featured or custom items: `array_splice` at five when there are more than six items |
| SiteMenu.ArrangedFeatured | engine/lib/navigation.php:408-436 | with featured names or custom items, 'default' becomes the featured items in name order followed by the custom items; 'more' becomes the remaining items only when there are any; no default item is lost or duplicated |
| SiteMenu.ArrangedDistinct | engine/lib/navigation.php:408-447 | the arranged menu keeps section names distinct |
| SiteMenu.ArrangedItemsFrom | engine/lib/navigation.php:408-447 | the arranged menu contains no item except the menu's own and the custom ones |
| SiteMenu.FeaturedItemsFrom | engine/lib/navigation.php:408-436 | the featured branch contains no item except the menu's own and the custom ones |
| SiteMenu.PlainItemsFrom | engine/lib/navigation.php:437-446 | the five-item limit contains no item except the menu's own |
| SiteMenu.ArrangeSections | engine/lib/navigation.php:406-447 | the first half of the setup computes `Arranged` with custom items numbered from 1; old items keep their selected flags and the new ones start unselected |
| SiteMenu.FallbackIndex | engine/lib/navigation.php:465-479 | the first item that is internal and named after the context or linking to the current URL; every item before it fails the test |
| SiteMenu.Internal | engine/lib/navigation.php:468 | `strpos($href, $site_url) === 0`, which PHP 7 answers false for an empty site URL |
| SiteMenu.FallbackMatch | engine/lib/navigation.php:468-476 | an internal item named after the context or linking to the current URL |
| SiteMenu.FallbackFlags | engine/lib/navigation.php:449-480 | the flags after the fallback pass given those before it: unchanged when any is set, else the first matching item becomes selected; stated by `FallbackSelectsAtMostOne`, `FallbackKeepsSelection` and `FallbackWithoutSelection` |
| SiteMenu.FallbackSelectsAtMostOne | engine/lib/navigation.php:449-480 | with an item already selected nothing changes; no flag is cleared; all flags that change belong to one item, the first internal match; with nothing selected that item becomes selected |
| SiteMenu.FallbackKeepsSelection | engine/lib/navigation.php:462 | one selected flag is enough to leave all flags as they are |
| SiteMenu.FallbackWithoutSelection | engine/lib/navigation.php:462-480 | with no flag set, exactly the first matching item becomes selected, or nothing when none matches |
| SiteMenu.WithSelected | engine/lib/navigation.php:470-475 | selecting an item sets the flag at every place it appears and no other flag |
| SiteMenu.Select | engine/lib/navigation.php:470-475 | `setSelected(true)` on one item, seen as the flags of a list of items: `WithSelected` of the old flags |
| SiteMenu.HasSelection | engine/lib/navigation.php:449-460 | true if and only if some item of some section is selected |
| SiteMenu.FindFallback | engine/lib/navigation.php:464-479 | the nested loops return the item at `FallbackIndex`, or null when no item qualifies |
| SiteMenu.SelectFallback | engine/lib/navigation.php:449-480 | the flags afterwards are `FallbackFlags` of the flags before: unchanged when something was selected, else the first match selected |
| SiteMenu.SiteMenuSetup | engine/lib/navigation.php:404-483 | the returned menu is `Arranged`; its flags before the fallback pass are the old flags of old items and false for custom items; afterwards they are `FallbackFlags` of those; items the arrangement drops from the menu keep their flags |
| Common.NatToString | engine/lib/navigation.php:428 | the decimal text of a number, as in "custom$n" and "ps{$i}": a non-empty string of digits |
| Common.NatToStringRoundTrip | engine/classes/Elgg/Database/PrivateSettingsTable.php:280-284 | the decimal text reads back as the number |
| Common.NatToStringInjective | engine/classes/Elgg/Database/PrivateSettingsTable.php:280-284 | different numbers have different decimal texts, so the join aliases ps1, ps2, … are distinct |
| Common.Lower | engine/classes/Elgg/Database/PrivateSettingsTable.php:247 | strtolower: same length, no ASCII capital left, every other character unchanged |
| Common.TrimLeft | engine/classes/Elgg/Database/PrivateSettingsTable.php:247 | a suffix of the string that does not start with a trim character; everything cut off is trim characters |
| Common.TrimRight | engine/classes/Elgg/Database/PrivateSettingsTable.php:247 | a prefix of the string that does not end with a trim character; everything cut off is trim characters |
| Common.Trim | engine/classes/Elgg/Database/PrivateSettingsTable.php:247 | trim: the result neither starts nor ends with a trim character |
| Common.Join | engine/classes/Elgg/Database/PrivateSettingsTable.php:176 | implode(sep, parts): the parts with sep between neighbours, "" for none |
| Common.IntToString | engine/classes/Elgg/Database/PrivateSettingsTable.php:195 | the string cast of an integer: its decimal digits, "-" first when negative |
| Common.JoinStartsWith | engine/classes/Elgg/Database/PrivateSettingsTable.php:289-297 | implode of a non-empty list starts with the first part's first character |
| PhpValues.Lookup | engine/classes/Elgg/Database/PrivateSettingsTable.php:116-131 | `$a[$k]` is null or a value stored under k |
| PhpValues.ToStr | engine/classes/Elgg/Database/PrivateSettingsTable.php:195 | the (string) cast: "" for null and false, "1" for true, decimal digits for an integer, the string itself, "Array" for an array |
| PhpValues.Truthy | engine/classes/Elgg/Database/PrivateSettingsTable.php:192 | PHP truthiness: false exactly for null, false, 0, "", "0" and the empty array |
| PhpValues.StrTruthy | engine/classes/Elgg/Database/PrivateSettingsTable.php:177 | the truthiness of a string: false exactly for "" and "0" |
| PhpValues.KeyValue | engine/classes/Elgg/Database/PrivateSettingsTable.php:229 | a foreach key read back as a value: an integer key as an integer, a string key as a string |
| PhpValues.Field | engine/classes/Elgg/Database/PrivateSettingsTable.php:235 | `$v[$name]`, null when v is not an array or has no such key |
| PhpValues.IsSet | engine/classes/Elgg/Database/PrivateSettingsTable.php:235 | `isset($v[$name])` for an array v: the key holds a non-null value |
| PhpValues.AsList | engine/classes/Elgg/Database/PrivateSettingsTable.php:166-168 | an array's values in order, or a list of one for any other value |
| PhpValues.NumericFrom | engine/classes/Elgg/Database/PrivateSettingsTable.php:251 | the scanner of is_numeric for strings, one state per position: leading whitespace, sign, digits, fraction, exponent, and nothing after |
| PhpValues.IsNumeric | engine/classes/Elgg/Database/PrivateSettingsTable.php:251 | is_numeric under PHP 7: every integer and every numeric string; null, booleans and arrays are not numeric |
| PhpValues.SetString | engine/classes/Elgg/Database/PrivateSettingsTable.php:122 | `$a[$s] = $v`: overwrites the entry with key s in place, or appends one |
| PhpValues.MergeEntries | engine/classes/Elgg/Database/PrivateSettingsTable.php:97 | the loop of array_merge: integer keys are renumbered from the counter, string keys overwrite or append |
| PhpValues.ArrayMerge | engine/classes/Elgg/Database/PrivateSettingsTable.php:97 | array_merge($a, $b): the merge loop over a followed by b, from an empty array and the counter 0 |
| PhpValues.ArrayMergeStringLookup | engine/classes/Elgg/Database/PrivateSettingsTable.php:97 | for arrays with distinct string keys, array_merge holds under a string key the second array's value when it has the key and the first's otherwise |
| PhpValues.MergeEntriesStringLookup | engine/classes/Elgg/Database/PrivateSettingsTable.php:97 | the merge loop stores under a string key the value of the entries when they have that key, and what it started with otherwise |
| PhpValues.Values | engine/classes/Elgg/Database/PrivateSettingsTable.php:171 | the values of an array in foreach order |
| PhpValues.ListOf | engine/classes/Elgg/Database/PrivateSettingsTable.php:117 | a PHP list holds its values under the keys 0, 1, 2, … |
| PhpValues.SetStringAppends | engine/classes/Elgg/Database/PrivateSettingsTable.php:119 | assigning a new string key appends the entry at the end |
| PhpValues.SetStringLookup | engine/classes/Elgg/Database/PrivateSettingsTable.php:122 | assigning a string key changes what is stored under it and nothing else |
| PhpValues.MergeEntriesValues | engine/classes/Elgg/Database/PrivateSettingsTable.php:97 | array_merge over distinct string keys keeps every value, in order |
| PhpValues.ArrayMergeAppendsList | engine/classes/Elgg/Database/PrivateSettingsTable.php:122 | array_merge of an array with a list gives the array's values followed by the list's |
| SettingsQuery.QuoteNames | engine/classes/Elgg/Database/PrivateSettingsTable.php:170-175 | each name, with the prefix in front, sanitised and quoted, one per name |
| SettingsQuery.QuoteValues | engine/classes/Elgg/Database/PrivateSettingsTable.php:189-196 | each value sanitised and quoted, with '0' in place of a falsy one |
| SettingsQuery.OptionList | engine/classes/Elgg/Database/PrivateSettingsTable.php:165-168 | the names or values option as the list it stands for: none for null, a list of one for a scalar |
| SettingsQuery.NamesWhere | engine/classes/Elgg/Database/PrivateSettingsTable.php:164-180 | "(ps.name IN (…))" over the quoted names, or "" for null or when the list is empty |
| SettingsQuery.ValuesWhere | engine/classes/Elgg/Database/PrivateSettingsTable.php:183-202 | "(ps.value IN (…))" over the quoted values, or "" for null or when the list is empty |
| SettingsQuery.NameValueWheres | engine/classes/Elgg/Database/PrivateSettingsTable.php:204-210 | the if/elseif chain: both clauses ANDed, or whichever one is present, or nothing |
| SettingsQuery.PairList | engine/classes/Elgg/Database/PrivateSettingsTable.php:213-222 | the pairs option as a list: nothing for a non-array, a list of one for a bare pair that sets a name or a value |
| SettingsQuery.AsPair | engine/classes/Elgg/Database/PrivateSettingsTable.php:227-232 | the `k => v` shortcut produces an array pair: for a non-array entry its name is the key and its value the entry; an array entry is the pair itself |
| SettingsQuery.Complete | engine/classes/Elgg/Database/PrivateSettingsTable.php:235 | a pair is used only when its name and value are both set |
| SettingsQuery.Operand | engine/classes/Elgg/Database/PrivateSettingsTable.php:240-244 | the sanitised operand option, or " = " when none is set |
| SettingsQuery.InListItem | engine/classes/Elgg/Database/PrivateSettingsTable.php:257-261 | a member of an IN list: sanitised and bare when numeric, quoted otherwise |
| SettingsQuery.Compare | engine/classes/Elgg/Database/PrivateSettingsTable.php:240-275 | the operand and value text of one pair: IN and the listed members for an array value, which keeps the previous text when empty; the operand and the sanitised number for a numeric value; "(value)" under an "in" operand; the sanitised, quoted value otherwise; stated by `PairComparison`, `InListQuoting` and `EmptyArrayValueReusesPrevious` |
| SettingsQuery.UsedPairs | engine/classes/Elgg/Database/PrivateSettingsTable.php:224-238 | the pairs the loop uses, in entry order: each entry through the `k => v` shortcut, kept only when complete; stated by `UsedPairsComplete` and `IncompletePairSkipped` |
| SettingsQuery.CarriedValue | engine/classes/Elgg/Database/PrivateSettingsTable.php:184-196 | the text `$value` holds when the pairs loop starts; stated by `CarriedValueIsLastValue` |
| SettingsQuery.ThreadedValue | engine/classes/Elgg/Database/PrivateSettingsTable.php:251-275 | the text `$value` holds after each used pair: the carried text before the first, then each pair's comparison value in turn |
| SettingsQuery.BaseJoin | engine/classes/Elgg/Database/PrivateSettingsTable.php:158-159 | the join of the settings table as ps on the entity's GUID |
| SettingsQuery.PairJoin | engine/classes/Elgg/Database/PrivateSettingsTable.php:280-281 | the join of the settings table as ps{i} for the i-th used pair |
| SettingsQuery.PairWhere | engine/classes/Elgg/Database/PrivateSettingsTable.php:283-284 | the clause of the i-th used pair: its name test, then the operand and the value text |
| SettingsQuery.WhereSql | engine/classes/Elgg/Database/PrivateSettingsTable.php:148-301 | getWhereSql as a function of its options: the base join and one join per used pair, and at most one where clause over the names/values clauses and the pair clauses; stated by `JoinsNumbered`, `WheresAtMostOne`, `PairClausesNamePrefixed` and the lemmas after them |
| SettingsQuery.InListItems | engine/classes/Elgg/Database/PrivateSettingsTable.php:256-262 | one IN-list member per element of an array value |
| SettingsQuery.PairComparison | engine/classes/Elgg/Database/PrivateSettingsTable.php:240-275 | an array value forces IN and lists its members; a number is compared unquoted; the operand is " = " unless the pair names one; other values are sanitised and quoted, unless the operand trims and lower-cases to "in", when the value is parenthesised as given, unsanitised |
| SettingsQuery.InListQuoting | engine/classes/Elgg/Database/PrivateSettingsTable.php:256-262 | members of an IN list are bare when numeric and quoted otherwise |
| SettingsQuery.UsedPairsComplete | engine/classes/Elgg/Database/PrivateSettingsTable.php:234-238 | every pair that is used has a name and a value, and no more pairs are used than there are entries |
| SettingsQuery.JoinsNumbered | engine/classes/Elgg/Database/PrivateSettingsTable.php:158-159 | the base join comes first and each used pair adds one join, numbered ps1, ps2, … consecutively |
| SettingsQuery.IncompletePairSkipped | engine/classes/Elgg/Database/PrivateSettingsTable.php:234-238 | an entry missing a name or value, wherever it is, adds no join and no clause and uses up no number |
| SettingsQuery.WhereSqlDependsOnUsedPairs | engine/classes/Elgg/Database/PrivateSettingsTable.php:213-293 | the fragments depend on the pairs only through the pairs used |
| SettingsQuery.PairClausesNamePrefixed | engine/classes/Elgg/Database/PrivateSettingsTable.php:277-284 | the clause of the j-th used pair starts with ps{j+1} and its prefixed, sanitised name |
| SettingsQuery.EmptyArrayValueReusesPrevious | engine/classes/Elgg/Database/PrivateSettingsTable.php:253-270 | a pair whose value is an empty array is compared with IN against the value text left by the previous used pair, or, for the first, against what the values loop left (see `CarriedValueIsLastValue`) |
| SettingsQuery.CarriedValueIsLastValue | engine/classes/Elgg/Database/PrivateSettingsTable.php:184-196 | after the values loop the shared variable holds the last value's text, "0" for a falsy one; with no values (null or an empty list) it was never set and reads as "" |
| SettingsQuery.NamesWhereTruthy | engine/classes/Elgg/Database/PrivateSettingsTable.php:164-180 | the names clause is present if and only if some name is given |
| SettingsQuery.ValuesWhereTruthy | engine/classes/Elgg/Database/PrivateSettingsTable.php:183-202 | the values clause is present if and only if some value is given |
| SettingsQuery.NameValueWheresShape | engine/classes/Elgg/Database/PrivateSettingsTable.php:204-210 | names and values together give at most one parenthesised clause, present if and only if either list is non-empty |
| SettingsQuery.PairsWhereShape | engine/classes/Elgg/Database/PrivateSettingsTable.php:213-293 | the pairs give at most one parenthesised clause, present if and only if some pair is used |
| SettingsQuery.WheresAtMostOne | engine/classes/Elgg/Database/PrivateSettingsTable.php:295-298 | the result holds at most one where clause, and none if and only if there are no names, no values and no used pairs |
| SettingsQuery.BarePairIsListOfOne | engine/classes/Elgg/Database/PrivateSettingsTable.php:218-220 | a bare pair gives the same fragments as a list holding just that pair |
| SettingsQuery.ShortcutIsNameValuePair | engine/classes/Elgg/Database/PrivateSettingsTable.php:227-232 | a non-array entry `k => v` gives the same fragments as the pair with name k and value v |
| PrivateSettings.SettingsIn | engine/classes/Elgg/Database/PrivateSettingsTable.php:366-372 | an entity's settings by name hold exactly that entity's rows |
| PrivateSettings.Upsert | engine/classes/Elgg/Database/PrivateSettingsTable.php:393-398 | INSERT … ON DUPLICATE KEY UPDATE: the row holds the value afterwards and every other row is unchanged |
| PrivateSettings.DeleteKey | engine/classes/Elgg/Database/PrivateSettingsTable.php:421-425 | exactly the row for that entity and name is gone |
| PrivateSettings.DeleteEntity | engine/classes/Elgg/Database/PrivateSettingsTable.php:444-447 | exactly the rows of that entity are gone |
| PrivateSettings.UpsertSettings | engine/classes/Elgg/Database/PrivateSettingsTable.php:385-408 | after a set, the entity's settings show the new value and are otherwise unchanged |
| PrivateSettings.UpsertOtherSettings | engine/classes/Elgg/Database/PrivateSettingsTable.php:385-408 | a set leaves every other entity's settings alone |
| PrivateSettings.DeleteKeySettings | engine/classes/Elgg/Database/PrivateSettingsTable.php:417-432 | remove takes only that name out of the entity's settings |
| PrivateSettings.DeleteKeyOtherSettings | engine/classes/Elgg/Database/PrivateSettingsTable.php:417-432 | remove leaves every other entity's settings alone |
| PrivateSettings.DeleteEntitySettings | engine/classes/Elgg/Database/PrivateSettingsTable.php:440-453 | removeAllForEntity leaves the entity with no settings |
| PrivateSettings.DeleteEntityOtherSettings | engine/classes/Elgg/Database/PrivateSettingsTable.php:440-453 | removeAllForEntity leaves every other entity's settings alone |
| PrivateSettings.UpsertThenDelete | engine/classes/Elgg/Database/PrivateSettingsTable.php:385-432 | set followed by remove is remove alone, and restores the table when the row was new |
| PrivateSettings.UpsertTwice | engine/classes/Elgg/Database/PrivateSettingsTable.php:393-398 | setting a name twice keeps the last value and adds no second row |
| PrivateSettings.SanitiseNames | engine/classes/Elgg/Database/PrivateSettingsTable.php:170-175 | the names loop computes `QuoteNames` |
| PrivateSettings.SanitiseValues | engine/classes/Elgg/Database/PrivateSettingsTable.php:189-196 | the values loop computes `QuoteValues`, and its loop variable ends holding the last normalised value |
| PrivateSettings.InListValues | engine/classes/Elgg/Database/PrivateSettingsTable.php:254-262 | the loop over an array value computes `InListItems` |
| PrivateSettings.NamesClause | engine/classes/Elgg/Database/PrivateSettingsTable.php:164-180 | computes the names clause, or "" with no names |
| PrivateSettings.ValuesClause | engine/classes/Elgg/Database/PrivateSettingsTable.php:183-202 | computes the values clause, or "" with no values, and the value text carried into the pairs loop |
| PrivateSettings.ComparePair | engine/classes/Elgg/Database/PrivateSettingsTable.php:240-275 | computes the operand and value text that `Compare` describes, including the carried value for an empty array |
| PrivateSettings.PairsLoopBody | engine/classes/Elgg/Database/PrivateSettingsTable.php:224-287 | one pass adds a join and a clause for a complete pair, and nothing for an incomplete one, keeping the counter one past the pairs used |
| PrivateSettings.PairsLoop | engine/classes/Elgg/Database/PrivateSettingsTable.php:215-287 | the pairs loop yields one numbered join and one clause per used pair |
| PrivateSettings.NameValueClauses | engine/classes/Elgg/Database/PrivateSettingsTable.php:204-210 | combines the names and values clauses as `NameValueWheres` |
| PrivateSettings.PairsClauses | engine/classes/Elgg/Database/PrivateSettingsTable.php:213-293 | non-array pairs add nothing; a bare pair is a list of one; the clauses are joined with the pair operator |
| PrivateSettings.Strs | engine/classes/Elgg/Database/PrivateSettingsTable.php:122 | the fragments as PHP strings, one per fragment |
| PrivateSettings.OptionEntries | engine/classes/Elgg/Database/PrivateSettingsTable.php:116-120 | the wheres or joins option as the list the fragments are merged into: a scalar as a list of one, an unset option as none; stated by `OptionEntriesWrapsScalar` |
| PrivateSettings.MergeInto | engine/classes/Elgg/Database/PrivateSettingsTable.php:116-131 | `$options[$key] = array_merge(<the option as a list>, $fragments)`; stated by `MergeIntoAppends` |
| PrivateSettings.MergeIntoAppends | engine/classes/Elgg/Database/PrivateSettingsTable.php:116-131 | after the merge the option is an array of the caller's values followed by the fragments; other options are unchanged |
| PrivateSettings.OptionEntriesWrapsScalar | engine/classes/Elgg/Database/PrivateSettingsTable.php:116-120 | a scalar option is merged as the list holding it, an unset one as the empty list |
| PrivateSettings.MergedQueryOptions | engine/classes/Elgg/Database/PrivateSettingsTable.php:114-134 | the options passed on hold the caller's wheres and joins first and the built ones after them; every other option is as the normalised options had it |
| PrivateSettings.CallerOptionsOverDefaults | engine/classes/Elgg/Database/PrivateSettingsTable.php:89-97 | `array_merge($defaults, $options)`: under every option name the caller's value wins, and a name the caller left out keeps its default |
| PrivateSettings.EntityTable.constructor | engine/classes/Elgg/Database/PrivateSettingsTable.php:321 | the entities table knows which GUIDs exist |
| PrivateSettings.PrivateSettingsTable.constructor | engine/classes/Elgg/Database/PrivateSettingsTable.php:48-53 | the table name is the database prefix followed by "private_settings" |
| PrivateSettings.PrivateSettingsTable.Get | engine/classes/Elgg/Database/PrivateSettingsTable.php:314-342 | a cached value wins; otherwise false for a missing entity, the stored value, or null for a missing setting |
| PrivateSettings.CacheIsTransparent | engine/classes/Elgg/Database/PrivateSettingsTable.php:314-342 | with a coherent cache, get on an existing entity answers exactly what the table holds |
| PrivateSettings.PrivateSettingsTable.GetAll | engine/classes/Elgg/Database/PrivateSettingsTable.php:351-375 | all of an existing entity's settings by name, or the empty map for a missing entity |
| PrivateSettings.PrivateSettingsTable.Set | engine/classes/Elgg/Database/PrivateSettingsTable.php:385-408 | clears the entity's cache entry; true if and only if the entity exists, and then the row holds the value and get returns it; the cache stays coherent |
| PrivateSettings.PrivateSettingsTable.Remove | engine/classes/Elgg/Database/PrivateSettingsTable.php:417-432 | clears the entity's cache entry, deletes that one row and returns the number of rows deleted; get then finds no setting; the cache stays coherent |
| PrivateSettings.PrivateSettingsTable.RemoveAllForEntity | engine/classes/Elgg/Database/PrivateSettingsTable.php:440-453 | clears the entity's cache entry, deletes all its rows and returns their number; the cache stays coherent |
| PrivateSettings.PrivateSettingsTable.GetWhereSql | engine/classes/Elgg/Database/PrivateSettingsTable.php:148-301 | the builder computes exactly `WhereSql` |
| PrivateSettings.PrivateSettingsTable.GetEntities | engine/classes/Elgg/Database/PrivateSettingsTable.php:88-135 | the options passed to the entity query: the defaults under the caller's options, normalised, with the built wheres and joins merged in (see `CallerOptionsOverDefaults` and `MergedQueryOptions`) |

## Left out

- `actions/register.php` and `views/default/icon/user/default.php` are not part of this model; they only use the core.
- The rest of `navigation.php` is left out: `elgg_register_title_button`, `elgg_get_breadcrumbs` and its hook dispatch, the filter tabs, and the other menu and entity-menu setups.
- The plugin hooks that call the two menu setups and the breadcrumb preparation are left out; the model takes the hook value and parameters as arguments.
- Menu keys after `unset`: PHP keeps a hole in the numeric keys of a menu; the model keeps only the order, which is all the navigation code relies on.
- Non-item values inside a menu are not modelled. Menus hold only items, so the `instanceof` checks on menu entries always pass.
- The `(array)` cast of a breadcrumbs config entry that is not an array is left out. The stack always holds crumbs.
- Menus.MenuItem.constructor: stores the href as given. The `ElggMenuItem` constructor is not part of this model. The URL normalisation it applies is the `normalizeUrl` parameter for the custom items the site-menu setup creates. Registered items arrive with their href already stored.
- The factory in `elgg_register_menu_item` is a parameter (`FactoryOptions`), so how it builds an item is not modelled. The warning and error logging are dropped.
- PHP's loose `==` on names, hrefs and an operand is modelled as string equality. Numeric strings such as "1" and "01" would compare equal in PHP.
- `strpos($href, $siteUrl) === 0` follows PHP 7: an empty site URL makes no item internal.
- `current_page_url()`, `elgg_get_site_url()` and `elgg_get_context()` are parameters.
- PageMenu.PageMenuSetup: the caller must supply the selected item's finite ancestor chain. The source would loop forever on a cycle of parents.
- `elgg_get_excerpt` and `sanitizeString` are opaque functions passed in. The model fixes only where they are applied and with which arguments.
- `_elgg_normalize_plural_options_array` is a parameter of `GetEntities`.
- The entities table's `getEntities` query is left out; `GetEntities` returns the options it would pass on.
- Floats and objects among the option values are not modelled.
- `is_numeric` follows PHP 7, which forbids trailing whitespace.
- SQL is not executed. The database is a map of rows: `getDataRow`, `getData`, `insertData` and `deleteData` act on that map.
- PrivateSettings.PrivateSettingsTable.Set: the model does not cover `insertData` failing; an existing entity always gets its row, and `set` returns true.
- `PluginSettingsCache` is a map field of the table; only `clear` (dropping one entity) and the lookup in `get` are modelled. `boot->invalidateCache()` touches no state of this model and is left out.
- The table name and the entities table never change after construction, so they are constants of the class.
- The `(int)` and `(string)` casts of the GUID and name parameters are left out; the model takes an integer and a string.
