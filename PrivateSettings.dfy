/**
 * The private-settings store of an entity: a table of (entity GUID, name)
 * -> value rows with a per-entity read cache in front of it, the filter
 * builder that turns private-setting options into SQL fragments, and the
 * merge of those fragments into the options of an entity query.
 */
module PrivateSettings {
  import opened Common
  import opened PhpValues
  import opened SettingsQuery

  type Rows = map<(int, string), string>

  /* ---- the table as a map ---- */

  /** The settings of one entity, by name. */
  function SettingsIn(rows: Rows, guid: int): (r: map<string, string>)
    ensures forall name :: name in r <==> (guid, name) in rows
    ensures forall name :: name in r ==> r[name] == rows[(guid, name)]
  {
    map k | k in rows && k.0 == guid :: k.1 := rows[k]
  }

  /** INSERT ... ON DUPLICATE KEY UPDATE value = :value */
  function Upsert(rows: Rows, guid: int, name: string, value: string): (r: Rows)
    ensures r.Keys == rows.Keys + {(guid, name)}
    ensures r[(guid, name)] == value
    ensures forall k :: k in rows && k != (guid, name) ==> r[k] == rows[k]
  {
    rows[(guid, name) := value]
  }

  /** DELETE ... WHERE name = :name AND entity_guid = :entity_guid */
  function DeleteKey(rows: Rows, guid: int, name: string): (r: Rows)
    ensures r.Keys == rows.Keys - {(guid, name)}
    ensures forall k :: k in r ==> r[k] == rows[k]
  {
    rows - {(guid, name)}
  }

  /** DELETE ... WHERE entity_guid = :entity_guid */
  function DeleteEntity(rows: Rows, guid: int): (r: Rows)
    ensures forall k :: k in r <==> k in rows && k.0 != guid
    ensures forall k :: k in r ==> r[k] == rows[k]
  {
    map k | k in rows && k.0 != guid :: rows[k]
  }

  /** The keys of one entity's rows: what a delete of all its settings affects. */
  function EntityKeys(rows: Rows, guid: int): set<(int, string)> {
    set k | k in rows && k.0 == guid
  }

  /** After a set, the entity's settings show the new value and are otherwise as before. */
  lemma UpsertSettings(rows: Rows, guid: int, name: string, value: string)
    ensures SettingsIn(Upsert(rows, guid, name, value), guid) == SettingsIn(rows, guid)[name := value]
  {
    assert SettingsIn(Upsert(rows, guid, name, value), guid).Keys == SettingsIn(rows, guid)[name := value].Keys;
  }

  /** A set leaves every other entity's settings alone. */
  lemma UpsertOtherSettings(rows: Rows, guid: int, name: string, value: string, other: int)
    requires other != guid
    ensures SettingsIn(Upsert(rows, guid, name, value), other) == SettingsIn(rows, other)
  {
    assert SettingsIn(Upsert(rows, guid, name, value), other).Keys == SettingsIn(rows, other).Keys;
  }

  /** Removing a setting takes only that name out of the entity's settings. */
  lemma DeleteKeySettings(rows: Rows, guid: int, name: string)
    ensures SettingsIn(DeleteKey(rows, guid, name), guid) == SettingsIn(rows, guid) - {name}
  {
    assert SettingsIn(DeleteKey(rows, guid, name), guid).Keys == (SettingsIn(rows, guid) - {name}).Keys;
  }

  /** Removing a setting leaves every other entity's settings alone. */
  lemma DeleteKeyOtherSettings(rows: Rows, guid: int, name: string, other: int)
    requires other != guid
    ensures SettingsIn(DeleteKey(rows, guid, name), other) == SettingsIn(rows, other)
  {
    assert SettingsIn(DeleteKey(rows, guid, name), other).Keys == SettingsIn(rows, other).Keys;
  }

  /** Removing all of an entity's settings empties them. */
  lemma DeleteEntitySettings(rows: Rows, guid: int)
    ensures SettingsIn(DeleteEntity(rows, guid), guid) == map[]
  {
    assert SettingsIn(DeleteEntity(rows, guid), guid).Keys == {};
  }

  /** Removing all of an entity's settings leaves every other entity's alone. */
  lemma DeleteEntityOtherSettings(rows: Rows, guid: int, other: int)
    requires other != guid
    ensures SettingsIn(DeleteEntity(rows, guid), other) == SettingsIn(rows, other)
  {
    assert SettingsIn(DeleteEntity(rows, guid), other).Keys == SettingsIn(rows, other).Keys;
  }

  /** Setting a value and then removing it leaves the table as removing it alone would. */
  lemma UpsertThenDelete(rows: Rows, guid: int, name: string, value: string)
    ensures DeleteKey(Upsert(rows, guid, name, value), guid, name) == DeleteKey(rows, guid, name)
    ensures (guid, name) !in rows ==> DeleteKey(Upsert(rows, guid, name, value), guid, name) == rows
  {
    assert DeleteKey(Upsert(rows, guid, name, value), guid, name).Keys == DeleteKey(rows, guid, name).Keys;
    if (guid, name) !in rows {
      assert DeleteKey(rows, guid, name).Keys == rows.Keys;
    }
  }

  /** Setting the same name twice keeps the last value: the second set overwrites, it does not add a row. */
  lemma UpsertTwice(rows: Rows, guid: int, name: string, v1: string, v2: string)
    ensures Upsert(Upsert(rows, guid, name, v1), guid, name, v2) == Upsert(rows, guid, name, v2)
  {
    assert Upsert(Upsert(rows, guid, name, v1), guid, name, v2).Keys == Upsert(rows, guid, name, v2).Keys;
  }

  /* ---- the filter builder's loops ---- */

  /** The names loop: each name with the prefix in front, sanitised and quoted. */
  method SanitiseNames(env: Env, names: seq<Value>) returns (quoted: seq<string>)
    ensures quoted == QuoteNames(env, names)
  {
    quoted := [];
    var k := 0;
    while k < |names|
      invariant 0 <= k <= |names|
      invariant quoted == QuoteNames(env, names[..k])
    {
      var name := env.prefix + ToStr(names[k]);
      quoted := quoted + ["'" + env.sanitize(name) + "'"];
      assert names[..k + 1][..k] == names[..k];
      k := k + 1;
    }
    assert names[..k] == names;
  }

  /**
   * The values loop: each value, 0 in place of a falsy one, sanitised and
   * quoted; `last` is what the loop variable holds afterwards.
   */
  method SanitiseValues(env: Env, values: seq<Value>) returns (quoted: seq<string>, last: string)
    ensures quoted == QuoteValues(env, values)
    ensures last == if values == [] then "" else ToStr(NormaliseValue(values[|values| - 1]))
  {
    quoted := [];
    last := "";
    var k := 0;
    while k < |values|
      invariant 0 <= k <= |values|
      invariant quoted == QuoteValues(env, values[..k])
      invariant last == if k == 0 then "" else ToStr(NormaliseValue(values[k - 1]))
    {
      var value := values[k];
      if !Truthy(value) {
        value := Int(0);
      }
      quoted := quoted + ["'" + env.sanitize(ToStr(value)) + "'"];
      last := ToStr(value);
      assert values[..k + 1][..k] == values[..k];
      k := k + 1;
    }
    assert values[..k] == values;
  }

  /** The loop over an array value: numbers bare, everything else quoted. */
  method InListValues(env: Env, vs: seq<Value>) returns (items: seq<string>)
    ensures items == InListItems(env, vs)
  {
    items := [];
    var k := 0;
    while k < |vs|
      invariant 0 <= k <= |vs|
      invariant items == InListItems(env, vs[..k])
    {
      if IsNumeric(vs[k]) {
        items := items + [env.sanitize(ToStr(vs[k]))];
      } else {
        items := items + ["'" + env.sanitize(ToStr(vs[k])) + "'"];
      }
      assert vs[..k + 1][..k] == vs[..k];
      k := k + 1;
    }
    assert vs[..k] == vs;
  }

  /** The names part: "(ps.name IN (...))" over the prefixed names, or "" when there are none. */
  method NamesClause(env: Env, names: Value) returns (namesWhere: string)
    ensures namesWhere == NamesWhere(env, names)
  {
    namesWhere := "";
    if !names.Null? {
      var quoted := SanitiseNames(env, AsList(names));
      var namesStr := Join(",", quoted);
      if StrTruthy(namesStr) {
        namesWhere := "(ps.name IN (" + namesStr + "))";
      }
    }
  }

  /**
   * The values part: "(ps.value IN (...))" over the values, or "" when
   * there are none; `value` is what the loop variable holds afterwards.
   */
  method ValuesClause(env: Env, values: Value) returns (valuesWhere: string, value: string)
    ensures valuesWhere == ValuesWhere(env, values)
    ensures value == CarriedValue(values)
  {
    valuesWhere := "";
    value := "";
    if !values.Null? {
      var quoted;
      quoted, value := SanitiseValues(env, AsList(values));
      var valuesStr := Join(",", quoted);
      if StrTruthy(valuesStr) {
        valuesWhere := "(ps.value IN (" + valuesStr + "))";
      }
    }
  }

  /** The operand and value text of one used pair; `previous` is what $value holds before it. */
  method ComparePair(env: Env, pair: Value, previous: string) returns (operand: string, value: string)
    ensures Comparison(operand, value) == Compare(env, pair, previous)
  {
    if IsSet(pair, "operand") {
      operand := env.sanitize(ToStr(Field(pair, "operand")));
    } else {
      operand := " = ";
    }
    var trimmed := Trim(Lower(operand));
    var v := Field(pair, "value");
    value := previous;
    if IsNumeric(v) {
      value := env.sanitize(ToStr(v));
    } else if v.Arr? {
      var items := InListValues(env, Values(v.entries));
      if items != [] {
        value := "(" + Join(", ", items) + ")";
      }
      operand := "IN";
    } else if trimmed == "in" {
      value := "(" + ToStr(v) + ")";
    } else {
      value := "'" + env.sanitize(ToStr(v)) + "'";
    }
  }

  /**
   * One pass of the pairs loop over the entry `index => item`: the k => v
   * shortcut, the skip of an incomplete pair, and otherwise the join
   * ps{i}, the pair's clause and the next i. `used` are the pairs used
   * before this entry.
   */
  method PairsLoopBody(env: Env, first: string, ghost used: seq<Value>, index: Key, item: Value,
                       joins: seq<string>, pairWheres: seq<string>, i: nat, value: string)
    returns (joins': seq<string>, pairWheres': seq<string>, i': nat, value': string)
    requires i == |used| + 1
    requires joins == PairJoins(env, |used|)
    requires pairWheres == PairWheres(env, first, used)
    requires value == ThreadedValue(env, first, used)
    ensures var p := AsPair(index, item);
            var after := used + (if Complete(p) then [p] else []);
            && i' == |after| + 1
            && joins' == PairJoins(env, |after|)
            && pairWheres' == PairWheres(env, first, after)
            && value' == ThreadedValue(env, first, after)
  {
    var pair := item;
    if !pair.Arr? {
      pair := Arr([(StrKey("name"), KeyValue(index)), (StrKey("value"), pair)]);
    }
    assert pair == AsPair(index, item);
    joins', pairWheres', i', value' := joins, pairWheres, i, value;
    if !IsSet(pair, "name") || !IsSet(pair, "value") {
      assert used + [] == used;
      return;
    }
    PairWheresStep(env, first, used, pair);
    PairJoinsStep(env, i - 1);
    var operand;
    operand, value' := ComparePair(env, pair, value);
    var name := env.sanitize(env.prefix + ToStr(Field(pair, "name")));
    joins' := joins + [PairJoin(env, i)];
    pairWheres' := pairWheres + [PairWhere(i, name, operand, value')];
    i' := i + 1;
  }

  /**
   * The pairs loop: each complete pair (after the k => v shortcut) adds the
   * join ps{i} and its clause, and i counts on; `value` threads $value.
   */
  method PairsLoop(env: Env, first: string, entries: seq<(Key, Value)>) returns (joins: seq<string>, pairWheres: seq<string>)
    ensures joins == PairJoins(env, |UsedPairs(entries)|)
    ensures pairWheres == PairWheres(env, first, UsedPairs(entries))
  {
    var i := 1;
    var value := first;
    joins, pairWheres := [], [];
    var k := 0;
    while k < |entries|
      invariant 0 <= k <= |entries|
      invariant i == |UsedPairs(entries[..k])| + 1
      invariant joins == PairJoins(env, |UsedPairs(entries[..k])|)
      invariant pairWheres == PairWheres(env, first, UsedPairs(entries[..k]))
      invariant value == ThreadedValue(env, first, UsedPairs(entries[..k]))
    {
      UsedPairsStep(entries, k);
      joins, pairWheres, i, value := PairsLoopBody(env, first, UsedPairs(entries[..k]), entries[k].0, entries[k].1, joins, pairWheres, i, value);
      k := k + 1;
    }
    assert entries[..k] == entries;
  }

  /** The names and values parts combined into at most one clause. */
  method NameValueClauses(namesWhere: string, valuesWhere: string) returns (wheres: seq<string>)
    ensures wheres == NameValueWheres(namesWhere, valuesWhere)
  {
    wheres := [];
    if StrTruthy(namesWhere) && StrTruthy(valuesWhere) {
      wheres := wheres + ["(" + namesWhere + " AND " + valuesWhere + ")"];
    } else if StrTruthy(namesWhere) {
      wheres := wheres + ["(" + namesWhere + ")"];
    } else if StrTruthy(valuesWhere) {
      wheres := wheres + ["(" + valuesWhere + ")"];
    }
  }

  /**
   * The pairs part, taken only when the pairs option is an array: a bare
   * pair is read as a list of one, the loop builds the joins and clauses,
   * and the clauses are combined with the pair operator.
   */
  method PairsClauses(env: Env, first: string, pairs: Value, pairOperator: string) returns (joins: seq<string>, pw: seq<string>)
    ensures joins == PairJoins(env, |UsedPairs(PairList(pairs))|)
    ensures pw == if pairs.Arr? then PairsWhere(pairOperator, PairWheres(env, first, UsedPairs(PairList(pairs)))) else []
  {
    joins, pw := [], [];
    if pairs.Arr? {
      var entries := if IsSet(pairs, "name") || IsSet(pairs, "value") then [(IntKey(0), pairs)] else pairs.entries;
      assert entries == PairList(pairs);
      var pairWheres;
      joins, pairWheres := PairsLoop(env, first, entries);
      var where := Join(" " + pairOperator + " ", pairWheres);
      if StrTruthy(where) {
        pw := ["(" + where + ")"];
      }
    } else {
      assert PairList(pairs) == [];
      assert PairJoins(env, 0) == [];
    }
  }

  /* ---- the option merge of getEntities ---- */

  /** The defaults the caller's options are merged over (the any-value constant is null). */
  const EntityDefaults: seq<(Key, Value)> := [
    (StrKey("private_setting_names"), Null),
    (StrKey("private_setting_values"), Null),
    (StrKey("private_setting_name_value_pairs"), Null),
    (StrKey("private_setting_name_value_pairs_operator"), Str("AND")),
    (StrKey("private_setting_name_prefix"), Str(""))
  ]

  /** isset() of an option value. */
  predicate IsSetValue(v: Value) {
    v != Null
  }

  /** An option as the list the fragments are merged into: a scalar becomes a list of one, an unset option the empty list. */
  function OptionEntries(v: Value): seq<(Key, Value)> {
    if !IsSetValue(v) then [] else if v.Arr? then v.entries else [(IntKey(0), v)]
  }

  function Strs(ss: seq<string>): (r: seq<Value>)
    ensures |r| == |ss|
    ensures forall j :: 0 <= j < |ss| ==> r[j] == Str(ss[j])
  {
    if ss == [] then [] else Strs(ss[..|ss| - 1]) + [Str(ss[|ss| - 1])]
  }

  /** `$options[$key] = array_merge(<the option as a list>, $extra)`. */
  function MergeInto(options: seq<(Key, Value)>, key: string, extra: seq<string>): seq<(Key, Value)> {
    SetString(options, key, Arr(ArrayMerge(OptionEntries(Lookup(options, StrKey(key))), ListOf(Strs(extra)))))
  }

  /**
   * Merging fragments into an option keeps the caller's entries first, in
   * order, and puts the fragments after them; every other option is left
   * as it was.
   */
  lemma MergeIntoAppends(options: seq<(Key, Value)>, key: string, extra: seq<string>, other: string)
    requires DistinctStringKeys(OptionEntries(Lookup(options, StrKey(key))))
    ensures Lookup(MergeInto(options, key, extra), StrKey(key)).Arr?
    ensures Values(Lookup(MergeInto(options, key, extra), StrKey(key)).entries) ==
            Values(OptionEntries(Lookup(options, StrKey(key)))) + Strs(extra)
    ensures other != key ==> Lookup(MergeInto(options, key, extra), StrKey(other)) == Lookup(options, StrKey(other))
  {
    var caller := OptionEntries(Lookup(options, StrKey(key)));
    var merged := Arr(ArrayMerge(caller, ListOf(Strs(extra))));
    SetStringLookup(options, key, merged, StrKey(key));
    SetStringLookup(options, key, merged, StrKey(other));
    ArrayMergeAppendsList(caller, Strs(extra));
  }

  /** A scalar option is merged as the list holding it; an unset one as the empty list. */
  /**
   * `array_merge($defaults, $options)`: under every option name the caller's
   * value wins, and a name the caller did not give keeps its default.
   */
  lemma CallerOptionsOverDefaults(options: seq<(Key, Value)>, name: string)
    requires DistinctStringKeys(options)
    ensures Lookup(ArrayMerge(EntityDefaults, options), StrKey(name)) ==
            if HasStringKey(options, name) then Lookup(options, StrKey(name)) else Lookup(EntityDefaults, StrKey(name))
  {
    assert DistinctStringKeys(EntityDefaults) by {
      forall i, j | 0 <= i < j < |EntityDefaults| ensures EntityDefaults[i].0 != EntityDefaults[j].0 {
        assert |EntityDefaults[i].0.s| != |EntityDefaults[j].0.s|;
      }
    }
    ArrayMergeStringLookup(EntityDefaults, options, name);
  }

  lemma OptionEntriesWrapsScalar(v: Value)
    ensures !v.Arr? && IsSetValue(v) ==> Values(OptionEntries(v)) == [v]
    ensures !IsSetValue(v) ==> OptionEntries(v) == []
  {
    if !v.Arr? && IsSetValue(v) {
      assert Values([(IntKey(0), v)]) == Values([(IntKey(0), v)][..0]) + [v];
    }
  }

  /**
   * The query options getEntities passes on: the caller's wheres and joins
   * first, the built clauses and joins after them, every other option as
   * the normalised options had it.
   */
  lemma MergedQueryOptions(o: seq<(Key, Value)>, wheres: seq<string>, joins: seq<string>, other: string)
    requires DistinctStringKeys(OptionEntries(Lookup(o, StrKey("wheres"))))
    requires DistinctStringKeys(OptionEntries(Lookup(o, StrKey("joins"))))
    ensures var q := MergeInto(MergeInto(o, "wheres", wheres), "joins", joins);
            && Lookup(q, StrKey("wheres")).Arr?
            && Values(Lookup(q, StrKey("wheres")).entries) == Values(OptionEntries(Lookup(o, StrKey("wheres")))) + Strs(wheres)
            && Lookup(q, StrKey("joins")).Arr?
            && Values(Lookup(q, StrKey("joins")).entries) == Values(OptionEntries(Lookup(o, StrKey("joins")))) + Strs(joins)
            && (other != "wheres" && other != "joins" ==> Lookup(q, StrKey(other)) == Lookup(o, StrKey(other)))
  {
    var o1 := MergeInto(o, "wheres", wheres);
    MergeIntoAppends(o, "wheres", wheres, "joins");
    MergeIntoAppends(o, "wheres", wheres, other);
    MergeIntoAppends(o1, "joins", joins, "wheres");
    MergeIntoAppends(o1, "joins", joins, other);
  }

  /* ---- the store ---- */

  /** The entities table, as far as the settings store asks it: which GUIDs exist. */
  class EntityTable {
    var guids: set<int>

    constructor (guids: set<int>)
      ensures this.guids == guids
    {
      this.guids := guids;
    }
  }

  /** What get returns: the value, false for a missing entity, null for a missing setting. */
  datatype Setting = Found(value: string) | NoEntity | NoSetting

  class PrivateSettingsTable {
    /** The name of the settings table: the database prefix followed by "private_settings". */
    const table: string
    /** The database's sanitizeString. */
    const sanitize: string -> string
    const entities: EntityTable
    /** The rows of the settings table. */
    var rows: Rows
    /** The settings cache: for each cached entity, its settings by name. */
    var cache: map<int, map<string, string>>

    constructor (dbPrefix: string, sanitize: string -> string, entities: EntityTable, rows: Rows, cache: map<int, map<string, string>>)
      ensures table == dbPrefix + "private_settings"
      ensures this.sanitize == sanitize && this.entities == entities
      ensures this.rows == rows && this.cache == cache
    {
      table := dbPrefix + "private_settings";
      this.sanitize := sanitize;
      this.entities := entities;
      this.rows := rows;
      this.cache := cache;
    }

    /** Every cached entity's settings are those the table holds for it. */
    predicate CacheCoherent()
      reads this
    {
      forall guid :: guid in cache ==> cache[guid] == SettingsIn(rows, guid)
    }

    /**
     * get($entity_guid, $name): the cached value when the cache holds one;
     * otherwise false for an entity that does not exist, the stored value,
     * or null.
     */
    function Get(guid: int, name: string): (r: Setting)
      reads this, entities
      ensures r == NoEntity ==> guid !in entities.guids
      ensures r == NoSetting ==> (guid, name) !in rows
      ensures r.Found? ==> (guid in cache && name in cache[guid] && r.value == cache[guid][name])
                           || ((guid, name) in rows && r.value == rows[(guid, name)])
    {
      if guid in cache && name in cache[guid] then Found(cache[guid][name])
      else if guid !in entities.guids then NoEntity
      else if (guid, name) in rows then Found(rows[(guid, name)])
      else NoSetting
    }

    /**
     * getAll($entity_guid): every setting the table holds for an existing
     * entity, the empty map for one that does not exist.
     */
    method GetAll(guid: int) returns (r: map<string, string>)
      ensures r == if guid in entities.guids then SettingsIn(rows, guid) else map[]
    {
      if guid !in entities.guids {
        return map[];
      }
      var remaining := EntityKeys(rows, guid);
      r := map[];
      while remaining != {}
        invariant forall k :: k in remaining ==> k in rows && k.0 == guid
        invariant forall name :: name in r <==> (guid, name) in rows && (guid, name) !in remaining
        invariant forall name :: name in r ==> r[name] == rows[(guid, name)]
        decreases remaining
      {
        var k :| k in remaining;
        r := r[k.1 := rows[k]];
        remaining := remaining - {k};
      }
      assert r.Keys == SettingsIn(rows, guid).Keys;
    }

    /**
     * set($entity_guid, $name, $value): clears the entity's cache, then
     * fails for an entity that does not exist, and otherwise inserts the
     * row or overwrites its value.
     */
    method Set(guid: int, name: string, value: string) returns (ok: bool)
      modifies this
      ensures ok <==> guid in entities.guids
      ensures cache == old(cache) - {guid}
      ensures rows == if ok then Upsert(old(rows), guid, name, value) else old(rows)
      ensures ok ==> Get(guid, name) == Found(value)
      ensures old(CacheCoherent()) ==> CacheCoherent()
    {
      ghost var coherent := CacheCoherent();
      cache := cache - {guid};
      if guid !in entities.guids {
        return false;
      }
      ghost var before := rows;
      rows := Upsert(rows, guid, name, value);
      forall other | coherent && other in cache ensures cache[other] == SettingsIn(rows, other) {
        UpsertOtherSettings(before, guid, name, value, other);
      }
      ok := true;
    }

    /**
     * remove($entity_guid, $name): clears the entity's cache and deletes
     * that one row, returning the number of rows deleted.
     */
    method Remove(guid: int, name: string) returns (deleted: nat)
      modifies this
      ensures cache == old(cache) - {guid}
      ensures rows == DeleteKey(old(rows), guid, name)
      ensures deleted == if (guid, name) in old(rows) then 1 else 0
      ensures Get(guid, name) == if guid in entities.guids then NoSetting else NoEntity
      ensures old(CacheCoherent()) ==> CacheCoherent()
    {
      ghost var coherent := CacheCoherent();
      cache := cache - {guid};
      deleted := if (guid, name) in rows then 1 else 0;
      ghost var before := rows;
      rows := DeleteKey(rows, guid, name);
      forall other | coherent && other in cache ensures cache[other] == SettingsIn(rows, other) {
        DeleteKeyOtherSettings(before, guid, name, other);
      }
    }

    /**
     * removeAllForEntity($entity_guid): clears the entity's cache and
     * deletes all of its rows, returning the number of rows deleted.
     */
    method RemoveAllForEntity(guid: int) returns (deleted: nat)
      modifies this
      ensures cache == old(cache) - {guid}
      ensures rows == DeleteEntity(old(rows), guid)
      ensures deleted == |EntityKeys(old(rows), guid)|
      ensures forall name :: Get(guid, name) == if guid in entities.guids then NoSetting else NoEntity
      ensures old(CacheCoherent()) ==> CacheCoherent()
    {
      ghost var coherent := CacheCoherent();
      cache := cache - {guid};
      deleted := |EntityKeys(rows, guid)|;
      ghost var before := rows;
      rows := DeleteEntity(rows, guid);
      forall other | coherent && other in cache ensures cache[other] == SettingsIn(rows, other) {
        DeleteEntityOtherSettings(before, guid, other);
      }
    }

    /**
     * getWhereSql($alias, $names, $values, $pairs, $pair_operator,
     * $name_prefix): computes exactly the clauses WhereSql describes.
     */
    method GetWhereSql(alias: string, names: Value, values: Value, pairs: Value, pairOperator: string, prefix: string)
      returns (r: Clauses)
      ensures r == WhereSql(Env(table, alias, sanitize, prefix), names, values, pairs, pairOperator)
    {
      var env := Env(table, alias, sanitize, prefix);
      var joins := [BaseJoin(env)];
      var namesWhere := NamesClause(env, names);
      var valuesWhere, value := ValuesClause(env, values);
      var wheres := NameValueClauses(namesWhere, valuesWhere);
      var pairJoins, pw := PairsClauses(env, value, pairs, pairOperator);
      joins := joins + pairJoins;
      wheres := wheres + pw;

      var where := Join(" AND ", wheres);
      r := Clauses(joins, if StrTruthy(where) then ["(" + where + ")"] else []);
    }

    /**
     * getEntities($options), up to the call into the entities table: the
     * query options it passes on. `normalise` stands for
     * _elgg_normalize_plural_options_array with the three singular names.
     */
    method GetEntities(options: seq<(Key, Value)>, normalise: seq<(Key, Value)> -> seq<(Key, Value)>)
      returns (query: seq<(Key, Value)>)
      ensures var o := normalise(ArrayMerge(EntityDefaults, options));
              var c := WhereSql(Env(table, "e", sanitize, ToStr(Lookup(o, StrKey("private_setting_name_prefix")))),
                                Lookup(o, StrKey("private_setting_names")),
                                Lookup(o, StrKey("private_setting_values")),
                                Lookup(o, StrKey("private_setting_name_value_pairs")),
                                ToStr(Lookup(o, StrKey("private_setting_name_value_pairs_operator"))));
              query == MergeInto(MergeInto(o, "wheres", c.wheres), "joins", c.joins)
    {
      var o := ArrayMerge(EntityDefaults, options);
      o := normalise(o);
      var clauses := GetWhereSql("e",
        Lookup(o, StrKey("private_setting_names")),
        Lookup(o, StrKey("private_setting_values")),
        Lookup(o, StrKey("private_setting_name_value_pairs")),
        ToStr(Lookup(o, StrKey("private_setting_name_value_pairs_operator"))),
        ToStr(Lookup(o, StrKey("private_setting_name_prefix"))));
      // the clauses always hold the base join, so they are always merged
      var wheres := Lookup(o, StrKey("wheres"));
      if IsSetValue(wheres) && !wheres.Arr? {
        wheres := Arr([(IntKey(0), wheres)]);
      } else if !IsSetValue(wheres) {
        wheres := Arr([]);
      }
      o := SetString(o, "wheres", Arr(ArrayMerge(wheres.entries, ListOf(Strs(clauses.wheres)))));
      var joins := Lookup(o, StrKey("joins"));
      if IsSetValue(joins) && !joins.Arr? {
        joins := Arr([(IntKey(0), joins)]);
      } else if !IsSetValue(joins) {
        joins := Arr([]);
      }
      o := SetString(o, "joins", Arr(ArrayMerge(joins.entries, ListOf(Strs(clauses.joins)))));
      query := o;
    }
  }


  /** With a coherent cache, get on an existing entity answers exactly what the table holds. */
  lemma CacheIsTransparent(t: PrivateSettingsTable, guid: int, name: string)
    requires t.CacheCoherent()
    requires guid in t.entities.guids
    ensures t.Get(guid, name) == if (guid, name) in t.rows then Found(t.rows[(guid, name)]) else NoSetting
  {
  }
}
