/**
 * The SQL fragments that the private-settings filter builder produces, as
 * functions of its options: the IN lists for setting names and values, the
 * numbered joins ps1..psk with one where clause per name/value pair, and
 * the single combined where clause. The builder method in PrivateSettings
 * is proved to compute exactly WhereSql; the lemmas below state what
 * WhereSql guarantees.
 */
module SettingsQuery {
  import opened Common
  import opened PhpValues

  /**
   * What the builder works with besides its options: the settings table
   * name, the alias of the entities table, the database's sanitizeString
   * and the name prefix.
   */
  datatype Env = Env(table: string, alias: string, sanitize: string -> string, prefix: string)

  datatype Clauses = Clauses(joins: seq<string>, wheres: seq<string>)

  /* ---- fixed fragments ---- */

  function BaseJoin(env: Env): string {
    "JOIN " + env.table + " ps on\n\t\t\t" + env.alias + ".guid = ps.entity_guid"
  }

  function PairJoin(env: Env, i: nat): string {
    "JOIN " + env.table + " ps" + NatToString(i) + "\n\t\t\t\t\ton " + env.alias + ".guid = ps" + NatToString(i) + ".entity_guid"
  }

  /** The part of the i-th pair's clause that fixes the setting name. */
  function PairWhereHead(i: nat, name: string): string {
    "(ps" + NatToString(i) + ".name = '" + name + "' AND ps" + NatToString(i) + ".value\n\t\t\t\t\t"
  }

  function PairWhere(i: nat, name: string, operand: string, value: string): string {
    PairWhereHead(i, name) + operand + " " + value + ")"
  }

  /* ---- names and values lists ---- */

  function QuoteName(env: Env, name: Value): string {
    "'" + env.sanitize(env.prefix + ToStr(name)) + "'"
  }

  /** The quoted names, each with the prefix in front of it. */
  function QuoteNames(env: Env, names: seq<Value>): (r: seq<string>)
    ensures |r| == |names|
    ensures forall j :: 0 <= j < |names| ==> r[j] == "'" + env.sanitize(env.prefix + ToStr(names[j])) + "'"
  {
    if names == [] then [] else QuoteNames(env, names[..|names| - 1]) + [QuoteName(env, names[|names| - 1])]
  }

  /** `if (!$value) { $value = 0; }` */
  function NormaliseValue(v: Value): Value {
    if Truthy(v) then v else Int(0)
  }

  function QuoteValue(env: Env, v: Value): string {
    "'" + env.sanitize(ToStr(NormaliseValue(v))) + "'"
  }

  /** The quoted values; a falsy value is quoted as "0". */
  function QuoteValues(env: Env, values: seq<Value>): (r: seq<string>)
    ensures |r| == |values|
    ensures forall j :: 0 <= j < |values| ==>
      r[j] == "'" + env.sanitize(if Truthy(values[j]) then ToStr(values[j]) else "0") + "'"
  {
    if values == [] then [] else QuoteValues(env, values[..|values| - 1]) + [QuoteValue(env, values[|values| - 1])]
  }

  /** The names option as the list it stands for: null means no condition. */
  function OptionList(v: Value): seq<Value> {
    if v.Null? then [] else AsList(v)
  }

  /** "(ps.name IN (<quoted names>))", or "" when there are none. */
  function NamesWhere(env: Env, names: Value): string {
    if names.Null? then ""
    else
      var list := Join(",", QuoteNames(env, AsList(names)));
      if StrTruthy(list) then "(ps.name IN (" + list + "))" else ""
  }

  /** "(ps.value IN (<quoted values>))", or "" when there are none. */
  function ValuesWhere(env: Env, values: Value): string {
    if values.Null? then ""
    else
      var list := Join(",", QuoteValues(env, AsList(values)));
      if StrTruthy(list) then "(ps.value IN (" + list + "))" else ""
  }

  function NameValueWheres(namesWhere: string, valuesWhere: string): seq<string> {
    if StrTruthy(namesWhere) && StrTruthy(valuesWhere) then ["(" + namesWhere + " AND " + valuesWhere + ")"]
    else if StrTruthy(namesWhere) then ["(" + namesWhere + ")"]
    else if StrTruthy(valuesWhere) then ["(" + valuesWhere + ")"]
    else []
  }

  /* ---- pairs ---- */

  /** A bare pair (an array with a name or value) stands for a list holding it. */
  function PairList(pairs: Value): seq<(Key, Value)> {
    if !pairs.Arr? then []
    else if IsSet(pairs, "name") || IsSet(pairs, "value") then [(IntKey(0), pairs)]
    else pairs.entries
  }

  /**
   * The shortcut `k => v` for a non-array entry: the key becomes the pair's
   * name and the entry its value; an array entry is the pair itself.
   */
  function AsPair(index: Key, pair: Value): (r: Value)
    ensures r.Arr?
    ensures pair.Arr? ==> r == pair
    ensures !pair.Arr? ==> Field(r, "name") == KeyValue(index) && Field(r, "value") == pair
  {
    if pair.Arr? then pair
    else
      var entries := [(StrKey("name"), KeyValue(index)), (StrKey("value"), pair)];
      assert "name" != "value" by { assert "name"[0] != "value"[0]; }
      assert entries[1..] == [(StrKey("value"), pair)];
      assert Lookup(entries[1..], StrKey("value")) == pair;
      Arr(entries)
  }

  /** A pair is used only when it has both a name and a value. */
  predicate Complete(pair: Value) {
    IsSet(pair, "name") && IsSet(pair, "value")
  }

  /** The operand a pair asks for: its sanitised operand option, else " = ". */
  function Operand(env: Env, pair: Value): string {
    if IsSet(pair, "operand") then env.sanitize(ToStr(Field(pair, "operand"))) else " = "
  }

  /** A member of an IN list: numbers bare, everything else quoted. */
  function InListItem(env: Env, v: Value): string {
    if IsNumeric(v) then env.sanitize(ToStr(v)) else "'" + env.sanitize(ToStr(v)) + "'"
  }

  function InListItems(env: Env, vs: seq<Value>): (r: seq<string>)
    ensures |r| == |vs|
    ensures forall j :: 0 <= j < |vs| ==> r[j] == InListItem(env, vs[j])
  {
    if vs == [] then [] else InListItems(env, vs[..|vs| - 1]) + [InListItem(env, vs[|vs| - 1])]
  }

  datatype Comparison = Comparison(operand: string, value: string)

  /**
   * The operand and the value text of one pair's clause. `previous` is the
   * value text of the last pair used before this one (for the first, what
   * the values loop left in the same variable): an empty array value leaves
   * the variable holding it unchanged.
   */
  function Compare(env: Env, pair: Value, previous: string): Comparison
  {
    var operand := Operand(env, pair);
    var v := Field(pair, "value");
    if IsNumeric(v) then Comparison(operand, env.sanitize(ToStr(v)))
    else if v.Arr? then
      var items := InListItems(env, Values(v.entries));
      Comparison("IN", if items != [] then "(" + Join(", ", items) + ")" else previous)
    else if Trim(Lower(operand)) == "in" then Comparison(operand, "(" + ToStr(v) + ")")
    else Comparison(operand, "'" + env.sanitize(ToStr(v)) + "'")
  }

  /**
   * How a pair is compared: an array value forces IN and lists its members
   * (numbers bare, the rest quoted), a number is compared unquoted, and the
   * operand is " = " unless the pair names one.
   */
  lemma PairComparison(env: Env, pair: Value, previous: string)
    ensures var c := Compare(env, pair, previous);
            var v := Field(pair, "value");
            && (v.Arr? ==> c.operand == "IN")
            && (!v.Arr? ==> c.operand == Operand(env, pair))
            && (!IsSet(pair, "operand") && !v.Arr? ==> c.operand == " = ")
            && (IsNumeric(v) ==> c.value == env.sanitize(ToStr(v)))
            && (v.Arr? && v.entries != [] ==>
                  c.value == "(" + Join(", ", InListItems(env, Values(v.entries))) + ")")
            && (!IsNumeric(v) && !v.Arr? && Trim(Lower(c.operand)) == "in" ==>
                  c.value == "(" + ToStr(v) + ")")
            && (!IsNumeric(v) && !v.Arr? && Trim(Lower(c.operand)) != "in" ==>
                  c.value == "'" + env.sanitize(ToStr(v)) + "'")
  {
  }

  /** The members of an IN list: numbers bare, everything else quoted. */
  lemma InListQuoting(env: Env, vs: seq<Value>, j: nat)
    requires j < |vs|
    ensures IsNumeric(vs[j]) ==> InListItems(env, vs)[j] == env.sanitize(ToStr(vs[j]))
    ensures !IsNumeric(vs[j]) ==> InListItems(env, vs)[j] == "'" + env.sanitize(ToStr(vs[j])) + "'"
  {
  }

  function PairName(env: Env, pair: Value): string {
    env.sanitize(env.prefix + ToStr(Field(pair, "name")))
  }

  /* ---- the pairs, described without the loop ---- */

  /** The entries whose pair is used, normalised by the k => v shortcut, in order. */
  function UsedPairs(entries: seq<(Key, Value)>): seq<Value>
    decreases |entries|
  {
    if entries == [] then []
    else
      var last := entries[|entries| - 1];
      var pair := AsPair(last.0, last.1);
      UsedPairs(entries[..|entries| - 1]) + (if Complete(pair) then [pair] else [])
  }

  /** The joins ps1..psn, one per used pair. */
  function PairJoins(env: Env, n: nat): seq<string> {
    seq(n, j requires 0 <= j < n => PairJoin(env, j + 1))
  }

  /**
   * The value text carried through the used pairs: `first` before any, and
   * after each pair the value text of its comparison.
   */
  function ThreadedValue(env: Env, first: string, used: seq<Value>): string
    decreases |used|
  {
    if used == [] then first else Compare(env, used[|used| - 1], ThreadedValue(env, first, used[..|used| - 1])).value
  }

  /** The clause of the j-th used pair, numbered j + 1, compared against the value text the pairs before it left. */
  function UsedPairWhere(env: Env, first: string, used: seq<Value>, j: nat): string
    requires j < |used|
  {
    var c := Compare(env, used[j], ThreadedValue(env, first, used[..j]));
    PairWhere(j + 1, PairName(env, used[j]), c.operand, c.value)
  }

  /** $pair_wheres: one clause per used pair. */
  function PairWheres(env: Env, first: string, used: seq<Value>): seq<string> {
    seq(|used|, j requires 0 <= j < |used| => UsedPairWhere(env, first, used, j))
  }

  /** One more entry: the used pairs grow by that entry's pair when it is complete. */
  lemma UsedPairsStep(entries: seq<(Key, Value)>, k: nat)
    requires k < |entries|
    ensures var pair := AsPair(entries[k].0, entries[k].1);
            UsedPairs(entries[..k + 1]) == UsedPairs(entries[..k]) + (if Complete(pair) then [pair] else [])
  {
    assert entries[..k + 1][..k] == entries[..k];
  }

  lemma PairJoinsStep(env: Env, n: nat)
    ensures PairJoins(env, n + 1) == PairJoins(env, n) + [PairJoin(env, n + 1)]
  {
  }

  /** One more used pair: its clause is appended and its value text is carried on. */
  lemma PairWheresStep(env: Env, first: string, used: seq<Value>, pair: Value)
    ensures var c := Compare(env, pair, ThreadedValue(env, first, used));
            && ThreadedValue(env, first, used + [pair]) == c.value
            && PairWheres(env, first, used + [pair]) ==
               PairWheres(env, first, used) + [PairWhere(|used| + 1, PairName(env, pair), c.operand, c.value)]
  {
    ThreadedValueStep(env, first, used, pair);
    PairWheresAppend(env, first, used, pair);
    UsedPairWhereLast(env, first, used, pair);
  }

  /** The value text after one more used pair is that pair's comparison value. */
  lemma ThreadedValueStep(env: Env, first: string, used: seq<Value>, pair: Value)
    ensures ThreadedValue(env, first, used + [pair]) == Compare(env, pair, ThreadedValue(env, first, used)).value
  {
    assert (used + [pair])[..|used|] == used;
  }

  /** One more used pair appends exactly its own clause. */
  lemma PairWheresAppend(env: Env, first: string, used: seq<Value>, pair: Value)
    ensures PairWheres(env, first, used + [pair]) ==
            PairWheres(env, first, used) + [UsedPairWhere(env, first, used + [pair], |used|)]
  {
    var l := PairWheres(env, first, used + [pair]);
    var r := PairWheres(env, first, used) + [UsedPairWhere(env, first, used + [pair], |used|)];
    forall j | 0 <= j < |l| ensures l[j] == r[j] {
      if j < |used| {
        UsedPairWherePrefix(env, first, used, pair, j);
      }
    }
    assert l == r;
  }

  /** The appended pair's clause is numbered after the others and compares against the value text they left. */
  lemma UsedPairWhereLast(env: Env, first: string, used: seq<Value>, pair: Value)
    ensures var c := Compare(env, pair, ThreadedValue(env, first, used));
            UsedPairWhere(env, first, used + [pair], |used|) == PairWhere(|used| + 1, PairName(env, pair), c.operand, c.value)
  {
    assert (used + [pair])[..|used|] == used;
  }

  /** Appending a pair leaves the clauses of the pairs before it alone. */
  lemma UsedPairWherePrefix(env: Env, first: string, used: seq<Value>, pair: Value, j: nat)
    requires j < |used|
    ensures UsedPairWhere(env, first, used + [pair], j) == UsedPairWhere(env, first, used, j)
  {
    assert (used + [pair])[..j] == used[..j];
    assert (used + [pair])[j] == used[j];
  }

  /* ---- the whole builder ---- */

  function PairsWhere(pairOperator: string, pairWheres: seq<string>): seq<string> {
    var where := Join(" " + pairOperator + " ", pairWheres);
    if StrTruthy(where) then ["(" + where + ")"] else []
  }

  function FinalWheres(wheres: seq<string>): seq<string> {
    var where := Join(" AND ", wheres);
    if StrTruthy(where) then ["(" + where + ")"] else []
  }

  /**
   * What the variable $value holds when the pairs loop starts: the values
   * loop uses the same variable, so it ends holding the last value (0 in
   * place of a falsy one); with no values it is unset and reads as "".
   */
  function CarriedValue(values: Value): string {
    var vs := OptionList(values);
    if vs == [] then "" else ToStr(NormaliseValue(vs[|vs| - 1]))
  }

  /** getWhereSql($alias, $names, $values, $pairs, $pair_operator, $name_prefix). */
  function WhereSql(env: Env, names: Value, values: Value, pairs: Value, pairOperator: string): Clauses {
    var nv := NameValueWheres(NamesWhere(env, names), ValuesWhere(env, values));
    var used := UsedPairs(PairList(pairs));
    var pw := if pairs.Arr? then PairsWhere(pairOperator, PairWheres(env, CarriedValue(values), used)) else [];
    Clauses([BaseJoin(env)] + PairJoins(env, |used|), FinalWheres(nv + pw))
  }

  /* ---- what the builder guarantees ---- */

  /** Every used pair has a name and a value, and there are no more used pairs than entries. */
  lemma {:induction false} UsedPairsComplete(entries: seq<(Key, Value)>)
    ensures |UsedPairs(entries)| <= |entries|
    ensures forall j :: 0 <= j < |UsedPairs(entries)| ==> Complete(UsedPairs(entries)[j])
    decreases |entries|
  {
    if entries != [] {
      var init := entries[..|entries| - 1];
      UsedPairsComplete(init);
      var last := entries[|entries| - 1];
      var pair := AsPair(last.0, last.1);
      var used := UsedPairs(init) + (if Complete(pair) then [pair] else []);
      assert UsedPairs(entries) == used;
      forall j | 0 <= j < |used| ensures Complete(used[j]) {
        if j < |UsedPairs(init)| {
          assert used[j] == UsedPairs(init)[j];
        }
      }
    }
  }

  /**
   * The base join comes first, and every used pair adds exactly one join,
   * numbered consecutively from 1.
   */
  lemma JoinsNumbered(env: Env, names: Value, values: Value, pairs: Value, pairOperator: string)
    ensures var r := WhereSql(env, names, values, pairs, pairOperator);
            && |r.joins| == 1 + |UsedPairs(PairList(pairs))|
            && r.joins[0] == BaseJoin(env)
            && forall k :: 1 <= k < |r.joins| ==> r.joins[k] == PairJoin(env, k)
  {
    var n := |UsedPairs(PairList(pairs))|;
    BaseThenNumbered(env, n);
    assert WhereSql(env, names, values, pairs, pairOperator).joins == [BaseJoin(env)] + PairJoins(env, n);
  }

  lemma BaseThenNumbered(env: Env, n: nat)
    ensures var joins := [BaseJoin(env)] + PairJoins(env, n);
            |joins| == n + 1 && forall k :: 1 <= k < |joins| ==> joins[k] == PairJoin(env, k)
  {
    var joins := [BaseJoin(env)] + PairJoins(env, n);
    forall k | 1 <= k < |joins| ensures joins[k] == PairJoin(env, k) {
      assert joins[k] == PairJoins(env, n)[k - 1];
    }
  }

  lemma {:induction false} UsedPairsAppend(a: seq<(Key, Value)>, b: seq<(Key, Value)>)
    ensures UsedPairs(a + b) == UsedPairs(a) + UsedPairs(b)
    decreases |b|
  {
    if b == [] {
      assert a + b == a;
    } else {
      var b' := b[..|b| - 1];
      var last := b[|b| - 1];
      var pair := AsPair(last.0, last.1);
      var tail := if Complete(pair) then [pair] else [];
      assert (a + b)[..|a + b| - 1] == a + b';
      assert (a + b)[|a + b| - 1] == last;
      UsedPairsAppend(a, b');
      assert UsedPairs(a + b) == UsedPairs(a + b') + tail;
      assert UsedPairs(b) == UsedPairs(b') + tail;
      assert UsedPairs(a) + UsedPairs(b') + tail == UsedPairs(a) + (UsedPairs(b') + tail);
    }
  }

  /**
   * An entry missing a name or a value is skipped: dropping it anywhere
   * leaves the used pairs as they were, so it adds no join and no clause
   * and uses up no number.
   */
  lemma IncompletePairSkipped(a: seq<(Key, Value)>, e: (Key, Value), b: seq<(Key, Value)>)
    requires !Complete(AsPair(e.0, e.1))
    ensures UsedPairs(a + [e] + b) == UsedPairs(a + b)
  {
    UsedPairsAppend(a + [e], b);
    UsedPairsAppend(a, [e]);
    UsedPairsAppend(a, b);
    assert UsedPairs([e]) == [] by {
      assert [e][..0] == [];
    }
  }

  /** The joins and the clauses depend on the pairs only through the used pairs. */
  lemma WhereSqlDependsOnUsedPairs(env: Env, names: Value, values: Value, p: Value, q: Value, pairOperator: string)
    requires p.Arr? && q.Arr?
    requires UsedPairs(PairList(p)) == UsedPairs(PairList(q))
    ensures WhereSql(env, names, values, p, pairOperator) == WhereSql(env, names, values, q, pairOperator)
  {
  }

  /** Every clause of a pair starts with its number and its prefixed, sanitised name. */
  lemma PairClausesNamePrefixed(env: Env, first: string, used: seq<Value>, j: nat)
    requires j < |used|
    ensures |PairWheres(env, first, used)| == |used|
    ensures StartsWith(PairWheres(env, first, used)[j],
                       PairWhereHead(j + 1, env.sanitize(env.prefix + ToStr(Field(used[j], "name")))))
  {
    var c := Compare(env, used[j], ThreadedValue(env, first, used[..j]));
    var head := PairWhereHead(j + 1, PairName(env, used[j]));
    StartsWithSelf(head);
    StartsWithExtend(head, head, c.operand);
    StartsWithExtend(head + c.operand, head, " ");
    StartsWithExtend(head + c.operand + " ", head, c.value);
    StartsWithExtend(head + c.operand + " " + c.value, head, ")");
    assert PairWheres(env, first, used)[j] == head + c.operand + " " + c.value + ")";
  }

  /**
   * The value text is carried from one used pair to the next: a pair whose
   * value is an empty array compares against the previous used pair's value
   * text, and the first used pair against what the values loop left behind.
   */
  lemma EmptyArrayValueReusesPrevious(env: Env, first: string, used: seq<Value>, j: nat)
    requires j < |used|
    requires Field(used[j], "value") == Arr([])
    ensures |PairWheres(env, first, used)| == |used|
    ensures PairWheres(env, first, used)[j] ==
      PairWhere(j + 1, PairName(env, used[j]), "IN", if j == 0 then first else ThreadedValue(env, first, used[..j]))
  {
    assert used[..0] == [];
  }

  /**
   * With values given, the carried-in text is the last value's text, "0" for
   * a falsy one; with no values (null or an empty list) the variable was
   * never set and reads as "".
   */
  lemma CarriedValueIsLastValue(values: Value)
    ensures OptionList(values) == [] ==> CarriedValue(values) == ""
    ensures OptionList(values) != [] ==>
            var v := OptionList(values)[|OptionList(values)| - 1];
            CarriedValue(values) == if Truthy(v) then ToStr(v) else "0"
  {
  }

  /* ---- where clauses ---- */

  lemma QuotedListTruthy(quoted: seq<string>)
    requires forall j :: 0 <= j < |quoted| ==> |quoted[j]| > 0 && quoted[j][0] == '\''
    ensures StrTruthy(Join(",", quoted)) <==> quoted != []
  {
    if quoted != [] {
      JoinStartsWith(",", quoted, '\'');
    }
  }

  lemma NamesWhereTruthy(env: Env, names: Value)
    ensures StrTruthy(NamesWhere(env, names)) <==> OptionList(names) != []
  {
    if !names.Null? {
      QuotedListTruthy(QuoteNames(env, AsList(names)));
    }
  }

  lemma ValuesWhereTruthy(env: Env, values: Value)
    ensures StrTruthy(ValuesWhere(env, values)) <==> OptionList(values) != []
  {
    if !values.Null? {
      QuotedListTruthy(QuoteValues(env, AsList(values)));
    }
  }

  lemma ParenthesisedJoinTruthy(sep: string, parts: seq<string>)
    requires forall j :: 0 <= j < |parts| ==> |parts[j]| > 0 && parts[j][0] == '('
    ensures StrTruthy(Join(sep, parts)) <==> parts != []
  {
    if parts != [] {
      JoinStartsWith(sep, parts, '(');
    }
  }

  /** Every clause of the pairs is parenthesised. */
  lemma PairWheresParenthesised(env: Env, first: string, used: seq<Value>)
    ensures forall j :: 0 <= j < |PairWheres(env, first, used)| ==>
      |PairWheres(env, first, used)[j]| > 0 && PairWheres(env, first, used)[j][0] == '('
  {
    forall j | 0 <= j < |used| ensures |PairWheres(env, first, used)[j]| > 0 && PairWheres(env, first, used)[j][0] == '(' {
      var c := Compare(env, used[j], ThreadedValue(env, first, used[..j]));
      var w := PairWhere(j + 1, PairName(env, used[j]), c.operand, c.value);
      assert w[0] == '(';
    }
  }

  /** Combining the names and values parts gives at most one parenthesised clause, none when both are empty. */
  lemma NameValueWheresOf(namesWhere: string, valuesWhere: string)
    ensures var nv := NameValueWheres(namesWhere, valuesWhere);
            && |nv| <= 1
            && (nv == [] <==> !StrTruthy(namesWhere) && !StrTruthy(valuesWhere))
            && forall j :: 0 <= j < |nv| ==> |nv[j]| > 0 && nv[j][0] == '('
  {
  }

  /** The names and values part is at most one clause, present exactly when either list is non-empty. */
  lemma NameValueWheresShape(env: Env, names: Value, values: Value)
    ensures var nv := NameValueWheres(NamesWhere(env, names), ValuesWhere(env, values));
            && |nv| <= 1
            && (nv == [] <==> OptionList(names) == [] && OptionList(values) == [])
            && forall j :: 0 <= j < |nv| ==> |nv[j]| > 0 && nv[j][0] == '('
  {
    NamesWhereTruthy(env, names);
    ValuesWhereTruthy(env, values);
    NameValueWheresOf(NamesWhere(env, names), ValuesWhere(env, values));
  }

  /** The pairs part is at most one clause, present exactly when some pair is used. */
  lemma PairsWhereShape(env: Env, first: string, pairs: Value, pairOperator: string)
    ensures var pw := if pairs.Arr? then PairsWhere(pairOperator, PairWheres(env, first, UsedPairs(PairList(pairs)))) else [];
            && |pw| <= 1
            && (pw == [] <==> UsedPairs(PairList(pairs)) == [])
            && forall j :: 0 <= j < |pw| ==> |pw[j]| > 0 && pw[j][0] == '('
  {
    var wheres := PairWheres(env, first, UsedPairs(PairList(pairs)));
    PairWheresParenthesised(env, first, UsedPairs(PairList(pairs)));
    ParenthesisedJoinTruthy(" " + pairOperator + " ", wheres);
    assert !pairs.Arr? ==> PairList(pairs) == [];
  }

  /**
   * The result holds at most one where clause, and none exactly when there
   * are no names, no values and no used pairs.
   */
  lemma WheresAtMostOne(env: Env, names: Value, values: Value, pairs: Value, pairOperator: string)
    ensures var r := WhereSql(env, names, values, pairs, pairOperator);
            && |r.wheres| <= 1
            && (r.wheres == [] <==>
                  OptionList(names) == [] && OptionList(values) == [] && UsedPairs(PairList(pairs)) == [])
  {
    var first := CarriedValue(values);
    var nv := NameValueWheres(NamesWhere(env, names), ValuesWhere(env, values));
    var pw := if pairs.Arr? then PairsWhere(pairOperator, PairWheres(env, first, UsedPairs(PairList(pairs)))) else [];
    NameValueWheresShape(env, names, values);
    PairsWhereShape(env, first, pairs, pairOperator);
    ParenthesisedConcat(nv, pw);
    FinalWheresShape(nv + pw);
  }

  /** Two lists of parenthesised clauses make one. */
  lemma ParenthesisedConcat(a: seq<string>, b: seq<string>)
    requires forall j :: 0 <= j < |a| ==> |a[j]| > 0 && a[j][0] == '('
    requires forall j :: 0 <= j < |b| ==> |b[j]| > 0 && b[j][0] == '('
    ensures forall j :: 0 <= j < |a + b| ==> |(a + b)[j]| > 0 && (a + b)[j][0] == '('
  {
    forall j | 0 <= j < |a + b| ensures |(a + b)[j]| > 0 && (a + b)[j][0] == '(' {
      if j < |a| { assert (a + b)[j] == a[j]; } else { assert (a + b)[j] == b[j - |a|]; }
    }
  }

  /** Parenthesised clauses are wrapped into one clause, or none when there are none. */
  lemma FinalWheresShape(all: seq<string>)
    requires forall j :: 0 <= j < |all| ==> |all[j]| > 0 && all[j][0] == '('
    ensures |FinalWheres(all)| <= 1
    ensures FinalWheres(all) == [] <==> all == []
  {
    ParenthesisedJoinTruthy(" AND ", all);
  }

  /** A bare pair gives the same clauses as a list holding just that pair. */
  lemma BarePairIsListOfOne(env: Env, names: Value, values: Value, pair: Value, pairOperator: string)
    requires pair.Arr? && (IsSet(pair, "name") || IsSet(pair, "value"))
    ensures WhereSql(env, names, values, pair, pairOperator) ==
            WhereSql(env, names, values, Arr([(IntKey(0), pair)]), pairOperator)
  {
    assert Field(Arr([(IntKey(0), pair)]), "name") == Null;
    assert Field(Arr([(IntKey(0), pair)]), "value") == Null;
  }

  /** A non-array entry `k => v` is read as the pair with name k and value v. */
  lemma ShortcutIsNameValuePair(env: Env, names: Value, values: Value, k: string, v: Value, pairOperator: string)
    requires k != "name" && k != "value" && !v.Arr?
    ensures WhereSql(env, names, values, Arr([(StrKey(k), v)]), pairOperator) ==
            WhereSql(env, names, values, Arr([(IntKey(0), Arr([(StrKey("name"), Str(k)), (StrKey("value"), v)]))]), pairOperator)
  {
    var p := Arr([(StrKey("name"), Str(k)), (StrKey("value"), v)]);
    var shortcut := Arr([(StrKey(k), v)]);
    var listed := Arr([(IntKey(0), p)]);
    assert Field(shortcut, "name") == Null && Field(shortcut, "value") == Null;
    assert Field(listed, "name") == Null && Field(listed, "value") == Null;
    assert PairList(shortcut) == [(StrKey(k), v)];
    assert PairList(listed) == [(IntKey(0), p)];
    assert AsPair(StrKey(k), v) == p;
    SingleEntryUsed((StrKey(k), v));
    SingleEntryUsed((IntKey(0), p));
    WhereSqlDependsOnUsedPairs(env, names, values, shortcut, listed, pairOperator);
  }

  lemma SingleEntryUsed(e: (Key, Value))
    ensures UsedPairs([e]) == if Complete(AsPair(e.0, e.1)) then [AsPair(e.0, e.1)] else []
  {
    assert [e][..0] == [];
  }
}
