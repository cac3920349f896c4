/**
 * The loosely typed PHP values that the private-settings filter builder
 * receives as options: null, booleans, integers, strings and ordered arrays
 * with integer or string keys (floats and objects are not modelled), with
 * the PHP conversions the builder relies on.
 */
module PhpValues {
  import opened Common

  datatype Key = IntKey(i: int) | StrKey(s: string)

  datatype Value =
    | Null
    | Bool(b: bool)
    | Int(i: int)
    | Str(s: string)
    | Arr(entries: seq<(Key, Value)>)

  /** The (string) cast, as used by string interpolation and concatenation. */
  function ToStr(v: Value): string {
    match v
    case Null => ""
    case Bool(b) => if b then "1" else ""
    case Int(i) => IntToString(i)
    case Str(s) => s
    case Arr(_) => "Array"
  }

  /** PHP's truthiness of a string: only "" and "0" are false. */
  predicate StrTruthy(s: string) {
    s != "" && s != "0"
  }

  /** PHP's truthiness (the negation of empty()). */
  predicate Truthy(v: Value) {
    match v
    case Null => false
    case Bool(b) => b
    case Int(i) => i != 0
    case Str(s) => StrTruthy(s)
    case Arr(e) => e != []
  }

  /** An array key read back as a value ($index in foreach). */
  function KeyValue(k: Key): Value {
    match k
    case IntKey(i) => Int(i)
    case StrKey(s) => Str(s)
  }

  /** $array[$key]: the entry stored under the key, null when there is none. */
  function Lookup(entries: seq<(Key, Value)>, k: Key): (r: Value)
    ensures r != Null ==> exists j :: 0 <= j < |entries| && entries[j] == (k, r)
  {
    if entries == [] then Null
    else if entries[0].0 == k then entries[0].1
    else Lookup(entries[1..], k)
  }

  /** $v[$name] for a string key; null when v is not an array. */
  function Field(v: Value, name: string): Value {
    if v.Arr? then Lookup(v.entries, StrKey(name)) else Null
  }

  /** isset($v[$name]) for an array v. */
  predicate IsSet(v: Value, name: string) {
    v.Arr? && Field(v, name) != Null
  }

  /** The values of an array, in order. */
  function Values(entries: seq<(Key, Value)>): (r: seq<Value>)
    ensures |r| == |entries|
    ensures forall j :: 0 <= j < |entries| ==> r[j] == entries[j].1
  {
    if entries == [] then [] else Values(entries[..|entries| - 1]) + [entries[|entries| - 1].1]
  }

  /** `if (!is_array($v)) { $v = [$v]; }`, then the values to iterate. */
  function AsList(v: Value): seq<Value> {
    if v.Arr? then Values(v.entries) else [v]
  }

  /** The characters is_numeric skips before a number. */
  const Whitespace: string := " \t\n\r\U{0B}\U{0C}"

  /**
   * Where is_numeric's scanner is in a string: before the number (skipping
   * whitespace), after the sign, in the integer digits, after a leading
   * '.', in the fraction, after the 'e', after the exponent's sign, in the
   * exponent's digits.
   */
  datatype NumState = Lead | Signed | IntDigits | LeadingDot | Fraction | Exponent | ExponentSign | ExponentDigits

  /** The scanner states in which the string may end. */
  predicate Accepting(q: NumState) {
    q == IntDigits || q == Fraction || q == ExponentDigits
  }

  /** Whether the rest of the string, read from state q, is accepted. */
  predicate NumericFrom(q: NumState, s: string)
    decreases |s|
  {
    if s == [] then Accepting(q)
    else
      var c := s[0];
      var rest := s[1..];
      match q
      case Lead =>
        if c in Whitespace then NumericFrom(Lead, rest)
        else if c in "+-" then NumericFrom(Signed, rest)
        else if IsDigit(c) then NumericFrom(IntDigits, rest)
        else c == '.' && NumericFrom(LeadingDot, rest)
      case Signed =>
        if IsDigit(c) then NumericFrom(IntDigits, rest)
        else c == '.' && NumericFrom(LeadingDot, rest)
      case IntDigits =>
        if IsDigit(c) then NumericFrom(IntDigits, rest)
        else if c == '.' then NumericFrom(Fraction, rest)
        else c in "eE" && NumericFrom(Exponent, rest)
      case LeadingDot =>
        IsDigit(c) && NumericFrom(Fraction, rest)
      case Fraction =>
        if IsDigit(c) then NumericFrom(Fraction, rest)
        else c in "eE" && NumericFrom(Exponent, rest)
      case Exponent =>
        if c in "+-" then NumericFrom(ExponentSign, rest)
        else IsDigit(c) && NumericFrom(ExponentDigits, rest)
      case ExponentSign =>
        IsDigit(c) && NumericFrom(ExponentDigits, rest)
      case ExponentDigits =>
        IsDigit(c) && NumericFrom(ExponentDigits, rest)
  }

  /**
   * is_numeric for strings under PHP 7: leading whitespace, an optional
   * sign, digits with an optional fraction (or a '.' and digits), an
   * optional exponent, and nothing after it.
   */
  predicate NumericString(s: string) {
    NumericFrom(Lead, s)
  }

  /** is_numeric: integers and numeric strings (booleans, null and arrays are not). */
  predicate IsNumeric(v: Value) {
    match v
    case Int(_) => true
    case Str(s) => NumericString(s)
    case _ => false
  }

  /* ---- array_merge ---- */

  /** `$acc[$s] = $v`: overwrite the first entry with key s in place, or append one. */
  function SetString(acc: seq<(Key, Value)>, s: string, v: Value): seq<(Key, Value)>
  {
    if acc == [] then [(StrKey(s), v)]
    else if acc[0].0 == StrKey(s) then [(StrKey(s), v)] + acc[1..]
    else [acc[0]] + SetString(acc[1..], s, v)
  }

  /**
   * The loop of array_merge: integer-keyed entries are appended under the
   * next number, string-keyed entries overwrite or are appended.
   */
  function MergeEntries(acc: seq<(Key, Value)>, next: int, es: seq<(Key, Value)>): seq<(Key, Value)>
    decreases |es|
  {
    if es == [] then acc
    else match es[0].0
      case IntKey(_) => MergeEntries(acc + [(IntKey(next), es[0].1)], next + 1, es[1..])
      case StrKey(s) => MergeEntries(SetString(acc, s, es[0].1), next, es[1..])
  }

  /** PHP's array_merge($a, $b). */
  function ArrayMerge(a: seq<(Key, Value)>, b: seq<(Key, Value)>): seq<(Key, Value)>
  {
    MergeEntries([], 0, a + b)
  }

  /** A PHP list: the values under the keys 0, 1, 2, ... */
  function ListOf(vs: seq<Value>): (r: seq<(Key, Value)>)
    ensures |r| == |vs|
    ensures forall j :: 0 <= j < |vs| ==> r[j] == (IntKey(j), vs[j])
  {
    if vs == [] then [] else ListOf(vs[..|vs| - 1]) + [(IntKey(|vs| - 1), vs[|vs| - 1])]
  }

  predicate HasStringKey(entries: seq<(Key, Value)>, s: string) {
    exists j :: 0 <= j < |entries| && entries[j].0 == StrKey(s)
  }

  /** No string key occurs twice (every PHP array has this shape). */
  predicate DistinctStringKeys(entries: seq<(Key, Value)>) {
    forall i, j :: 0 <= i < j < |entries| && entries[i].0.StrKey? ==> entries[i].0 != entries[j].0
  }

  lemma {:induction false} SetStringAppends(acc: seq<(Key, Value)>, s: string, v: Value)
    requires !HasStringKey(acc, s)
    ensures SetString(acc, s, v) == acc + [(StrKey(s), v)]
  {
    if acc != [] {
      assert acc[0].0 != StrKey(s);
      assert !HasStringKey(acc[1..], s) by {
        forall j | 0 <= j < |acc[1..]| ensures acc[1..][j].0 != StrKey(s) {
          assert acc[1..][j] == acc[j + 1];
        }
      }
      SetStringAppends(acc[1..], s, v);
    }
  }

  /** `$acc[$s] = $v` changes what is stored under s and nothing else. */
  lemma {:induction false} SetStringLookup(acc: seq<(Key, Value)>, s: string, v: Value, k: Key)
    ensures Lookup(SetString(acc, s, v), k) == if k == StrKey(s) then v else Lookup(acc, k)
    decreases |acc|
  {
    if acc == [] {
      assert [(StrKey(s), v)][1..] == [];
    } else if acc[0].0 == StrKey(s) {
      assert ([(StrKey(s), v)] + acc[1..])[1..] == acc[1..];
    } else {
      SetStringLookup(acc[1..], s, v, k);
      assert ([acc[0]] + SetString(acc[1..], s, v))[1..] == SetString(acc[1..], s, v);
    }
  }

  lemma HasStringKeyAppend(acc: seq<(Key, Value)>, k: Key, v: Value, s: string)
    ensures HasStringKey(acc + [(k, v)], s) <==> HasStringKey(acc, s) || k == StrKey(s)
  {
    if HasStringKey(acc + [(k, v)], s) {
      var j :| 0 <= j < |acc + [(k, v)]| && (acc + [(k, v)])[j].0 == StrKey(s);
      if j < |acc| {
        assert acc[j].0 == StrKey(s);
      }
    }
    if HasStringKey(acc, s) {
      var j :| 0 <= j < |acc| && acc[j].0 == StrKey(s);
      assert (acc + [(k, v)])[j].0 == StrKey(s);
    }
    if k == StrKey(s) {
      assert (acc + [(k, v)])[|acc|].0 == StrKey(s);
    }
  }

  lemma DistinctStringKeysTail(es: seq<(Key, Value)>)
    requires es != [] && DistinctStringKeys(es)
    ensures DistinctStringKeys(es[1..])
    ensures es[0].0.StrKey? ==> forall j :: 1 <= j < |es| ==> es[j].0 != es[0].0
  {
    var rest := es[1..];
    forall i, j | 0 <= i < j < |rest| && rest[i].0.StrKey? ensures rest[i].0 != rest[j].0 {
      assert rest[i] == es[i + 1] && rest[j] == es[j + 1];
    }
  }

  /**
   * When the string keys of the remaining entries are distinct and do not
   * occur in the accumulator, merging keeps every value in order.
   */
  lemma {:induction false} MergeEntriesValues(acc: seq<(Key, Value)>, next: int, es: seq<(Key, Value)>)
    requires DistinctStringKeys(es)
    requires forall j :: 0 <= j < |es| && es[j].0.StrKey? ==> !HasStringKey(acc, es[j].0.s)
    ensures Values(MergeEntries(acc, next, es)) == Values(acc) + Values(es)
    decreases |es|
  {
    if es != [] {
      var k' := if es[0].0.IntKey? then IntKey(next) else es[0].0;
      var acc' := acc + [(k', es[0].1)];
      MergeStep(acc, next, es);
      KeysStayFresh(acc, es, k');
      MergeEntriesValues(acc', if es[0].0.IntKey? then next + 1 else next, es[1..]);
      ValuesStep(acc, es, k');
    }
  }

  lemma KeysStayFresh(acc: seq<(Key, Value)>, es: seq<(Key, Value)>, k': Key)
    requires es != [] && DistinctStringKeys(es)
    requires forall j :: 0 <= j < |es| && es[j].0.StrKey? ==> !HasStringKey(acc, es[j].0.s)
    requires k'.StrKey? ==> k' == es[0].0
    ensures DistinctStringKeys(es[1..])
    ensures forall j :: 0 <= j < |es[1..]| && es[1..][j].0.StrKey? ==> !HasStringKey(acc + [(k', es[0].1)], es[1..][j].0.s)
  {
    var rest := es[1..];
    DistinctStringKeysTail(es);
    forall j | 0 <= j < |rest| && rest[j].0.StrKey?
      ensures !HasStringKey(acc + [(k', es[0].1)], rest[j].0.s)
    {
      assert rest[j] == es[j + 1];
      HasStringKeyAppend(acc, k', es[0].1, rest[j].0.s);
    }
  }

  lemma ValuesStep(acc: seq<(Key, Value)>, es: seq<(Key, Value)>, k': Key)
    requires es != []
    ensures Values(acc + [(k', es[0].1)]) + Values(es[1..]) == Values(acc) + Values(es)
  {
    var v := es[0].1;
    calc {
      Values(acc + [(k', v)]) + Values(es[1..]);
      { ValuesAppend(acc, [(k', v)]); }
      (Values(acc) + Values([(k', v)])) + Values(es[1..]);
      (Values(acc) + [v]) + Values(es[1..]);
      Values(acc) + ([v] + Values(es[1..]));
      { ValuesCons(es); }
      Values(acc) + Values(es);
    }
  }

  lemma ValuesCons(es: seq<(Key, Value)>)
    requires es != []
    ensures Values(es) == [es[0].1] + Values(es[1..])
  {
    assert es == [es[0]] + es[1..];
    ValuesAppend([es[0]], es[1..]);
  }

  /** One step of the merge when the key of the first entry is new. */
  lemma MergeStep(acc: seq<(Key, Value)>, next: int, es: seq<(Key, Value)>)
    requires es != []
    requires es[0].0.StrKey? ==> !HasStringKey(acc, es[0].0.s)
    ensures MergeEntries(acc, next, es) ==
      MergeEntries(acc + [(if es[0].0.IntKey? then IntKey(next) else es[0].0, es[0].1)],
                   if es[0].0.IntKey? then next + 1 else next, es[1..])
  {
    if es[0].0.StrKey? {
      SetStringAppends(acc, es[0].0.s, es[0].1);
    }
  }

  lemma {:induction false} ValuesAppend(a: seq<(Key, Value)>, b: seq<(Key, Value)>)
    ensures Values(a + b) == Values(a) + Values(b)
  {
    assert |Values(a + b)| == |Values(a) + Values(b)|;
    forall j | 0 <= j < |a + b| ensures Values(a + b)[j] == (Values(a) + Values(b))[j] {
    }
  }

  /**
   * array_merge($a, $list) for an array a whose string keys are distinct
   * and a list: the result holds a's values followed by the list's, in order.
   */
  lemma ArrayMergeAppendsList(a: seq<(Key, Value)>, vs: seq<Value>)
    requires DistinctStringKeys(a)
    ensures Values(ArrayMerge(a, ListOf(vs))) == Values(a) + vs
  {
    var b := ListOf(vs);
    DistinctKeysThenList(a, vs);
    MergeEntriesValues([], 0, a + b);
    ValuesAppend(a, b);
    assert Values(b) == vs;
  }

  /** The number of integer-keyed entries: how far array_merge's counter moves over them. */
  function IntKeyCount(es: seq<(Key, Value)>): nat {
    if es == [] then 0 else (if es[0].0.IntKey? then 1 else 0) + IntKeyCount(es[1..])
  }

  /** array_merge's loop over a + b is its loop over a, then over b. */
  lemma {:induction false} MergeEntriesSplit(acc: seq<(Key, Value)>, next: int, a: seq<(Key, Value)>, b: seq<(Key, Value)>)
    ensures MergeEntries(acc, next, a + b) == MergeEntries(MergeEntries(acc, next, a), next + IntKeyCount(a), b)
    decreases |a|
  {
    if a == [] {
      assert a + b == b;
    } else {
      assert (a + b)[0] == a[0];
      assert (a + b)[1..] == a[1..] + b;
      match a[0].0
      case IntKey(_) =>
        MergeEntriesSplit(acc + [(IntKey(next), a[0].1)], next + 1, a[1..], b);
      case StrKey(s) =>
        MergeEntriesSplit(SetString(acc, s, a[0].1), next, a[1..], b);
    }
  }

  /** Appending an entry under another key leaves a lookup alone. */
  lemma {:induction false} LookupAppendOther(acc: seq<(Key, Value)>, e: (Key, Value), k: Key)
    requires e.0 != k
    ensures Lookup(acc + [e], k) == Lookup(acc, k)
    decreases |acc|
  {
    if acc == [] {
      assert ([] + [e])[1..] == [];
    } else {
      assert (acc + [e])[1..] == acc[1..] + [e];
      LookupAppendOther(acc[1..], e, k);
    }
  }

  lemma HasStringKeyCons(es: seq<(Key, Value)>, s: string)
    requires es != []
    ensures HasStringKey(es, s) <==> es[0].0 == StrKey(s) || HasStringKey(es[1..], s)
  {
    if HasStringKey(es, s) && es[0].0 != StrKey(s) {
      var j :| 0 <= j < |es| && es[j].0 == StrKey(s);
      assert es[1..][j - 1] == es[j];
    }
    if HasStringKey(es[1..], s) {
      var j :| 0 <= j < |es[1..]| && es[1..][j].0 == StrKey(s);
      assert es[j + 1] == es[1..][j];
    }
  }

  /**
   * Over entries with distinct string keys, array_merge's loop stores under
   * a string key the entry's value when the entries have that key, and
   * otherwise what the accumulator already held.
   */
  lemma {:induction false} MergeEntriesStringLookup(acc: seq<(Key, Value)>, next: int, es: seq<(Key, Value)>, s: string)
    requires DistinctStringKeys(es)
    ensures Lookup(MergeEntries(acc, next, es), StrKey(s)) ==
            if HasStringKey(es, s) then Lookup(es, StrKey(s)) else Lookup(acc, StrKey(s))
    decreases |es|
  {
    if es != [] {
      DistinctStringKeysTail(es);
      HasStringKeyCons(es, s);
      match es[0].0
      case IntKey(_) =>
        LookupAppendOther(acc, (IntKey(next), es[0].1), StrKey(s));
        MergeEntriesStringLookup(acc + [(IntKey(next), es[0].1)], next + 1, es[1..], s);
      case StrKey(t) =>
        SetStringLookup(acc, t, es[0].1, StrKey(s));
        MergeEntriesStringLookup(SetString(acc, t, es[0].1), next, es[1..], s);
        if t == s {
          assert !HasStringKey(es[1..], s) by {
            forall j | 0 <= j < |es[1..]| ensures es[1..][j].0 != StrKey(s) {
              assert es[1..][j] == es[j + 1];
            }
          }
        }
    }
  }

  /**
   * array_merge($a, $b) for arrays with distinct string keys: under a string
   * key it holds b's value when b has the key, and a's value otherwise.
   */
  lemma ArrayMergeStringLookup(a: seq<(Key, Value)>, b: seq<(Key, Value)>, s: string)
    requires DistinctStringKeys(a) && DistinctStringKeys(b)
    ensures Lookup(ArrayMerge(a, b), StrKey(s)) ==
            if HasStringKey(b, s) then Lookup(b, StrKey(s)) else Lookup(a, StrKey(s))
  {
    MergeEntriesSplit([], 0, a, b);
    MergeEntriesStringLookup(MergeEntries([], 0, a), IntKeyCount(a), b, s);
    MergeEntriesStringLookup([], 0, a, s);
  }

  /** Appending a list, whose keys are all integers, keeps the string keys distinct. */
  lemma DistinctKeysThenList(a: seq<(Key, Value)>, vs: seq<Value>)
    requires DistinctStringKeys(a)
    ensures DistinctStringKeys(a + ListOf(vs))
  {
    var b := ListOf(vs);
    forall i, j | 0 <= i < j < |a + b| && (a + b)[i].0.StrKey? ensures (a + b)[i].0 != (a + b)[j].0 {
      if j >= |a| {
        assert (a + b)[j] == b[j - |a|];
      }
    }
  }
}
