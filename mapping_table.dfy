/**
 * The stored header mapping: the `map` of config object
 * language_header.mappings, an ordered PHP array from composite key
 * "name:value" to a site langcode.
 */
module MappingTable {
  import opened PhpStrings

  /** One element of the stored array: composite key and langcode. */
  datatype Entry = Entry(key: string, langcode: string)

  /** A PHP array with string keys, in its iteration order. */
  type Table = seq<Entry>

  /** PHP array keys are unique. */
  ghost predicate UniqueKeys(t: Table) {
    forall i, j :: 0 <= i < j < |t| ==> t[i].key != t[j].key
  }

  /** The order ksort() leaves the array in. */
  ghost predicate StrictlySorted(t: Table) {
    forall i, j :: 0 <= i < j < |t| ==> Less(t[i].key, t[j].key)
  }

  /** Every key holds the ':' that separates header name from header value. */
  ghost predicate KeyedTable(t: Table) {
    forall i :: 0 <= i < |t| ==> ':' in t[i].key
  }

  /** The array read as a dictionary, forgetting the order. */
  function ToMap(t: Table): map<string, string>
  {
    if t == [] then map[] else ToMap(t[1..])[t[0].key := t[0].langcode]
  }

  /** Every key of the array is a key of the dictionary. */
  lemma {:induction false} ToMapHasAll(t: Table)
    ensures forall i :: 0 <= i < |t| ==> t[i].key in ToMap(t)
  {
    if t != [] {
      ToMapHasAll(t[1..]);
      assert forall i :: 0 < i < |t| ==> t[1..][i - 1] == t[i];
    }
  }

  /** A key no entry carries is not a key of the dictionary. */
  lemma {:induction false} ToMapAbsent(t: Table, k: string)
    requires forall i :: 0 <= i < |t| ==> t[i].key != k
    ensures k !in ToMap(t)
  {
    if t != [] {
      assert forall i :: 0 < i < |t| ==> t[1..][i - 1] == t[i];
      ToMapAbsent(t[1..], k);
    }
  }

  /** A key of the dictionary is carried by some entry of the array. */
  lemma {:induction false} ToMapIndex(t: Table, k: string) returns (i: int)
    requires k in ToMap(t)
    ensures 0 <= i < |t| && t[i].key == k
  {
    if t[0].key == k {
      i := 0;
    } else {
      var j := ToMapIndex(t[1..], k);
      i := j + 1;
    }
  }

  /** Looking up a key of an array with unique keys gives its own langcode. */
  lemma {:induction false} ToMapAt(t: Table, i: int)
    requires UniqueKeys(t) && 0 <= i < |t|
    ensures t[i].key in ToMap(t) && ToMap(t)[t[i].key] == t[i].langcode
  {
    if i > 0 {
      ToMapAt(t[1..], i - 1);
    }
  }

  /** Inserting an entry with a new key anywhere adds exactly that key. */
  lemma {:induction false} ToMapInsert(a: Table, e: Entry, b: Table)
    requires e.key !in ToMap(a + b)
    ensures ToMap(a + [e] + b) == ToMap(a + b)[e.key := e.langcode]
  {
    if a != [] {
      assert (a + [e] + b)[1..] == a[1..] + [e] + b;
      assert (a + b)[1..] == a[1..] + b;
      assert (a + b)[0] == a[0];
      ToMapInsert(a[1..], e, b);
    } else {
      assert a + [e] + b == [e] + b && a + b == b;
      assert ([e] + b)[1..] == b && ([e] + b)[0] == e;
    }
  }

  /** With unique keys, the last entry adds its key to the dictionary of the others. */
  lemma ToMapSnoc(t: Table)
    requires UniqueKeys(t) && t != []
    ensures ToMap(t) == ToMap(t[..|t| - 1])[t[|t| - 1].key := t[|t| - 1].langcode]
  {
    var init, last := t[..|t| - 1], t[|t| - 1];
    assert init + [last] + [] == t && init + [] == init;
    assert forall i :: 0 <= i < |init| ==> init[i].key != last.key;
    ToMapAbsent(init, last.key);
    ToMapInsert(init, last, []);
  }

  lemma StrictlySortedUnique(t: Table)
    requires StrictlySorted(t)
    ensures UniqueKeys(t)
  {
    forall i, j | 0 <= i < j < |t| ensures t[i].key != t[j].key {
      LessIrreflexive(t[i].key);
    }
  }

  /**
   * PHP's `$t[$k] = $v`: an existing key keeps its position and takes the
   * new value, a new key is appended at the end.
   */
  function Put(t: Table, k: string, v: string): (r: Table)
    requires UniqueKeys(t)
    ensures UniqueKeys(r)
    ensures ToMap(r) == ToMap(t)[k := v]
    ensures |r| == if k in ToMap(t) then |t| else |t| + 1
    ensures forall i :: 0 <= i < |t| ==> r[i] == (if t[i].key == k then Entry(k, v) else t[i])
    ensures |r| > |t| ==> r[|t|] == Entry(k, v)
  {
    if t == [] then [Entry(k, v)]
    else if t[0].key == k then
      assert ToMap(t)[k := v] == ToMap(t[1..])[k := v];
      [Entry(k, v)] + t[1..]
    else
      var rest := Put(t[1..], k, v);
      PutHead(t, k, v, rest);
      [t[0]] + rest
  }

  /** The step of Put that keeps an entry with another key in front. */
  lemma PutHead(t: Table, k: string, v: string, rest: Table)
    requires UniqueKeys(t) && t != [] && t[0].key != k
    requires UniqueKeys(rest) && ToMap(rest) == ToMap(t[1..])[k := v]
    ensures UniqueKeys([t[0]] + rest)
    ensures ToMap([t[0]] + rest) == ToMap(t)[k := v]
    ensures k in ToMap(t) <==> k in ToMap(t[1..])
  {
    ToMapAbsent(t[1..], t[0].key);
    ToMapHasAll(rest);
    var r := [t[0]] + rest;
    assert forall j :: 0 <= j < |rest| ==> rest[j].key != t[0].key;
    ConsUnique(t[0], rest);
    assert r[0] == t[0] && r[1..] == rest;
    assert ToMap(r) == ToMap(rest)[t[0].key := t[0].langcode];
    UpdatesCommute(ToMap(t[1..]), t[0].key, t[0].langcode, k, v);
  }

  /** Putting an entry with a fresh key in front keeps the keys unique. */
  lemma ConsUnique(e: Entry, t: Table)
    requires UniqueKeys(t) && forall j :: 0 <= j < |t| ==> t[j].key != e.key
    ensures UniqueKeys([e] + t)
  {
    var r := [e] + t;
    forall i, j | 0 <= i < j < |r| ensures r[i].key != r[j].key {
      assert r[j] == t[j - 1];
      if i > 0 {
        assert r[i] == t[i - 1];
      }
    }
  }

  lemma UpdatesCommute(m: map<string, string>, k1: string, v1: string, k2: string, v2: string)
    requires k1 != k2
    ensures m[k1 := v1][k2 := v2] == m[k2 := v2][k1 := v1]
  {
  }

  /** Inserts e into a strictly sorted array at the place its key belongs. */
  method InsertSorted(s: Table, e: Entry) returns (r: Table)
    requires StrictlySorted(s) && e.key !in ToMap(s)
    ensures StrictlySorted(r)
    ensures ToMap(r) == ToMap(s)[e.key := e.langcode]
    ensures |r| == |s| + 1
  {
    var j := 0;
    while j < |s| && Less(s[j].key, e.key)
      invariant 0 <= j <= |s|
      invariant forall a :: 0 <= a < j ==> Less(s[a].key, e.key)
    {
      j := j + 1;
    }
    if j < |s| {
      ToMapHasAll(s);
      LessTotal(s[j].key, e.key);
      forall b | j < b < |s| ensures Less(e.key, s[b].key) {
        LessTransitive(e.key, s[j].key, s[b].key);
      }
    }
    assert forall b :: j <= b < |s| ==> Less(e.key, s[b].key);
    r := s[..j] + [e] + s[j..];
    assert s[..j] + s[j..] == s;
    ToMapInsert(s[..j], e, s[j..]);
    InsertKeepsSorted(s, j, e);
  }

  /** Placing e after the smaller keys and before the greater ones keeps the array sorted. */
  lemma InsertKeepsSorted(s: Table, j: int, e: Entry)
    requires StrictlySorted(s) && 0 <= j <= |s|
    requires forall a :: 0 <= a < j ==> Less(s[a].key, e.key)
    requires forall b :: j <= b < |s| ==> Less(e.key, s[b].key)
    ensures StrictlySorted(s[..j] + [e] + s[j..])
  {
    var r := s[..j] + [e] + s[j..];
    assert forall x :: 0 <= x < j ==> r[x] == s[x];
    assert forall y :: j < y < |r| ==> r[y] == s[y - 1];
  }

  /**
   * ksort(): the same entries, strictly ascending by key. PHP's sort is a
   * hybrid insertion sort; with unique keys every correct sort gives the
   * same array (SortedTableUnique), so an insertion sort stands for it.
   */
  method KSort(t: Table) returns (s: Table)
    requires UniqueKeys(t)
    ensures StrictlySorted(s)
    ensures ToMap(s) == ToMap(t)
    ensures |s| == |t|
  {
    s := [];
    for i := 0 to |t|
      invariant StrictlySorted(s) && |s| == i
      invariant ToMap(s) == ToMap(t[..i])
    {
      assert t[..i + 1] == t[..i] + [t[i]] + [];
      assert t[..i] + [] == t[..i];
      ToMapAbsent(t[..i], t[i].key);
      ToMapInsert(t[..i], t[i], []);
      s := InsertSorted(s, t[i]);
    }
    assert t[..|t|] == t;
  }

  /** Removing the first entry of an array with unique keys removes its key. */
  lemma ToMapTail(t: Table)
    requires UniqueKeys(t) && t != []
    ensures ToMap(t[1..]) == ToMap(t) - {t[0].key}
  {
    ToMapAbsent(t[1..], t[0].key);
    assert ToMap(t) == ToMap(t[1..])[t[0].key := t[0].langcode];
  }

  /** Two sorted arrays holding the same dictionary are the same array. */
  lemma {:induction false} SortedTableUnique(a: Table, b: Table)
    requires StrictlySorted(a) && StrictlySorted(b)
    requires ToMap(a) == ToMap(b)
    ensures a == b
  {
    StrictlySortedUnique(a);
    StrictlySortedUnique(b);
    if a != [] && b != [] {
      ToMapHasAll(a);
      ToMapHasAll(b);
      var j := ToMapIndex(b, a[0].key);
      var i := ToMapIndex(a, b[0].key);
      if j != 0 {
        LessAsymmetric(a[0].key, a[i].key);
        assert false;
      }
      ToMapAt(a, 0);
      ToMapAt(b, 0);
      ToMapTail(a);
      ToMapTail(b);
      SortedTableUnique(a[1..], b[1..]);
      assert a == [a[0]] + a[1..] && b == [b[0]] + b[1..];
    } else if a != [] {
      ToMapAt(a, 0);
      assert false;
    } else if b != [] {
      ToMapAt(b, 0);
      assert false;
    }
  }

  /**
   * `list($name, $value) = explode(':', $key)`: the text before the first
   * ':' and the text between the first and the second ':' (or the end).
   * Whatever follows a second ':' is dropped.
   */
  function SplitKey(key: string): (parts: (string, string))
    requires ':' in key
    ensures ':' !in parts.0 && ':' !in parts.1
    ensures |parts.0| + 1 + |parts.1| <= |key|
    ensures key[..|parts.0| + 1 + |parts.1|] == parts.0 + ":" + parts.1
    ensures |parts.0| + 1 + |parts.1| < |key| ==> key[|parts.0| + 1 + |parts.1|] == ':'
  {
    var pieces := Explode(':', key);
    ExplodeSplits(':', key);
    ExplodedKeyLayout(key);
    (pieces[0], pieces[1])
  }

  /** How a key is laid out around its first two exploded pieces. */
  lemma ExplodedKeyLayout(key: string)
    requires |Explode(':', key)| > 1
    ensures var pieces := Explode(':', key);
      && |pieces[0]| + 1 + |pieces[1]| <= |key|
      && key[..|pieces[0]| + 1 + |pieces[1]|] == pieces[0] + ":" + pieces[1]
      && (|pieces[0]| + 1 + |pieces[1]| < |key| ==> key[|pieces[0]| + 1 + |pieces[1]|] == ':')
  {
    var pieces := Explode(':', key);
    ImplodeExplode(':', key);
    assert key == pieces[0] + ":" + Implode(':', pieces[1..]);
    if |pieces| > 2 {
      assert Implode(':', pieces[1..]) == pieces[1] + ":" + Implode(':', pieces[2..]);
      assert key == (pieces[0] + ":" + pieces[1]) + (":" + Implode(':', pieces[2..]));
    }
  }

  /** Joining a colon-free name and value with ':' and splitting again is the identity. */
  lemma SplitJoinedKey(name: string, value: string)
    requires ':' !in name && ':' !in value
    ensures SplitKey(name + ":" + value) == (name, value)
  {
    ExplodeImplode(':', [name, value]);
    assert Implode(':', [name, value]) == name + ":" + value;
  }

  /** A second ':' cuts the value short: only the text before it is kept. */
  lemma SplitDropsAfterSecondColon(name: string, value: string, rest: string)
    requires ':' !in name && ':' !in value
    ensures SplitKey(name + ":" + value + ":" + rest) == (name, value)
  {
    var pieces := Explode(':', rest);
    ImplodeExplode(':', rest);
    var all := [name, value] + pieces;
    assert all[1..] == [value] + pieces && ([value] + pieces)[1..] == pieces;
    assert Implode(':', [value] + pieces) == value + [':'] + rest;
    assert Implode(':', all) == name + [':'] + (value + [':'] + rest);
    assert name + ":" + value + ":" + rest == Implode(':', all);
    ExplodeImplode(':', all);
  }
}
