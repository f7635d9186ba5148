/**
 * The JavaScript collections the extractor builds: a `Set` iterates in
 * insertion order and holds each value once, a `Map` keeps each key at the
 * place it was first set and holds the value it was last set to.
 */
module Collections {
  import opened Text

  predicate Distinct<T(==, !new)>(xs: seq<T>) {
    forall i, j :: 0 <= i < j < |xs| ==> xs[i] != xs[j]
  }

  /** Position of the first occurrence of `x` in `xs`. */
  function FirstIndex<T(==, !new)>(xs: seq<T>, x: T): (i: nat)
    requires x in xs
    ensures i < |xs| && xs[i] == x
    ensures forall k :: 0 <= k < i ==> xs[k] != x
  {
    if xs[0] == x then 0 else 1 + FirstIndex(xs[1..], x)
  }

  /** `Set.prototype.add` on a set represented by its insertion order. */
  function Add<T(==, !new)>(xs: seq<T>, x: T): (r: seq<T>)
    ensures forall y :: y in r <==> y in xs || y == x
    ensures Distinct(xs) ==> Distinct(r)
    ensures |xs| <= |r| && r[..|xs|] == xs
  {
    if x in xs then xs else xs + [x]
  }

  /** `new Set(items)`: the items added one after the other. */
  function SetOf<T(==, !new)>(items: seq<T>): (r: seq<T>)
    ensures Distinct(r)
    ensures forall y :: y in r <==> y in items
  {
    if items == [] then [] else Add(SetOf(items[..|items| - 1]), items[|items| - 1])
  }

  /**
   * A set iterates in order of first insertion: of two members, the one that
   * came first in `items` comes first.
   */
  lemma {:induction false} SetOfOrder<T(!new)>(items: seq<T>, i: nat, j: nat)
    requires i < j < |SetOf(items)|
    ensures FirstIndex(items, SetOf(items)[i]) < FirstIndex(items, SetOf(items)[j])
  {
    var init := items[..|items| - 1];
    var prev := SetOf(init);
    var r := SetOf(items);
    FirstIndexPrefix(items, init, r[i]);
    if j < |prev| {
      SetOfOrder(init, i, j);
      FirstIndexPrefix(items, init, r[j]);
    } else {
      // r[j] is the last item, new to the set; r[i] was already there
      assert r[j] == items[|items| - 1] && r[j] !in init;
      assert r[i] in init;
      FirstIndexPrefix(items, init, r[i]);
    }
  }

  lemma FirstIndexPrefix<T(!new)>(items: seq<T>, init: seq<T>, x: T)
    requires |items| > 0 && init == items[..|items| - 1]
    ensures x in init ==> FirstIndex(items, x) == FirstIndex(init, x)
    ensures x in items && x !in init ==> FirstIndex(items, x) == |init|
  {
    if x in init {
      var k := FirstIndex(init, x);
      var k' := FirstIndex(items, x);
      assert items[k] == x;
      assert k' <= k;
      assert init[k'] == x;
    } else if x in items {
      assert items == init + [items[|init|]];
    }
  }

  /** A `Map` as its key order and its current bindings. */
  datatype OrderedMap<K(!new), V> = OrderedMap(keys: seq<K>, values: map<K, V>) {
    ghost predicate Valid() {
      Distinct(keys) && forall k :: k in values <==> k in keys
    }
  }

  /** `Map.prototype.set` */
  function Put<K(==, !new), V>(m: OrderedMap<K, V>, k: K, v: V): (r: OrderedMap<K, V>)
    requires m.Valid()
    ensures r.Valid()
    ensures r.keys == Add(m.keys, k)
    ensures k in r.values && r.values[k] == v
    ensures forall k' :: k' != k ==> (k' in r.values <==> k' in m.values)
    ensures forall k' :: k' != k && k' in m.values ==> r.values[k'] == m.values[k']
  {
    OrderedMap(Add(m.keys, k), m.values[k := v])
  }

  function Keys<K(!new), V>(entries: seq<(K, V)>): (ks: seq<K>)
    ensures |ks| == |entries| && forall i :: 0 <= i < |entries| ==> ks[i] == entries[i].0
  {
    if entries == [] then [] else Keys(entries[..|entries| - 1]) + [entries[|entries| - 1].0]
  }

  /** The value of the last entry whose key is `k`. */
  function LastValue<K(==, !new), V>(entries: seq<(K, V)>, k: K): (v: V)
    requires k in Keys(entries)
    ensures exists i :: 0 <= i < |entries| && entries[i] == (k, v)
                        && forall j :: i < j < |entries| ==> entries[j].0 != k
  {
    var last := entries[|entries| - 1];
    if last.0 == k then last.1
    else
      assert Keys(entries) == Keys(entries[..|entries| - 1]) + [last.0];
      LastValue(entries[..|entries| - 1], k)
  }

  /** An entry that no later entry overrides holds the last value of its key. */
  lemma LastValueAt<K(!new), V>(entries: seq<(K, V)>, i: nat)
    requires i < |entries| && forall j :: i < j < |entries| ==> entries[j].0 != entries[i].0
    ensures entries[i].0 in Keys(entries) && LastValue(entries, entries[i].0) == entries[i].1
  {
    var k := entries[i].0;
    assert Keys(entries)[i] == k;
    var v := LastValue(entries, k);
    var i' :| 0 <= i' < |entries| && entries[i'] == (k, v)
              && forall j :: i' < j < |entries| ==> entries[j].0 != k;
    if i' < i {
      assert entries[i].0 == k;
    }
  }

  /** The last value of a key after one more entry: that entry's value if it has the key, otherwise unchanged. */
  lemma LastValueSnoc<K(!new), V>(entries: seq<(K, V)>, e: (K, V), k: K)
    requires k in Keys(entries + [e])
    ensures e.0 == k ==> LastValue(entries + [e], k) == e.1
    ensures e.0 != k ==> k in Keys(entries) && LastValue(entries + [e], k) == LastValue(entries, k)
  {
    var es := entries + [e];
    assert es[..|es| - 1] == entries;
    assert Keys(es) == Keys(entries) + [e.0];
  }

  /** `new Map(entries)`: the entries set one after the other. */
  function MapOf<K(==, !new), V>(entries: seq<(K, V)>): (m: OrderedMap<K, V>)
    ensures m.Valid()
    ensures m.keys == SetOf(Keys(entries))
    ensures forall k :: k in m.values ==> m.values[k] == LastValue(entries, k)
  {
    if entries == [] then OrderedMap([], map[])
    else
      var init := entries[..|entries| - 1];
      var last := entries[|entries| - 1];
      assert Keys(entries) == Keys(init) + [last.0];
      assert Keys(entries)[..|entries| - 1] == Keys(init);
      Put(MapOf(init), last.0, last.1)
  }

  /** `Array.from(m.values())`: the bindings in key order. */
  function ValuesInOrder<K(!new), V>(keys: seq<K>, values: map<K, V>): (vs: seq<V>)
    requires forall k :: k in keys ==> k in values
    ensures |vs| == |keys| && forall i :: 0 <= i < |keys| ==> vs[i] == values[keys[i]]
  {
    if keys == [] then [] else ValuesInOrder(keys[..|keys| - 1], values) + [values[keys[|keys| - 1]]]
  }

  /** Total length of the parts. */
  function TotalLength(parts: seq<string>): nat {
    if parts == [] then 0 else TotalLength(parts[..|parts| - 1]) + |parts[|parts| - 1]|
  }

  /**
   * `r` is the parts one after the other: exactly as long as all of them,
   * each standing at the total length of the parts before it.
   */
  predicate Concatenates(r: string, parts: seq<string>) {
    && |r| == TotalLength(parts)
    && forall i :: 0 <= i < |parts| ==> HasPrefixAt(r, TotalLength(parts[..i]), parts[i])
  }

  /** `parts.join("")` */
  function Join(parts: seq<string>): (r: string)
    ensures Concatenates(r, parts)
    ensures forall c :: c in r ==> exists i :: 0 <= i < |parts| && c in parts[i]
  {
    if parts == [] then ""
    else
      var init := parts[..|parts| - 1];
      var last := parts[|parts| - 1];
      ConcatenatesAppend(Join(init), init, last);
      assert init + [last] == parts;
      Join(init) + last
  }

  /** Appending a part to the parts appends it to the string they concatenate to. */
  lemma ConcatenatesAppend(r: string, parts: seq<string>, p: string)
    requires Concatenates(r, parts)
    ensures Concatenates(r + p, parts + [p])
  {
    var ps := parts + [p];
    assert ps[..|parts|] == parts;
    forall i | 0 <= i < |ps| ensures HasPrefixAt(r + p, TotalLength(ps[..i]), ps[i]) {
      if i < |parts| {
        assert ps[..i] == parts[..i];
        var o := TotalLength(parts[..i]);
        assert (r + p)[o..o + |parts[i]|] == r[o..o + |parts[i]|];
      } else {
        assert (r + p)[|r|..] == p;
      }
    }
  }

  /** The string the parts concatenate to is unique: the prefix up to the last part holds the others. */
  lemma ConcatenatesInit(r: string, parts: seq<string>)
    requires parts != [] && Concatenates(r, parts)
    ensures var n := TotalLength(parts[..|parts| - 1]);
            n <= |r| && Concatenates(r[..n], parts[..|parts| - 1]) && r[n..] == parts[|parts| - 1]
  {
    var init := parts[..|parts| - 1];
    var n := TotalLength(init);
    assert parts[..|init|] == init;
    forall i | 0 <= i < |init| ensures HasPrefixAt(r[..n], TotalLength(init[..i]), init[i]) {
      assert parts[..i] == init[..i];
      TotalLengthPrefix(init, i);
    }
  }

  /** The parts before position i take no more room than all of them. */
  lemma {:induction false} TotalLengthPrefix(parts: seq<string>, i: nat)
    requires i < |parts|
    ensures TotalLength(parts[..i]) + |parts[i]| <= TotalLength(parts)
    decreases |parts|
  {
    var init := parts[..|parts| - 1];
    if i < |init| {
      assert parts[..i] == init[..i];
      TotalLengthPrefix(init, i);
    } else {
      assert parts[..i] == init;
    }
  }

  /** Only one string concatenates given parts. */
  lemma {:induction false} ConcatenatesUnique(r: string, r': string, parts: seq<string>)
    requires Concatenates(r, parts) && Concatenates(r', parts)
    ensures r == r'
    decreases |parts|
  {
    if parts != [] {
      var n := TotalLength(parts[..|parts| - 1]);
      ConcatenatesInit(r, parts);
      ConcatenatesInit(r', parts);
      ConcatenatesUnique(r[..n], r'[..n], parts[..|parts| - 1]);
      assert r == r[..n] + r[n..];
      assert r' == r'[..n] + r'[n..];
    }
  }

  /** Joining two lists of parts is joining each and concatenating the results. */
  lemma {:induction false} JoinAppend(a: seq<string>, b: seq<string>)
    ensures Join(a + b) == Join(a) + Join(b)
    decreases |b|
  {
    if b != [] {
      var init := b[..|b| - 1];
      assert (a + b)[..|a + b| - 1] == a + init;
      JoinAppend(a, init);
    } else {
      assert a + b == a;
    }
  }
}
