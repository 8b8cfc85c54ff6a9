/**
  Insertion-ordered dictionaries, as Python's `dict` is: a map together with the
  order in which its keys were first inserted. Assigning to a key that is already
  present replaces its value and keeps its position; a new key goes last.
 */
module OrderedDict {

  /** No element of `s` occurs twice. */
  predicate NoDup<T(==)>(s: seq<T>) {
    forall i, j :: 0 <= i < j < |s| ==> s[i] != s[j]
  }

  datatype ODict<K(==), V> = ODict(keys: seq<K>, items: map<K, V>) {
    /** The key order lists every key of the map exactly once. */
    predicate Valid() {
      && NoDup(keys)
      && (forall k :: k in keys ==> k in items)
      && (forall k :: k in items ==> k in keys)
    }
  }

  type Dict<K(==), V> = d: ODict<K, V> | d.Valid() witness ODict([], map[])

  function Empty<K(==), V>(): Dict<K, V> {
    ODict([], map[])
  }

  /** `d[k] = v` */
  function Put<K(==), V>(d: Dict<K, V>, k: K, v: V): (r: Dict<K, V>)
    ensures r.items == d.items[k := v]
    ensures r.keys == if k in d.items then d.keys else d.keys + [k]
  {
    if k in d.items then ODict(d.keys, d.items[k := v])
    else ODict(d.keys + [k], d.items[k := v])
  }

  /** `d.get(k, default)` */
  function GetOr<K(==), V>(d: Dict<K, V>, k: K, default: V): V {
    if k in d.items then d.items[k] else default
  }

  /** `list(d.values())`: the values in key order. */
  function Values<K(==), V>(d: Dict<K, V>): (vs: seq<V>)
    ensures |vs| == |d.keys|
    ensures forall i :: 0 <= i < |vs| ==> d.keys[i] in d.items && vs[i] == d.items[d.keys[i]]
  {
    ValuesOf(d.keys, d.items)
  }

  /** The values of `items` at `keys`, in order. */
  function ValuesOf<K(==), V>(keys: seq<K>, items: map<K, V>): (vs: seq<V>)
    requires forall k :: k in keys ==> k in items
    ensures |vs| == |keys|
    ensures forall i :: 0 <= i < |vs| ==> vs[i] == items[keys[i]]
  {
    if keys == [] then [] else ValuesOf(keys[..|keys| - 1], items) + [items[keys[|keys| - 1]]]
  }

  /** `list(d.items())`: the key/value pairs in key order. */
  function Items<K(==), V>(d: Dict<K, V>): (r: seq<(K, V)>)
    ensures |r| == |d.keys|
    ensures forall i :: 0 <= i < |r| ==> d.keys[i] in d.items && r[i] == (d.keys[i], d.items[d.keys[i]])
  {
    ItemsOf(d.keys, d.items)
  }

  /** The pairs of `keys` with their values in `items`, in order. */
  function ItemsOf<K(==), V>(keys: seq<K>, items: map<K, V>): (r: seq<(K, V)>)
    requires forall k :: k in keys ==> k in items
    ensures |r| == |keys|
    ensures forall i :: 0 <= i < |r| ==> r[i] == (keys[i], items[keys[i]])
  {
    if keys == [] then [] else ItemsOf(keys[..|keys| - 1], items) + [(keys[|keys| - 1], items[keys[|keys| - 1]])]
  }

  /**
    The elements of `s` in the order of their first occurrence, each once: the key
    order of a dict built by assigning the keys of `s` one after the other.
   */
  function Dedup<T(==)>(s: seq<T>): (r: seq<T>)
    ensures NoDup(r)
    ensures forall x :: x in r ==> x in s
    ensures forall x :: x in s ==> x in r
  {
    if s == [] then []
    else
      var d := Dedup(s[..|s| - 1]);
      if s[|s| - 1] in d then d else d + [s[|s| - 1]]
  }

  /** The position of the first occurrence of `x` in `s`. */
  function IndexOf<T(==)>(s: seq<T>, x: T): (r: nat)
    requires x in s
    ensures r < |s| && s[r] == x && x !in s[..r]
  {
    if s[0] == x then 0 else 1 + IndexOf(s[1..], x)
  }

  /** The first occurrence is the only position holding `x` with no `x` before it. */
  lemma IndexOfUnique<T>(s: seq<T>, x: T, i: nat)
    requires i < |s| && s[i] == x && x !in s[..i]
    ensures IndexOf(s, x) == i
  {
  }

  lemma IndexOfPrefix<T>(a: seq<T>, b: seq<T>, x: T)
    requires x in a
    ensures IndexOf(a + b, x) == IndexOf(a, x)
  {
    var i := IndexOf(a, x);
    assert (a + b)[..i] == a[..i];
    IndexOfUnique(a + b, x, i);
  }

  /**
    `Dedup` keeps the order of first occurrences: of two elements of `s`, `x` is listed
    before `y` exactly when `x` first occurs in `s` before `y` does.
   */
  lemma {:induction false} DedupOrder<T>(s: seq<T>, x: T, y: T)
    requires x in s && y in s
    ensures IndexOf(Dedup(s), x) < IndexOf(Dedup(s), y) <==> IndexOf(s, x) < IndexOf(s, y)
  {
    var p, l := s[..|s| - 1], s[|s| - 1];
    var d := Dedup(p);
    assert s == p + [l];
    if x in p {
      IndexOfPrefix(p, [l], x);
      IndexOfPrefix(d, [l], x);
    } else {
      IndexOfUnique(s, x, |p|);
      if l !in d {
        assert (d + [l])[..|d|] == d;
        IndexOfUnique(d + [l], x, |d|);
      }
    }
    if y in p {
      IndexOfPrefix(p, [l], y);
      IndexOfPrefix(d, [l], y);
    } else {
      IndexOfUnique(s, y, |p|);
      if l !in d {
        assert (d + [l])[..|d|] == d;
        IndexOfUnique(d + [l], y, |d|);
      }
    }
    if x in p && y in p {
      DedupOrder(p, x, y);
    }
  }

  /** One more element: kept if new, dropped if already seen. */
  lemma DedupSnoc<T>(s: seq<T>, x: T)
    ensures Dedup(s + [x]) == if x in s then Dedup(s) else Dedup(s) + [x]
  {
    assert (s + [x])[..|s|] == s;
  }

  /** Appending elements that already occurred does not change the first-occurrence order. */
  lemma {:induction false} DedupAppendSeen<T>(a: seq<T>, b: seq<T>)
    requires forall x :: x in b ==> x in a
    ensures Dedup(a + b) == Dedup(a)
  {
    if b != [] {
      var ab := a + b;
      assert ab[..|ab| - 1] == a + b[..|b| - 1];
      assert forall x :: x in b[..|b| - 1] ==> x in b;
      DedupAppendSeen(a, b[..|b| - 1]);
      assert b[|b| - 1] in b;
      assert ab[|ab| - 1] in Dedup(a);
    } else {
      assert a + b == a;
    }
  }

  /** Appending a run of one new element adds it once, at the end. */
  lemma {:induction false} DedupAppendRun<T>(a: seq<T>, b: seq<T>, x: T)
    requires x !in a && b != []
    requires forall i :: 0 <= i < |b| ==> b[i] == x
    ensures Dedup(a + b) == Dedup(a) + [x]
  {
    var ab := a + b;
    assert ab[..|ab| - 1] == a + b[..|b| - 1];
    if |b| == 1 {
      assert a + b[..|b| - 1] == a;
    } else {
      DedupAppendRun(a, b[..|b| - 1], x);
      assert x in Dedup(a) + [x];
    }
  }

  /** Dedup of a concatenation is the first part's order followed by the new elements of the second. */
  lemma {:induction false} DedupOfDedup<T>(a: seq<T>, b: seq<T>)
    ensures Dedup(Dedup(a) + b) == Dedup(a + b)
  {
    if b == [] {
      assert Dedup(a) + b == Dedup(a);
      assert a + b == a;
      DedupIdempotent(a);
    } else {
      var x := b[|b| - 1];
      var b' := b[..|b| - 1];
      assert (Dedup(a) + b)[..|Dedup(a) + b| - 1] == Dedup(a) + b';
      assert (a + b)[..|a + b| - 1] == a + b';
      DedupOfDedup(a, b');
    }
  }

  /** A sequence without duplicates is its own first-occurrence order. */
  lemma {:induction false} DedupOfNoDup<T>(s: seq<T>)
    requires NoDup(s)
    ensures Dedup(s) == s
  {
    if s != [] {
      var s' := s[..|s| - 1];
      assert NoDup(s');
      DedupOfNoDup(s');
      assert s[|s| - 1] !in s';
      assert s' + [s[|s| - 1]] == s;
    }
  }

  /** Only the first-occurrence order of the later part matters. */
  lemma {:induction false} DedupOfDedupRight<T>(a: seq<T>, b: seq<T>)
    ensures Dedup(a + Dedup(b)) == Dedup(a + b)
  {
    if b == [] {
      assert a + Dedup(b) == a == a + b;
    } else {
      var b' := b[..|b| - 1];
      var x := b[|b| - 1];
      assert b == b' + [x];
      assert a + b == (a + b') + [x];
      DedupOfDedupRight(a, b');
      DedupSnoc(a + b', x);
      if x in b' {
        assert Dedup(b) == Dedup(b');
      } else {
        DedupSnoc(b', x);
        assert a + Dedup(b) == (a + Dedup(b')) + [x];
        DedupSnoc(a + Dedup(b'), x);
      }
    }
  }

  /** Only elements matter to emptiness. */
  lemma DedupEmpty<T>(s: seq<T>)
    ensures Dedup(s) == [] <==> s == []
  {
    if s != [] { assert s[0] in s; }
  }

  lemma DedupIdempotent<T>(s: seq<T>)
    ensures Dedup(Dedup(s)) == Dedup(s)
  {
    DedupOfNoDup(Dedup(s));
  }
}
