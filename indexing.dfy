/**
 * The vertex deduplication at the heart of `get_mesh_info`, stated on any
 * sequence of keys.
 *
 * The converter keeps a dictionary from keys to positions, a table of unique
 * keys and an element list.  `Dedup` is the table it builds (each key once, in
 * order of first appearance) and `Indices` the element list; `Indexed` ties
 * the three mutable structures to them, and `IndexedStep` is one corner.
 */
module Indexing {

  /** No element occurs twice. */
  ghost predicate NoDuplicates<K>(d: seq<K>)
  {
    forall i, j | 0 <= i < j < |d| :: d[i] != d[j]
  }

  /** The position of the first occurrence of `x` in `d`. */
  function Position<K(==)>(d: seq<K>, x: K): (i: nat)
    requires x in d
    ensures i < |d| && d[i] == x
    ensures forall j | 0 <= j < i :: d[j] != x
  {
    if d[0] == x then 0 else 1 + Position(d[1..], x)
  }

  /** The distinct elements of `s`, in the order they first appear. */
  function Dedup<K(==)>(s: seq<K>): seq<K>
  {
    if s == [] then []
    else
      var init := Dedup(s[..|s| - 1]);
      if s[|s| - 1] in init then init else init + [s[|s| - 1]]
  }

  /** The table holds exactly the elements of the input, each once. */
  lemma {:induction false} DedupFacts<K>(s: seq<K>)
    ensures forall i | 0 <= i < |Dedup(s)| :: Dedup(s)[i] in s
    ensures forall i | 0 <= i < |s| :: s[i] in Dedup(s)
    ensures NoDuplicates(Dedup(s))
  {
    if s != [] {
      var n := |s| - 1;
      DedupFacts(s[..n]);
      assert s == s[..n] + [s[n]];
    }
  }

  /** For every element of `s`, its position in `Dedup(s)`. */
  function Indices<K(==)>(s: seq<K>): (e: seq<nat>)
    ensures |e| == |s|
  {
    if s == [] then []
    else
      DedupFacts(s);
      Indices(s[..|s| - 1]) + [Position(Dedup(s), s[|s| - 1])]
  }

  /** The dictionary from each element of `t` to its position: `{t[n]: n for n in range(len(t))}`. */
  function PositionMap<K(==)>(t: seq<K>): map<K, nat>
  {
    if t == [] then map[] else PositionMap(t[..|t| - 1])[t[|t| - 1] := |t| - 1]
  }

  /** Over a sequence without repetitions, the dictionary has one entry per element, mapping it to its place. */
  lemma {:induction false} PositionMapFacts<K>(t: seq<K>)
    requires NoDuplicates(t)
    ensures |PositionMap(t)| == |t|
    ensures forall k :: k in PositionMap(t) <==> k in t
    ensures forall n | 0 <= n < |t| :: PositionMap(t)[t[n]] == n
  {
    if t != [] {
      var n := |t| - 1;
      var init := t[..n];
      assert NoDuplicates(init) by {
        forall i, j | 0 <= i < j < |init| ensures init[i] != init[j] {
          assert init[i] == t[i] && init[j] == t[j];
        }
      }
      PositionMapFacts(init);
      assert t[n] !in init by {
        forall i | 0 <= i < n ensures init[i] != t[n] {
          assert init[i] == t[i];
        }
      }
      assert t == init + [t[n]];
    }
  }

  /**
   * The state `get_mesh_info` keeps after the corners `keys`: `table` is the
   * vertex list, `index` the dictionary from a key to its place in the table,
   * `elements` the element list.
   */
  ghost predicate Indexed<K>(keys: seq<K>, index: map<K, nat>, table: seq<K>, elements: seq<nat>)
  {
    && table == Dedup(keys)
    && elements == Indices(keys)
    && index == PositionMap(table)
  }

  lemma IndexedEmpty<K>()
    ensures Indexed<K>([], map[], [], [])
  {
  }

  /** A key seen before appends the position the dictionary records for it; nothing else changes. */
  lemma IndexedOld<K>(keys: seq<K>, index: map<K, nat>, table: seq<K>, elements: seq<nat>, key: K)
    requires Indexed(keys, index, table, elements)
    requires key in keys
    ensures key in index
    ensures Indexed(keys + [key], index, table, elements + [index[key]])
  {
    var keys' := keys + [key];
    assert keys'[..|keys|] == keys;
    DedupFacts(keys);
    PositionMapFacts(table);
    var p := Position(table, key);
    assert Dedup(keys') == table;
    assert Indices(keys') == elements + [p];
  }

  /** A new key is appended to the table and recorded at position `|index|`, which is where it now stands. */
  lemma IndexedNew<K>(keys: seq<K>, index: map<K, nat>, table: seq<K>, elements: seq<nat>, key: K)
    requires Indexed(keys, index, table, elements)
    requires key !in keys
    ensures key !in index && |index| == |table|
    ensures Indexed(keys + [key], index[key := |index|], table + [key], elements + [|index|])
  {
    var keys' := keys + [key];
    assert keys'[..|keys|] == keys;
    DedupFacts(keys);
    PositionMapFacts(table);
    assert key !in table;
    var table' := table + [key];
    assert Dedup(keys') == table';
    assert table'[..|table|] == table;
    assert Position(table', key) == |table|;
  }

  /**
   * One corner of the loop: the key is in the dictionary exactly when it came
   * before; either way the state afterwards describes the longer key sequence.
   */
  lemma IndexedStep<K>(keys: seq<K>, index: map<K, nat>, table: seq<K>, elements: seq<nat>, key: K)
    requires Indexed(keys, index, table, elements)
    ensures key in index <==> key in keys
    ensures key !in index ==>
      Indexed(keys + [key], index[key := |index|], table + [key], elements + [|index|])
    ensures key in index ==>
      Indexed(keys + [key], index, table, elements + [index[key]])
  {
    if key in keys {
      IndexedOld(keys, index, table, elements, key);
    } else {
      IndexedNew(keys, index, table, elements, key);
    }
  }

  /** Extending the input only extends the table: earlier positions stay where they are. */
  lemma {:induction false} DedupPrefix<K>(s: seq<K>, i: nat)
    requires i <= |s|
    ensures Dedup(s[..i]) <= Dedup(s)
    decreases |s| - i
  {
    if i < |s| {
      var t := s[..i + 1];
      assert t[..i] == s[..i];
      DedupPrefix(s, i + 1);
    } else {
      assert s[..i] == s;
    }
  }

  /** The element list, read through the table, gives back the input exactly. */
  lemma {:induction false} IndicesDecode<K>(s: seq<K>)
    ensures forall k | 0 <= k < |s| :: Indices(s)[k] < |Dedup(s)| && Dedup(s)[Indices(s)[k]] == s[k]
  {
    if s != [] {
      var n := |s| - 1;
      var init := s[..n];
      IndicesDecode(init);
      DedupPrefix(s, n);
      var d, d0 := Dedup(s), Dedup(init);
      var e, e0 := Indices(s), Indices(init);
      assert e == e0 + [Position(d, s[n])];
      forall k | 0 <= k < |s|
        ensures e[k] < |d| && d[e[k]] == s[k]
      {
        if k < n {
          assert e[k] == e0[k];
          assert d0[e0[k]] == init[k];
          assert d[e0[k]] == d0[e0[k]];
        }
      }
    }
  }

  /** Every entry of the element list points into the table. */
  lemma IndicesBounded<K>(s: seq<K>)
    ensures forall k | 0 <= k < |Indices(s)| :: Indices(s)[k] < |Dedup(s)|
  {
    IndicesDecode(s);
  }

  lemma PositionOfPrefix<K>(s: seq<K>, x: K, y: K)
    requires x in s
    ensures Position(s + [y], x) == Position(s, x)
  {
    var p := Position(s, x);
    var q := Position(s + [y], x);
    assert (s + [y])[p] == x;
    assert q <= p;
    assert s[q] == x;
  }

  /** The table lists keys in the order of their first occurrence in the input. */
  lemma {:induction false} DedupFirstAppearance<K>(s: seq<K>)
    ensures forall i, j | 0 <= i < j < |Dedup(s)| ::
      Dedup(s)[i] in s && Dedup(s)[j] in s && Position(s, Dedup(s)[i]) < Position(s, Dedup(s)[j])
  {
    DedupFacts(s);
    if s != [] {
      var n := |s| - 1;
      var init := s[..n];
      var last := s[n];
      assert s == init + [last];
      DedupFirstAppearance(init);
      DedupFacts(init);
      var d, d' := Dedup(init), Dedup(s);
      assert d' == if last in d then d else d + [last];
      forall i, j | 0 <= i < j < |d'|
        ensures Position(s, d'[i]) < Position(s, d'[j])
      {
        assert d'[i] == d[i] && d[i] in init;
        PositionOfPrefix(init, d[i], last);
        if j < |d| {
          assert d'[j] == d[j] && d[j] in init;
          PositionOfPrefix(init, d[j], last);
        } else {
          assert d'[j] == last && last !in init;
          assert Position(s, last) == n;
        }
      }
    }
  }
}
