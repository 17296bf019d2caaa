/** The key order `json.dumps(..., sort_keys=True)` emits: Python compares
    `str` keys code point by code point, a proper prefix coming first. A JSON
    object is modelled as its list of key/value pairs in emission order. */
module KeyOrder {
  import opened PyValues

  /** `a < b` on Python strings. */
  predicate Below(a: string, b: string): (r: bool)
    ensures r ==> a != b
    decreases |a|
  {
    if |a| == 0 then |b| > 0
    else if |b| == 0 then false
    else if a[0] != b[0] then a[0] < b[0]
    else Below(a[1..], b[1..])
  }

  /** The textbook lexicographic order: `a` is a proper prefix of `b`, or the
      two agree up to some position where `a` has the smaller code point. */
  ghost predicate LexLess(a: string, b: string) {
    ProperPrefix(a, b) || exists i :: SmallerAt(a, b, i)
  }

  ghost predicate ProperPrefix(a: string, b: string) {
    |a| < |b| && a == b[..|a|]
  }

  /** `a` and `b` agree before position `i`, and `a[i]` is the smaller there. */
  ghost predicate SmallerAt(a: string, b: string, i: int) {
    0 <= i < |a| && i < |b| && a[..i] == b[..i] && a[i] < b[i]
  }

  lemma {:induction false} BelowIsLexicographic(a: string, b: string)
    ensures Below(a, b) <==> LexLess(a, b)
    decreases |a|
  {
    if |a| == 0 {
      assert b[..0] == a;
    } else if |b| == 0 {
    } else if a[0] != b[0] {
      if a[0] < b[0] {
        assert SmallerAt(a, b, 0);
      }
    } else {
      BelowIsLexicographic(a[1..], b[1..]);
      LexLessTail(a, b);
    }
  }

  /** Dropping an equal first character keeps the lexicographic order. */
  lemma LexLessTail(a: string, b: string)
    requires |a| > 0 && |b| > 0 && a[0] == b[0]
    ensures LexLess(a, b) <==> LexLess(a[1..], b[1..])
  {
    PrefixTail(a, b);
    if exists i :: SmallerAt(a, b, i) {
      var i :| SmallerAt(a, b, i);
      SmallerAtTail(a, b, i);
    }
    if exists i :: SmallerAt(a[1..], b[1..], i) {
      var i :| SmallerAt(a[1..], b[1..], i);
      SmallerAtTail(a, b, i + 1);
    }
  }

  lemma PrefixTail(a: string, b: string)
    requires |a| > 0 && |b| > 0 && a[0] == b[0]
    ensures ProperPrefix(a, b) <==> ProperPrefix(a[1..], b[1..])
  {
    if |a| < |b| {
      assert b[..|a|] == [b[0]] + b[1..][..|a| - 1];
      assert a == [a[0]] + a[1..];
    }
  }

  lemma SmallerAtTail(a: string, b: string, i: int)
    requires |a| > 0 && |b| > 0 && a[0] == b[0]
    ensures SmallerAt(a, b, i) <==> i > 0 && SmallerAt(a[1..], b[1..], i - 1)
  {
    if 0 < i <= |a| && i <= |b| {
      assert a[..i] == [a[0]] + a[1..][..i - 1];
      assert b[..i] == [b[0]] + b[1..][..i - 1];
    }
  }

  lemma {:induction false} BelowIrreflexive(a: string)
    ensures !Below(a, a)
    decreases |a|
  {
    if |a| > 0 {
      BelowIrreflexive(a[1..]);
    }
  }

  lemma {:induction false} BelowTransitive(a: string, b: string, c: string)
    requires Below(a, b) && Below(b, c)
    ensures Below(a, c)
    decreases |a|
  {
    if |a| > 0 && a[0] == b[0] && b[0] == c[0] {
      BelowTransitive(a[1..], b[1..], c[1..]);
    }
  }

  lemma {:induction false} BelowTotal(a: string, b: string)
    ensures a == b || Below(a, b) || Below(b, a)
    decreases |a|
  {
    if |a| > 0 && |b| > 0 && a[0] == b[0] {
      BelowTotal(a[1..], b[1..]);
      if a[1..] == b[1..] {
        assert a == [a[0]] + a[1..] && b == [b[0]] + b[1..];
      }
    }
  }

  lemma BelowAsymmetric()
    ensures forall a, b :: Below(a, b) ==> !Below(b, a)
  {
    forall a, b | Below(a, b) ensures !Below(b, a) {
      if Below(b, a) {
        BelowTransitive(a, b, a);
        BelowIrreflexive(a);
      }
    }
  }

  /** `k` is the smallest key of `keys`. */
  predicate IsLeast(k: string, keys: set<string>) {
    k in keys && forall j :: j in keys && j != k ==> Below(k, j)
  }

  lemma {:induction false} LeastExists(keys: set<string>)
    requires keys != {}
    ensures exists k :: IsLeast(k, keys)
    decreases |keys|
  {
    var x :| x in keys;
    if keys != {x} {
      LeastExists(keys - {x});
      var m :| IsLeast(m, keys - {x});
      BelowTotal(x, m);
      if Below(x, m) {
        forall j | j in keys && j != x ensures Below(x, j) {
          if j != m { BelowTransitive(x, m, j); }
        }
        assert IsLeast(x, keys);
      } else {
        assert IsLeast(m, keys);
      }
    } else {
      assert IsLeast(x, keys);
    }
  }

  /** The smallest of a non-empty set of keys. */
  function LeastKey(keys: set<string>): (k: string)
    requires keys != {}
    ensures k in keys
    ensures forall j :: j in keys && j != k ==> Below(k, j)
  {
    LeastExists(keys);
    BelowAsymmetric();
    var k :| IsLeast(k, keys);
    k
  }

  type Items = seq<(string, Value)>

  /** The keys of a listing appear in strictly ascending order (and so at most once). */
  ghost predicate StrictlyAscending(items: Items) {
    forall i, j :: 0 <= i < j < |items| ==> Below(items[i].0, items[j].0)
  }

  /** The dictionary a listing denotes. */
  function AsMap(items: Items): map<string, Value>
  {
    if |items| == 0 then map[] else AsMap(items[1..])[items[0].0 := items[0].1]
  }

  /** The pairs of `m`, keys ascending: what `json.dumps(m, sort_keys=True)`
      writes, before the text encoding. */
  function SortedItems(m: map<string, Value>): (r: Items)
    ensures StrictlyAscending(r)
    ensures AsMap(r) == m
    ensures |r| == |m|
    ensures forall i :: 0 <= i < |r| ==> r[i].0 in m
    decreases |m|
  {
    if |m| == 0 then []
    else
      var k := LeastKey(m.Keys);
      var rest := m - {k};
      assert |rest| == |m| - 1 by { assert rest.Keys == m.Keys - {k}; }
      var tail := SortedItems(rest);
      PrependLeast(k, tail, m);
      [(k, m[k])] + tail
  }

  /** Putting the least key of `m` in front of an ascending listing of the rest
      of `m` gives an ascending listing of `m`. */
  lemma PrependLeast(k: string, tail: Items, m: map<string, Value>)
    requires k in m && forall j :: j in m && j != k ==> Below(k, j)
    requires StrictlyAscending(tail) && AsMap(tail) == m - {k}
    requires forall i :: 0 <= i < |tail| ==> tail[i].0 in m - {k}
    ensures StrictlyAscending([(k, m[k])] + tail)
    ensures AsMap([(k, m[k])] + tail) == m
  {
    PrependAscending(k, m[k], tail, m.Keys);
    var r := [(k, m[k])] + tail;
    assert r[1..] == tail;
    assert AsMap(r) == (m - {k})[k := m[k]];
    MapRestore(m, k);
  }

  lemma PrependAscending(k: string, v: Value, tail: Items, keys: set<string>)
    requires forall j :: j in keys && j != k ==> Below(k, j)
    requires StrictlyAscending(tail)
    requires forall i :: 0 <= i < |tail| ==> tail[i].0 in keys - {k}
    ensures StrictlyAscending([(k, v)] + tail)
  {
    var r := [(k, v)] + tail;
    forall i, j | 0 <= i < j < |r| ensures Below(r[i].0, r[j].0) {
      assert r[j] == tail[j - 1];
      if i > 0 {
        assert r[i] == tail[i - 1];
      } else {
        assert tail[j - 1].0 in keys - {k};
      }
    }
  }

  lemma MapRestore(m: map<string, Value>, k: string)
    requires k in m
    ensures (m - {k})[k := m[k]] == m
  {
    var n := (m - {k})[k := m[k]];
    assert n.Keys == m.Keys;
    forall j | j in m ensures n[j] == m[j] {
    }
  }

  /** The keys a listing mentions. */
  function KeysOf(items: Items): set<string>
  {
    if |items| == 0 then {} else {items[0].0} + KeysOf(items[1..])
  }

  lemma {:induction false} AsMapKeys(items: Items)
    ensures AsMap(items).Keys == KeysOf(items)
    decreases |items|
  {
    if |items| > 0 {
      AsMapKeys(items[1..]);
    }
  }

  /** In an ascending listing the head key is below every key of the tail. */
  lemma {:induction false} HeadBelowTail(items: Items)
    requires |items| > 0 && StrictlyAscending(items)
    ensures forall k :: k in KeysOf(items[1..]) ==> Below(items[0].0, k)
    decreases |items|
  {
    if |items| > 1 {
      var tail := items[1..];
      TailAscending(items);
      HeadBelowTail(tail);
      forall k | k in KeysOf(tail[1..]) ensures Below(items[0].0, k) {
        assert Below(items[0].0, tail[0].0) by { assert tail[0] == items[1]; }
        BelowTransitive(items[0].0, tail[0].0, k);
      }
    }
  }

  lemma TailAscending(items: Items)
    requires |items| > 0 && StrictlyAscending(items)
    ensures StrictlyAscending(items[1..])
  {
    var tail := items[1..];
    forall i, j | 0 <= i < j < |tail| ensures Below(tail[i].0, tail[j].0) {
      assert tail[i] == items[i + 1] && tail[j] == items[j + 1];
    }
  }

  /** In an ascending listing the head key does not occur again, so the tail
      denotes the dictionary without it. */
  lemma TailAsMap(items: Items)
    requires |items| > 0 && StrictlyAscending(items)
    ensures StrictlyAscending(items[1..])
    ensures AsMap(items[1..]) == AsMap(items) - {items[0].0}
  {
    TailAscending(items);
    var tail := items[1..];
    HeadBelowTail(items);
    AsMapKeys(tail);
    BelowIrreflexive(items[0].0);
    var h := items[0].0;
    assert h !in AsMap(tail);
    assert AsMap(items) == AsMap(tail)[h := items[0].1];
    MapDropFresh(AsMap(tail), h, items[0].1);
  }

  lemma MapDropFresh(m: map<string, Value>, k: string, v: Value)
    requires k !in m
    ensures m[k := v] - {k} == m
  {
    var n := m[k := v] - {k};
    assert n.Keys == m.Keys;
    forall j | j in m ensures n[j] == m[j] {
    }
  }

  /** A strictly ascending listing is determined by the dictionary it denotes:
      `SortedItems(m)` is the only such listing of `m`. */
  lemma {:induction false} AscendingListingUnique(a: Items, b: Items)
    requires StrictlyAscending(a) && StrictlyAscending(b)
    requires AsMap(a) == AsMap(b)
    ensures a == b
    decreases |a|
  {
    AsMapKeys(a);
    AsMapKeys(b);
    if |a| > 0 && |b| > 0 {
      if a[0].0 != b[0].0 {
        // each head key lies in the other listing's tail, so each is below the other
        HeadBelowTail(a);
        HeadBelowTail(b);
        assert Below(a[0].0, b[0].0) && Below(b[0].0, a[0].0);
        BelowAsymmetric();
        assert false;
      }
      TailAsMap(a);
      TailAsMap(b);
      AscendingListingUnique(a[1..], b[1..]);
      assert a[0] == b[0] by {
        assert AsMap(a)[a[0].0] == a[0].1 && AsMap(b)[b[0].0] == b[0].1;
      }
      assert a == [a[0]] + a[1..] && b == [b[0]] + b[1..];
    }
  }
}
