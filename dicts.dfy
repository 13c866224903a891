/** Python's `dict` with string keys, as far as the property writer uses it:
    the keys remember their insertion order, `d[k] = v` on a new key puts it last,
    and on an existing key replaces the value without moving the key. */
module Dicts {

  /** `keys` is the iteration order of `keys()`, `values()` and `items()`;
      `entries` is the lookup table. */
  datatype Dict<V> = Dict(keys: seq<string>, entries: map<string, V>)

  predicate Distinct(s: seq<string>)
  {
    forall i, j :: 0 <= i < j < |s| ==> s[i] != s[j]
  }

  /** The keys are listed once each, and exactly the keys of the table are listed. */
  ghost predicate ValidDict<V>(d: Dict<V>)
  {
    Distinct(d.keys) && forall k :: k in d.entries <==> k in d.keys
  }

  /** `dict()` or `{}`. */
  function Empty<V>(): (r: Dict<V>)
    ensures ValidDict(r) && r.keys == [] && r.entries == map[]
  {
    Dict([], map[])
  }

  /** The keys of a dictionary after one more insertion of `k`. */
  function AppendNew(s: seq<string>, k: string): seq<string>
  {
    if k in s then s else s + [k]
  }

  /** A sequence without repetitions has as many elements as its set. */
  lemma {:induction false} DistinctCard(s: seq<string>)
    requires Distinct(s)
    ensures |set x | x in s| == |s|
  {
    if s != [] {
      var p, x := s[..|s| - 1], s[|s| - 1];
      assert s == p + [x];
      DistinctCard(p);
      assert (set y | y in s) == (set y | y in p) + {x};
    }
  }

  /** A subset has no more elements than the set containing it. */
  lemma {:induction false} SubsetCard(a: set<string>, b: set<string>)
    requires a <= b
    ensures |a| <= |b|
  {
    if a != {} {
      var y :| y in a;
      SubsetCard(a - {y}, b - {y});
    }
  }

  /** A sequence without repetitions, all of whose elements occur in another
      one that has an element it lacks, is the shorter of the two. */
  lemma DistinctShorter(s: seq<string>, t: seq<string>, x: string)
    requires Distinct(s) && Distinct(t)
    requires forall y :: y in s ==> y in t
    requires x in t && x !in s
    ensures |s| < |t|
  {
    var a, b := set y | y in s, set y | y in t;
    DistinctCard(s);
    DistinctCard(t);
    SubsetCard(a, b - {x});
    assert x in b;
  }

  /** `d[k] = v`. */
  function Put<V>(d: Dict<V>, k: string, v: V): (r: Dict<V>)
    ensures ValidDict(d) ==> ValidDict(r) && r.keys == AppendNew(d.keys, k)
    ensures r.entries.Keys == d.entries.Keys + {k}
    ensures r.entries[k] == v
    ensures forall j :: j in d.entries && j != k ==> r.entries[j] == d.entries[j]
  {
    Dict(if k in d.entries then d.keys else d.keys + [k], d.entries[k := v])
  }

  /** `list(d.values())`: the values in key order. */
  function Values<V>(d: Dict<V>): (r: seq<V>)
    requires ValidDict(d)
    ensures |r| == |d.keys|
    ensures forall i :: 0 <= i < |d.keys| ==> r[i] == d.entries[d.keys[i]]
  {
    seq(|d.keys|, i requires 0 <= i < |d.keys| => d.entries[d.keys[i]])
  }

  /** Position of the first occurrence of `x` in `s`. */
  function IndexOf(s: seq<string>, x: string): (i: nat)
    requires x in s
    ensures i < |s| && s[i] == x && x !in s[..i]
  {
    if s[0] == x then 0 else 1 + IndexOf(s[1..], x)
  }

  lemma {:induction false} IndexOfAppend(s: seq<string>, e: string, x: string)
    requires x in s
    ensures IndexOf(s + [e], x) == IndexOf(s, x)
  {
    if s[0] != x {
      assert (s + [e])[1..] == s[1..] + [e];
      IndexOfAppend(s[1..], e, x);
    }
  }

  lemma IndexOfLast(s: seq<string>, x: string)
    requires x !in s
    ensures IndexOf(s + [x], x) == |s|
  {

  }

  /** The elements of `s`, each kept at its first occurrence only. */
  function Dedup(s: seq<string>): (r: seq<string>)
    ensures Distinct(r)
    ensures forall x :: x in r <==> x in s
  {
    if s == [] then [] else AppendNew(Dedup(s[..|s| - 1]), s[|s| - 1])
  }

  /** `Dedup` lists the elements in the order of their first occurrences. */
  lemma {:induction false} DedupOrder(s: seq<string>)
    ensures forall i, j :: 0 <= i < j < |Dedup(s)| ==> IndexOf(s, Dedup(s)[i]) < IndexOf(s, Dedup(s)[j])
  {
    if s != [] {
      var p, x := s[..|s| - 1], s[|s| - 1];
      assert s == p + [x];
      var d, r := Dedup(p), Dedup(s);
      DedupOrder(p);
      forall i | 0 <= i < |d| ensures IndexOf(s, d[i]) == IndexOf(p, d[i]) {
        assert d[i] in p;
        IndexOfAppend(p, x, d[i]);
      }
      if x !in p {
        IndexOfLast(p, x);
        assert r == d + [x];
      } else {
        assert x in d && r == d;
      }
      forall i, j | 0 <= i < j < |r| ensures IndexOf(s, r[i]) < IndexOf(s, r[j]) {
        if j < |d| {
          assert r[i] == d[i] && r[j] == d[j];
          assert IndexOf(p, d[i]) < IndexOf(p, d[j]);
        } else {
          assert x !in p && r[j] == x && r[i] == d[i];
          assert IndexOf(p, d[i]) < |p|;
        }
      }
    }
  }
}
