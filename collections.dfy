/**
 * The two Python containers the editors keep their session in: a list of
 * names (`files`) and a dict from name to text (`file_contents`).  A Python
 * dict remembers insertion order and its `.items()` follow it, so the dict is
 * modelled as its key order together with the key/value map.
 */
module Collections {

  predicate NoDup<T(==)>(s: seq<T>) {
    forall i, j :: 0 <= i < j < |s| ==> s[i] != s[j]
  }

  /** A prefix of a list without repeats has none either. */
  lemma NoDupPrefix<T>(s: seq<T>, k: nat)
    requires NoDup(s) && k <= |s|
    ensures NoDup(s[..k])
  {
  }

  /** `lst.remove(x)`: drops the first occurrence of `x`. */
  function RemoveFirst<T(==)>(s: seq<T>, x: T): (r: seq<T>)
    requires x in s
    ensures |r| == |s| - 1
  {
    if s[0] == x then s[1..] else [s[0]] + RemoveFirst(s[1..], x)
  }

  /** On a list without repeats, `remove(x)` leaves exactly the other names, still without repeats. */
  lemma {:induction false} RemoveFirstFromUnique<T>(s: seq<T>, x: T)
    requires NoDup(s) && x in s
    ensures NoDup(RemoveFirst(s, x))
    ensures forall y :: y in RemoveFirst(s, x) <==> y in s && y != x
  {
    if s[0] != x {
      assert NoDup(s[1..]) by {
        forall i, j | 0 <= i < j < |s| - 1 ensures s[1..][i] != s[1..][j] {
          assert s[1..][i] == s[i + 1] && s[1..][j] == s[j + 1];
        }
      }
      RemoveFirstFromUnique(s[1..], x);
      var r := RemoveFirst(s, x);
      forall i, j | 0 <= i < j < |r| ensures r[i] != r[j] {
        if i == 0 {
          var rest := RemoveFirst(s[1..], x);
          assert r[j] == rest[j - 1] && r[j] in rest;
        }
      }
    } else {
      forall y | y in s[1..] ensures y != x {
        var k :| 0 <= k < |s[1..]| && s[1..][k] == y;
        assert s[k + 1] == y;
      }
    }
  }

  /**
   * On a list without repeats, removing the element at `i` keeps the others
   * in their order: the elements before `i`, then those after it.
   */
  lemma {:induction false} RemoveFirstOrder<T>(s: seq<T>, i: nat)
    requires NoDup(s) && i < |s|
    ensures RemoveFirst(s, s[i]) == s[..i] + s[i + 1..]
  {
    if i > 0 {
      assert s[0] != s[i];
      var tail := s[1..];
      assert NoDup(tail) by {
        forall a, b | 0 <= a < b < |tail| ensures tail[a] != tail[b] {
          assert tail[a] == s[a + 1] && tail[b] == s[b + 1];
        }
      }
      assert tail[i - 1] == s[i];
      RemoveFirstOrder(tail, i - 1);
      assert [s[0]] + (tail[..i - 1] + tail[i..]) == s[..i] + s[i + 1..];
    }
  }

  /** A Python dict from file name to text: its keys in insertion order and its entries. */
  datatype Dict = Dict(order: seq<string>, entries: map<string, string>)

  /** The key order lists every key of the dict exactly once. */
  ghost predicate Wf(d: Dict) {
    NoDup(d.order) && forall k :: k in d.entries <==> k in d.order
  }

  /** `{}`. */
  const Empty: Dict := Dict([], map[])

  /** `d.get(k, default)`: a value the dict holds, or the default. */
  function Get(d: Dict, k: string, default: string): (r: string)
    ensures r == default || r in d.entries.Values
  {
    if k in d.entries then d.entries[k] else default
  }

  /**
   * `d[k] = v`: an existing key keeps its place in the iteration order,
   * a new key goes last.
   */
  function Store(d: Dict, k: string, v: string): (r: Dict)
    requires Wf(d)
    ensures Wf(r)
  {
    Dict(if k in d.entries then d.order else d.order + [k], d.entries[k := v])
  }

  /** Storing the value a key already holds changes nothing. */
  lemma StoreExisting(d: Dict, k: string, v: string)
    requires Wf(d) && k in d.entries && d.entries[k] == v
    ensures Store(d, k, v) == d
  {
    assert d.entries[k := v] == d.entries;
  }

  /** Reading after `d[k] = v`: `v` under `k`, and what was there before under every other key. */
  lemma GetAfterStore(d: Dict, k: string, v: string, other: string, default: string)
    requires Wf(d)
    ensures Get(Store(d, k, v), k, default) == v
    ensures other != k ==> Get(Store(d, k, v), other, default) == Get(d, other, default)
  {
  }

  /** `del d[k]` (a missing key raises `KeyError` in Python, so `k` must be present). */
  function Remove(d: Dict, k: string): (r: Dict)
    requires Wf(d) && k in d.entries
    ensures Wf(r)
  {
    RemoveFirstFromUnique(d.order, k);
    Dict(RemoveFirst(d.order, k), d.entries - {k})
  }

  /** `list(d.items())`: the (key, value) pairs in insertion order. */
  function Items(d: Dict): (r: seq<(string, string)>)
    requires Wf(d)
    ensures |r| == |d.order|
  {
    seq(|d.order|, i requires 0 <= i < |d.order| => (d.order[i], d.entries[d.order[i]]))
  }

  /**
   * `{k: v for k in names}`: keys inserted one after another, so a repeated
   * name keeps its first position.
   */
  function FromKeys(names: seq<string>, v: string): (r: Dict)
    ensures Wf(r)
    ensures forall k :: k in r.entries <==> k in names
    ensures forall k :: k in r.entries ==> r.entries[k] == v
    ensures NoDup(names) ==> r.order == names
    decreases |names|
  {
    if names == [] then Empty
    else
      var init := names[..|names| - 1];
      assert forall k :: k in names <==> k in init || k == names[|names| - 1];
      Store(FromKeys(init, v), names[|names| - 1], v)
  }

  /** A list without repeats has as many distinct elements as entries. */
  lemma {:induction false} DistinctCardinality<T>(names: seq<T>)
    requires NoDup(names)
    ensures |set f | f in names| == |names|
    decreases |names|
  {
    if names != [] {
      var init := names[..|names| - 1];
      assert NoDup(init);
      DistinctCardinality(init);
      assert (set f | f in names) == (set f | f in init) + {names[|names| - 1]};
    }
  }
}
