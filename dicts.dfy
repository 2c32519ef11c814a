/**
 * Python dictionaries as the program uses them (every key is a string):
 * the entries in insertion order, looked up by key.  Assigning to a present
 * key replaces its value where it stands; assigning to a new key appends it;
 * `del` drops the entry.  Iteration (`items()`, `json.dump`) follows the
 * order of the entries.
 */
module Dicts {
  import opened Wrappers

  type Dict<V> = seq<(string, V)>

  /** The keys, in iteration order. */
  function Keys<V>(d: Dict<V>): (ks: seq<string>)
    ensures |ks| == |d|
    ensures forall i :: 0 <= i < |d| ==> ks[i] == d[i].0
  {
    if d == [] then [] else [d[0].0] + Keys(d[1..])
  }

  /** A real Python dict never holds a key twice. */
  predicate Wf<V>(d: Dict<V>)
  {
    forall i, j :: 0 <= i < j < |d| ==> d[i].0 != d[j].0
  }

  /** Position of the entry for `k`, if any. */
  function IndexOf<V>(d: Dict<V>, k: string): (r: Option<nat>)
    ensures r.None? <==> k !in Keys(d)
    ensures r.Some? ==> r.value < |d| && d[r.value].0 == k
    ensures r.Some? ==> forall i :: 0 <= i < r.value ==> d[i].0 != k
  {
    if d == [] then None
    else if d[0].0 == k then Some(0)
    else match IndexOf(d[1..], k)
      case None => None
      case Some(i) => Some(i + 1)
  }

  /** `d.get(k)`: the value stored under `k`, if any. */
  function Get<V>(d: Dict<V>, k: string): (r: Option<V>)
    ensures r.None? <==> k !in Keys(d)
    ensures r.Some? ==> (k, r.value) in d
  {
    if d == [] then None
    else if d[0].0 == k then Some(d[0].1)
    else Get(d[1..], k)
  }

  /** `d[k] = v`. */
  function Set<V>(d: Dict<V>, k: string, v: V): (r: Dict<V>)
  {
    if d == [] then [(k, v)]
    else if d[0].0 == k then [(k, v)] + d[1..]
    else [d[0]] + Set(d[1..], k, v)
  }

  /** After `d[k] = v`, `k` looks up `v`. */
  lemma {:induction false} SetGet<V>(d: Dict<V>, k: string, v: V)
    ensures Get(Set(d, k, v), k) == Some(v)
  {
    if d != [] && d[0].0 != k {
      SetGet(d[1..], k, v);
    }
  }

  /** Assignment keeps the position of a present key and appends a new one. */
  lemma {:induction false} SetKeys<V>(d: Dict<V>, k: string, v: V)
    ensures Keys(Set(d, k, v)) == if k in Keys(d) then Keys(d) else Keys(d) + [k]
  {
    if d != [] && d[0].0 != k {
      SetKeys(d[1..], k, v);
      assert Set(d, k, v)[1..] == Set(d[1..], k, v);
      assert Keys(d) == [d[0].0] + Keys(d[1..]);
    }
  }

  lemma {:induction false} SetOther<V>(d: Dict<V>, k: string, v: V, k': string)
    requires k' != k
    ensures Get(Set(d, k, v), k') == Get(d, k')
  {
    if d != [] && d[0].0 != k {
      SetOther(d[1..], k, v, k');
    }
  }

  /** After `d[k] = v`, every other key looks up what it did before. */
  lemma SetOthers<V>(d: Dict<V>, k: string, v: V)
    ensures forall k' :: k' != k ==> Get(Set(d, k, v), k') == Get(d, k')
  {
    forall k' | k' != k ensures Get(Set(d, k, v), k') == Get(d, k') {
      SetOther(d, k, v, k');
    }
  }

  lemma {:induction false} SetWf<V>(d: Dict<V>, k: string, v: V)
    requires Wf(d)
    ensures Wf(Set(d, k, v))
  {
    var r := Set(d, k, v);
    SetKeys(d, k, v);
    assert Keys(r) == if k in Keys(d) then Keys(d) else Keys(d) + [k];
    forall i, j | 0 <= i < j < |r| ensures r[i].0 != r[j].0 {
      assert Keys(r)[i] != Keys(r)[j];
    }
  }

  /** Assigning twice to one key leaves the last value, in the same place. */
  lemma {:induction false} SetSet<V>(d: Dict<V>, k: string, v1: V, v2: V)
    ensures Set(Set(d, k, v1), k, v2) == Set(d, k, v2)
  {
    if d != [] && d[0].0 != k {
      SetSet(d[1..], k, v1, v2);
    }
  }

  /** Assigning a new key is an append. */
  lemma SetFresh<V>(d: Dict<V>, k: string, v: V)
    requires k !in Keys(d)
    ensures Set(d, k, v) == d + [(k, v)]
  {
    SetAppend(d, k, v);
  }

  lemma {:induction false} SetAppend<V>(d: Dict<V>, k: string, v: V)
    requires forall i :: 0 <= i < |d| ==> d[i].0 != k
    ensures Set(d, k, v) == d + [(k, v)]
  {
    if d != [] {
      var t := d[1..];
      SetAppend(t, k, v);
      calc {
        Set(d, k, v);
        { assert d[0].0 != k; }
        [d[0]] + Set(t, k, v);
        [d[0]] + (t + [(k, v)]);
        { assert [d[0]] + t == d; }
        d + [(k, v)];
      }
    }
  }

  /** Looking a key up in two runs of entries: the first run wins. */
  lemma {:induction false} GetConcat<V>(a: Dict<V>, b: Dict<V>, k: string)
    ensures Get(a + b, k) == if k in Keys(a) then Get(a, k) else Get(b, k)
  {
    if a == [] {
      assert a + b == b;
    } else {
      assert (a + b)[0] == a[0] && (a + b)[1..] == a[1..] + b;
      assert Keys(a) == [a[0].0] + Keys(a[1..]);
      GetConcat(a[1..], b, k);
    }
  }

  /** `del d[k]` on a present key; a missing key leaves `d` as it is (the
      program checks `k in d` before every `del`). */
  function Remove<V>(d: Dict<V>, k: string): (r: Dict<V>)
    ensures |r| == if k in Keys(d) then |d| - 1 else |d|
  {
    match IndexOf(d, k)
    case None => d
    case Some(i) => d[..i] + d[i + 1..]
  }

  /** Deleting one key does not disturb the lookup of any other. */
  lemma RemoveOther<V>(d: Dict<V>, k: string, k': string)
    requires k' != k
    ensures Get(Remove(d, k), k') == Get(d, k')
  {
    match IndexOf(d, k)
    case None =>
    case Some(i) =>
      assert d == d[..i] + ([d[i]] + d[i + 1..]);
      GetConcat(d[..i], [d[i]] + d[i + 1..], k');
      GetConcat(d[..i], d[i + 1..], k');
      assert Get([d[i]] + d[i + 1..], k') == Get(d[i + 1..], k') by {
        assert ([d[i]] + d[i + 1..])[1..] == d[i + 1..];
      }
  }

  /** After `del d[k]`, every other key looks up what it did before. */
  lemma RemoveOthers<V>(d: Dict<V>, k: string)
    ensures forall k' :: k' != k ==> Get(Remove(d, k), k') == Get(d, k')
  {
    forall k' | k' != k ensures Get(Remove(d, k), k') == Get(d, k') {
      RemoveOther(d, k, k');
    }
  }

  /** `del` keeps the other keys in their order. */
  lemma RemoveKeys<V>(d: Dict<V>, k: string)
    ensures Keys(Remove(d, k)) == match IndexOf(d, k)
      case None => Keys(d)
      case Some(i) => Keys(d)[..i] + Keys(d)[i + 1..]
  {
  }

  /** Every entry left after `del` was there before: entry `a` of the result
      is entry `j` of the original. */
  lemma RemoveEntry<V>(d: Dict<V>, k: string, a: nat) returns (j: nat)
    requires a < |Remove(d, k)|
    ensures j < |d| && Remove(d, k)[a] == d[j]
  {
    match IndexOf(d, k)
    case None =>
      j := a;
    case Some(i) =>
      j := if a < i then a else a + 1;
  }

  /** Entry `a` of a run with position `i` cut out is entry `a` or `a + 1` of the run. */
  lemma CutAt<V>(d: Dict<V>, i: nat, a: nat)
    requires i < |d| && a < |d| - 1
    ensures (d[..i] + d[i + 1..])[a] == d[if a < i then a else a + 1]
  {
  }

  /** On a well-formed dict the key is gone afterwards and the rest stays distinct. */
  lemma RemoveWf<V>(d: Dict<V>, k: string)
    ensures Wf(d) ==> Wf(Remove(d, k)) && k !in Keys(Remove(d, k))
  {
    var o := IndexOf(d, k);
    if Wf(d) && o.Some? {
      var i := o.value;
      var r := d[..i] + d[i + 1..];
      assert Remove(d, k) == r;
      forall a, b | 0 <= a < b < |r| ensures r[a].0 != r[b].0 {
        CutAt(d, i, a);
        CutAt(d, i, b);
      }
      forall a | 0 <= a < |r| ensures Keys(r)[a] != k {
        CutAt(d, i, a);
      }
    }
  }

  /** The dict built by assigning the pairs one after another, as a Python
      loop `d[k] = v` or `json.load` of an object does. */
  function FromPairs<V>(ps: seq<(string, V)>): (r: Dict<V>)
    ensures Wf(r)
  {
    if ps == [] then []
    else
      var d := FromPairs(ps[..|ps| - 1]);
      SetWf(d, ps[|ps| - 1].0, ps[|ps| - 1].1);
      Set(d, ps[|ps| - 1].0, ps[|ps| - 1].1)
  }

  /** Rebuilding a real dict entry by entry gives it back unchanged. */
  lemma {:induction false} FromPairsOfWf<V>(d: Dict<V>)
    requires Wf(d)
    ensures FromPairs(d) == d
  {
    if d != [] {
      var n := |d| - 1;
      assert Wf(d[..n]) by {
        forall a, b | 0 <= a < b < n ensures d[..n][a].0 != d[..n][b].0 {
          assert d[..n][a] == d[a] && d[..n][b] == d[b];
        }
      }
      FromPairsOfWf(d[..n]);
      WfPrefix(d, n);
      SetFresh(d[..n], d[n].0, d[n].1);
      assert d[..n] + [d[n]] == d;
    }
  }

  /** The value last assigned to `k` in a run of assignments, if any:
      an independent reading of what `FromPairs` stores. */
  function LastValue<V>(ps: seq<(string, V)>, k: string): Option<V>
  {
    if ps == [] then None
    else if ps[|ps| - 1].0 == k then Some(ps[|ps| - 1].1)
    else LastValue(ps[..|ps| - 1], k)
  }

  /** Assigning pairs one by one leaves, under each key, the last value
      assigned to it; keys never assigned are absent. */
  lemma {:induction false} FromPairsGet<V>(ps: seq<(string, V)>, k: string)
    ensures Get(FromPairs(ps), k) == LastValue(ps, k)
  {
    if ps != [] {
      var n := |ps| - 1;
      FromPairsGet(ps[..n], k);
      if ps[n].0 != k {
        SetOther(FromPairs(ps[..n]), ps[n].0, ps[n].1, k);
      } else {
        SetGet(FromPairs(ps[..n]), k, ps[n].1);
      }
    }
  }

  /** Every entry of the built dict is one of the assigned pairs. */
  lemma {:induction false} FromPairsEntries<V>(ps: seq<(string, V)>, e: (string, V))
    requires e in FromPairs(ps)
    ensures e in ps
  {
    if ps != [] {
      var n := |ps| - 1;
      var d := FromPairs(ps[..n]);
      if e != ps[n] {
        SetEntries(d, ps[n].0, ps[n].1, e);
        FromPairsEntries(ps[..n], e);
      }
    }
  }

  /** An entry after an assignment is the assigned pair or an older entry. */
  lemma {:induction false} SetEntries<V>(d: Dict<V>, k: string, v: V, e: (string, V))
    requires e in Set(d, k, v)
    ensures e == (k, v) || e in d
  {
    if d != [] && d[0].0 != k && e != d[0] {
      assert e in Set(d[1..], k, v);
      SetEntries(d[1..], k, v, e);
    }
  }

  /** In a real dict, the entry at position `i` is what its key looks up. */
  lemma {:induction false} GetAt<V>(d: Dict<V>, i: nat)
    requires Wf(d) && i < |d|
    ensures Get(d, d[i].0) == Some(d[i].1)
  {
    if i > 0 {
      assert d[0].0 != d[i].0;
      assert Wf(d[1..]) by {
        forall a, b | 0 <= a < b < |d| - 1 ensures d[1..][a].0 != d[1..][b].0 {
          assert d[1..][a] == d[a + 1] && d[1..][b] == d[b + 1];
        }
      }
      GetAt(d[1..], i - 1);
    }
  }

  /** Assigning one more pair is one more `Set`. */
  lemma FromPairsSnoc<V>(ps: seq<(string, V)>, p: (string, V))
    ensures FromPairs(ps + [p]) == Set(FromPairs(ps), p.0, p.1)
  {
    assert (ps + [p])[..|ps|] == ps;
  }

  /** Without its first entry a real dict is still one, and no longer has that key. */
  lemma WfTail<V>(d: Dict<V>)
    requires Wf(d) && d != []
    ensures Wf(d[1..]) && d[0].0 !in Keys(d[1..])
  {
    forall a, b | 0 <= a < b < |d| - 1 ensures d[1..][a].0 != d[1..][b].0 {
      assert d[1..][a] == d[a + 1] && d[1..][b] == d[b + 1];
    }
  }

  /** `Set` never moves the keys already there. */
  lemma SetKeysPrefix<V>(d: Dict<V>, k: string, v: V)
    ensures Keys(d) <= Keys(Set(d, k, v))
  {
    SetKeys(d, k, v);
  }

  /** In a real dict, no key occurs before its own entry. */
  lemma WfPrefix<V>(d: Dict<V>, n: nat)
    requires Wf(d) && n < |d|
    ensures d[n].0 !in Keys(d[..n])
  {
    forall j | 0 <= j < n ensures Keys(d[..n])[j] != d[n].0 {
      assert d[..n][j] == d[j];
    }
  }
}
