/** Python's `dict` as the calendar code uses it: a finite map that remembers the order in
    which its keys were first inserted. Assigning to an existing key keeps the key's place
    and replaces its value; `update` assigns the other dict's entries one after another. */
module OrderedDicts {
  import opened Wrappers

  /** The entries of a dict with `str` keys, in insertion order. */
  type Dict<V> = seq<(string, V)>

  function Keys<V>(d: Dict<V>): (ks: seq<string>)
    ensures |ks| == |d|
    ensures forall i :: 0 <= i < |d| ==> ks[i] == d[i].0
  {
    if |d| == 0 then [] else [d[0].0] + Keys(d[1..])
  }

  /** Python's `d.values()`, in insertion order. */
  function Values<V>(d: Dict<V>): (vs: seq<V>)
    ensures |vs| == |d|
    ensures forall i :: 0 <= i < |d| ==> vs[i] == d[i].1
  {
    if |d| == 0 then [] else [d[0].1] + Values(d[1..])
  }

  predicate Distinct(ks: seq<string>) {
    forall i, j :: 0 <= i < j < |ks| ==> ks[i] != ks[j]
  }

  /** Every dict has distinct keys. */
  predicate Valid<V>(d: Dict<V>) {
    Distinct(Keys(d))
  }

  /** `d.get(k)`. */
  function Get<V>(d: Dict<V>, k: string): Option<V> {
    if |d| == 0 then None else if d[0].0 == k then Some(d[0].1) else Get(d[1..], k)
  }

  lemma {:induction false} GetSome<V>(d: Dict<V>, k: string)
    ensures Get(d, k).Some? <==> k in Keys(d)
  {
    if |d| > 0 {
      GetSome(d[1..], k);
      assert Keys(d) == [d[0].0] + Keys(d[1..]);
    }
  }

  /** In a dict, `d.get(k) == v` exactly when `(k, v)` is one of its entries. */
  lemma {:induction false} GetEntry<V>(d: Dict<V>, k: string, v: V)
    requires Valid(d)
    ensures Get(d, k) == Some(v) <==> (k, v) in d
  {
    if |d| > 0 {
      assert Valid(d[1..]) by {
        assert forall i :: 0 <= i < |d[1..]| ==> Keys(d[1..])[i] == Keys(d)[i + 1];
      }
      GetEntry(d[1..], k, v);
      if d[0].0 == k {
        forall i | 1 <= i < |d| ensures d[i].0 != k {
          assert Keys(d)[0] != Keys(d)[i];
        }
        assert (k, v) in d ==> d[0] == (k, v);
      }
      assert (k, v) in d <==> d[0] == (k, v) || (k, v) in d[1..];
    }
  }

  /** A value that `d.get(k)` returns is among `d.values()`. */
  lemma {:induction false} GetInValues<V>(d: Dict<V>, k: string, v: V)
    requires Get(d, k) == Some(v)
    ensures v in Values(d)
  {
    if d[0].0 != k {
      GetInValues(d[1..], k, v);
      assert Values(d) == [d[0].1] + Values(d[1..]);
    }
  }

  /** `d[k] = v`. */
  function Put<V>(d: Dict<V>, k: string, v: V): (r: Dict<V>)
    ensures Get(r, k) == Some(v)
    ensures forall k' :: k' != k ==> Get(r, k') == Get(d, k')
    ensures Keys(r) == if k in Keys(d) then Keys(d) else Keys(d) + [k]
  {
    if |d| == 0 then [(k, v)]
    else if d[0].0 == k then
      assert Keys([(k, v)] + d[1..]) == Keys(d);
      [(k, v)] + d[1..]
    else
      var rest := Put(d[1..], k, v);
      assert Keys(d) == [d[0].0] + Keys(d[1..]);
      assert Keys([d[0]] + rest) == [d[0].0] + Keys(rest);
      [d[0]] + rest
  }

  lemma PutValid<V>(d: Dict<V>, k: string, v: V)
    requires Valid(d)
    ensures Valid(Put(d, k, v))
  {
    var ks := Keys(d);
    if k !in ks {
      assert forall i :: 0 <= i < |ks| ==> (ks + [k])[i] == ks[i];
    }
  }

  /** `d.update(e)`. */
  function Update<V>(d: Dict<V>, e: Dict<V>): Dict<V>
    decreases |e|
  {
    if |e| == 0 then d else Update(Put(d, e[0].0, e[0].1), e[1..])
  }

  /** After `d.update(e)` a key holds `e`'s value if `e` has it, and `d`'s otherwise. */
  lemma {:induction false} UpdateGet<V>(d: Dict<V>, e: Dict<V>, k: string)
    requires Valid(e)
    ensures Get(Update(d, e), k) == if Get(e, k).Some? then Get(e, k) else Get(d, k)
    decreases |e|
  {
    if |e| > 0 {
      assert Valid(e[1..]) by {
        assert forall i :: 0 <= i < |e[1..]| ==> Keys(e[1..])[i] == Keys(e)[i + 1];
      }
      UpdateGet(Put(d, e[0].0, e[0].1), e[1..], k);
      if e[0].0 == k {
        GetSome(e[1..], k);
        forall i | 0 <= i < |e[1..]| ensures Keys(e[1..])[i] != k {
          assert Keys(e)[0] != Keys(e)[i + 1];
        }
      }
    }
  }

  /** `d.update(e)` keeps `d`'s keys in their places and appends `e`'s new keys after them. */
  lemma {:induction false} UpdateKeys<V>(d: Dict<V>, e: Dict<V>)
    requires Valid(d)
    ensures Valid(Update(d, e))
    ensures |Update(d, e)| >= |d| && Keys(Update(d, e))[..|d|] == Keys(d)
    ensures forall k :: k in Keys(Update(d, e)) <==> k in Keys(d) || k in Keys(e)
    decreases |e|
  {
    if |e| > 0 {
      var d' := Put(d, e[0].0, e[0].1);
      PutValid(d, e[0].0, e[0].1);
      UpdateKeys(d', e[1..]);
      assert Keys(d')[..|d|] == Keys(d);
      assert Keys(Update(d, e))[..|d|] == Keys(Update(d, e))[..|d'|][..|d|];
      assert Keys(e) == [e[0].0] + Keys(e[1..]);
    }
  }

  /** Updating with a dict whose entries are all already present changes nothing. */
  lemma {:induction false} UpdateWithPresent<V>(d: Dict<V>, e: Dict<V>)
    requires forall i :: 0 <= i < |e| ==> Get(d, e[i].0) == Some(e[i].1)
    ensures Update(d, e) == d
    decreases |e|
  {
    if |e| > 0 {
      PutPresent(d, e[0].0, e[0].1);
      UpdateWithPresent(d, e[1..]);
    }
  }

  lemma {:induction false} PutPresent<V>(d: Dict<V>, k: string, v: V)
    requires Get(d, k) == Some(v)
    ensures Put(d, k, v) == d
  {
    if |d| > 0 && d[0].0 != k {
      PutPresent(d[1..], k, v);
    }
  }

  /** `d.update(ds[0])`, then `d.update(ds[1])`, and so on. */
  function UpdateAll<V>(d: Dict<V>, ds: seq<Dict<V>>): Dict<V> {
    if |ds| == 0 then d else Update(UpdateAll(d, ds[..|ds| - 1]), ds[|ds| - 1])
  }

  lemma UpdateAllSnoc<V>(d: Dict<V>, ds: seq<Dict<V>>, e: Dict<V>)
    ensures UpdateAll(d, ds + [e]) == Update(UpdateAll(d, ds), e)
  {
    assert (ds + [e])[..|ds|] == ds;
  }

  lemma {:induction false} UpdateAllValid<V>(d: Dict<V>, ds: seq<Dict<V>>)
    requires Valid(d)
    ensures Valid(UpdateAll(d, ds))
  {
    if |ds| > 0 {
      UpdateAllValid(d, ds[..|ds| - 1]);
      UpdateKeys(UpdateAll(d, ds[..|ds| - 1]), ds[|ds| - 1]);
    }
  }

  /** One of the dicts has `k`. */
  predicate AnyHas<V>(ds: seq<Dict<V>>, k: string) {
    exists i :: 0 <= i < |ds| && Get(ds[i], k).Some?
  }

  lemma AnyHasSnoc<V>(ds: seq<Dict<V>>, k: string)
    requires |ds| > 0
    ensures AnyHas(ds, k) <==> AnyHas(ds[..|ds| - 1], k) || Get(ds[|ds| - 1], k).Some?
  {
    var pre := ds[..|ds| - 1];
    if i :| 0 <= i < |ds| && Get(ds[i], k).Some? {
      if i < |pre| {
        assert Get(pre[i], k).Some?;
      }
    }
    if i :| 0 <= i < |pre| && Get(pre[i], k).Some? {
      assert Get(ds[i], k).Some?;
    }
  }

  /** After a sequence of `update`s a key is present exactly when it was, or one of the dicts
      has it. */
  lemma {:induction false} UpdateAllHas<V>(d: Dict<V>, ds: seq<Dict<V>>, k: string)
    requires forall i :: 0 <= i < |ds| ==> Valid(ds[i])
    ensures Get(UpdateAll(d, ds), k).Some? <==> Get(d, k).Some? || AnyHas(ds, k)
  {
    if |ds| > 0 {
      UpdateAllStepGet(d, ds, k);
      UpdateAllHas(d, ds[..|ds| - 1], k);
      AnyHasSnoc(ds, k);
    }
  }

  /** A key that none of the dicts has keeps its value. */
  lemma {:induction false} UpdateAllUntouched<V>(d: Dict<V>, ds: seq<Dict<V>>, k: string)
    requires forall i :: 0 <= i < |ds| ==> Valid(ds[i]) && Get(ds[i], k).None?
    ensures Get(UpdateAll(d, ds), k) == Get(d, k)
  {
    if |ds| > 0 {
      var pre := ds[..|ds| - 1];
      UpdateGet(UpdateAll(d, pre), ds[|ds| - 1], k);
      assert forall i :: 0 <= i < |pre| ==> pre[i] == ds[i];
      UpdateAllUntouched(d, pre, k);
    }
  }

  /** `ds[i]` is the last of the dicts that has `k`, and it maps `k` to `v`. */
  ghost predicate LastHolder<V>(ds: seq<Dict<V>>, k: string, v: V, i: int) {
    && 0 <= i < |ds|
    && Get(ds[i], k) == Some(v)
    && forall j :: i < j < |ds| ==> Get(ds[j], k).None?
  }

  /** When the last dict lacks `k`, the last holder is found among the others. */
  lemma LastHolderPre<V>(ds: seq<Dict<V>>, k: string, v: V, i: int)
    requires |ds| > 0 && Get(ds[|ds| - 1], k).None?
    ensures LastHolder(ds, k, v, i) <==> LastHolder(ds[..|ds| - 1], k, v, i)
  {
  }

  lemma UpdateAllStepGet<V>(d: Dict<V>, ds: seq<Dict<V>>, k: string)
    requires |ds| > 0 && Valid(ds[|ds| - 1])
    ensures Get(UpdateAll(d, ds), k) ==
      if Get(ds[|ds| - 1], k).Some? then Get(ds[|ds| - 1], k) else Get(UpdateAll(d, ds[..|ds| - 1]), k)
  {
    UpdateGet(UpdateAll(d, ds[..|ds| - 1]), ds[|ds| - 1], k);
  }

  /** Every one of the dicts is valid; stated by recursion so that a proof unfolds it one dict
      at a time. */
  predicate AllValid<V>(ds: seq<Dict<V>>) {
    |ds| == 0 || (AllValid(ds[..|ds| - 1]) && Valid(ds[|ds| - 1]))
  }

  lemma {:induction false} AllValidOf<V>(ds: seq<Dict<V>>)
    requires forall i :: 0 <= i < |ds| ==> Valid(ds[i])
    ensures AllValid(ds)
  {
    if |ds| > 0 {
      var pre := ds[..|ds| - 1];
      assert forall i :: 0 <= i < |pre| ==> Valid(pre[i]) by {
        forall i | 0 <= i < |pre| ensures Valid(pre[i]) {
          assert pre[i] == ds[i];
        }
      }
      AllValidOf(pre);
    }
  }

  /** When the last dict lacks `k`, the value and a holder are found among the others. */
  lemma WitnessBefore<V>(d: Dict<V>, ds: seq<Dict<V>>, k: string, v: V, h: int)
    requires AllValid(ds)
    requires Get(UpdateAll(d, ds), k) == Some(v)
    requires 0 <= h < |ds| && Get(ds[h], k).Some? && Get(ds[|ds| - 1], k).None?
    ensures var pre := ds[..|ds| - 1];
      && AllValid(pre)
      && Get(UpdateAll(d, pre), k) == Some(v)
      && h < |pre| && Get(pre[h], k).Some?
  {
    UpdateAllStepGet(d, ds, k);
  }

  lemma {:induction false} UpdateAllWitness<V>(d: Dict<V>, ds: seq<Dict<V>>, k: string, v: V, h: int) returns (i: int)
    requires AllValid(ds)
    requires Get(UpdateAll(d, ds), k) == Some(v)
    requires 0 <= h < |ds| && Get(ds[h], k).Some?
    ensures LastHolder(ds, k, v, i)
    decreases |ds|
  {
    UpdateAllStepGet(d, ds, k);
    if Get(ds[|ds| - 1], k).Some? {
      i := |ds| - 1;
    } else {
      WitnessBefore(d, ds, k, v, h);
      i := UpdateAllWitness(d, ds[..|ds| - 1], k, v, h);
      LastHolderPre(ds, k, v, i);
    }
  }

  lemma {:induction false} UpdateAllFromHolder<V>(d: Dict<V>, ds: seq<Dict<V>>, k: string, v: V, i: int)
    requires AllValid(ds)
    requires LastHolder(ds, k, v, i)
    ensures Get(UpdateAll(d, ds), k) == Some(v)
    decreases |ds|
  {
    var pre := ds[..|ds| - 1];
    UpdateAllStepGet(d, ds, k);
    if i < |ds| - 1 {
      LastHolderPre(ds, k, v, i);
      UpdateAllFromHolder(d, pre, k, v, i);
    }
  }

  /** After a sequence of `update`s a key that one of the dicts has holds the value of the
      last dict that has it. */
  lemma UpdateAllGet<V>(d: Dict<V>, ds: seq<Dict<V>>, k: string, v: V, h: int)
    requires forall i :: 0 <= i < |ds| ==> Valid(ds[i])
    requires 0 <= h < |ds| && Get(ds[h], k).Some?
    ensures Get(UpdateAll(d, ds), k) == Some(v) <==> exists i :: LastHolder(ds, k, v, i)
  {
    AllValidOf(ds);
    if Get(UpdateAll(d, ds), k) == Some(v) {
      var i := UpdateAllWitness(d, ds, k, v, h);
    }
    if exists i :: LastHolder(ds, k, v, i) {
      var i :| LastHolder(ds, k, v, i);
      UpdateAllFromHolder(d, ds, k, v, i);
    }
  }

  /** An entry of `d[k] = v` is the new one or an entry of `d`. */
  lemma {:induction false} PutEntries<V>(d: Dict<V>, k: string, v: V, k': string, v': V)
    requires (k', v') in Put(d, k, v)
    ensures (k', v') == (k, v) || (k', v') in d
  {
    if |d| > 0 && d[0].0 != k {
      var rest := Put(d[1..], k, v);
      assert Put(d, k, v) == [d[0]] + rest;
      if (k', v') != d[0] {
        assert (k', v') in rest;
        PutEntries(d[1..], k, v, k', v');
      }
    }
  }

  /** An entry of `d.update(e)` is an entry of `d` or of `e`. */
  lemma {:induction false} UpdateEntries<V>(d: Dict<V>, e: Dict<V>, k: string, v: V)
    requires (k, v) in Update(d, e)
    ensures (k, v) in d || (k, v) in e
    decreases |e|
  {
    if |e| > 0 {
      UpdateEntries(Put(d, e[0].0, e[0].1), e[1..], k, v);
      if (k, v) in Put(d, e[0].0, e[0].1) {
        PutEntries(d, e[0].0, e[0].1, k, v);
      }
      assert (k, v) in e[1..] ==> (k, v) in e;
    }
  }

  /** An entry of a sequence of `update`s is an entry of the start or of one of the dicts. */
  lemma {:induction false} UpdateAllEntries<V>(d: Dict<V>, ds: seq<Dict<V>>, k: string, v: V)
    requires (k, v) in UpdateAll(d, ds)
    ensures (k, v) in d || exists i :: 0 <= i < |ds| && (k, v) in ds[i]
  {
    if |ds| > 0 {
      var pre := ds[..|ds| - 1];
      UpdateEntries(UpdateAll(d, pre), ds[|ds| - 1], k, v);
      if (k, v) in UpdateAll(d, pre) {
        UpdateAllEntries(d, pre, k, v);
        assert forall i :: 0 <= i < |pre| ==> pre[i] == ds[i];
      }
    }
  }
}
