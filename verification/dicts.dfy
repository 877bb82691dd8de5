/** Python dictionaries with string keys, as the scripts use them: entries in
    insertion order, `d[k] = v` updating an existing entry where it stands and
    appending a new one at the end. */
module Dicts {
  import opened Seqs

  type Dict<V> = seq<(string, V)>

  /** The keys in iteration order. */
  function Keys<V>(d: Dict<V>): seq<string> {
    Map(d, (e: (string, V)) => e.0)
  }

  /** `k in d`. */
  predicate Has<V>(d: Dict<V>, k: string) {
    exists i :: 0 <= i < |d| && d[i].0 == k
  }

  /** No key twice, as in every dictionary Python builds. */
  predicate Valid<V>(d: Dict<V>) {
    forall i, j :: 0 <= i < j < |d| ==> d[i].0 != d[j].0
  }

  /** Where the entry for `k` stands. */
  function IndexOf<V>(d: Dict<V>, k: string): (i: nat)
    requires Has(d, k)
    ensures i < |d| && d[i].0 == k
    ensures forall j :: 0 <= j < i ==> d[j].0 != k
  {
    if d[0].0 == k then 0
    else
      assert Has(d[1..], k) by {
        var i :| 0 <= i < |d| && d[i].0 == k;
        assert d[1..][i - 1].0 == k;
      }
      1 + IndexOf(d[1..], k)
  }

  /** `d[k]`. */
  function Get<V>(d: Dict<V>, k: string): V
    requires Has(d, k)
  {
    d[IndexOf(d, k)].1
  }

  /** `d[k] = v`: an existing entry gets the new value in place; a new key is appended. */
  function Put<V>(d: Dict<V>, k: string, v: V): (r: Dict<V>)
    ensures Keys(r) == if Has(d, k) then Keys(d) else Keys(d) + [k]
    ensures Has(r, k) && Get(r, k) == v
    ensures forall k' :: k' != k ==> Has(r, k') == Has(d, k')
    ensures forall k' :: k' != k && Has(d, k') ==> Get(r, k') == Get(d, k')
    ensures Valid(d) ==> Valid(r)
  {
    if Has(d, k) then
      var r := d[IndexOf(d, k) := (k, v)];
      SameKeys(d, r);
      r
    else
      var r := d + [(k, v)];
      Extended(d, k, v);
      r
  }

  /** The first entry with key `k` is the one `IndexOf` finds. */
  lemma FirstIndex<V>(d: Dict<V>, k: string, i: nat)
    requires i < |d| && d[i].0 == k
    requires forall j :: 0 <= j < i ==> d[j].0 != k
    ensures Has(d, k) && IndexOf(d, k) == i
  {
    var x := IndexOf(d, k);
  }

  /** Two dictionaries with the same keys at the same places find every key at the same place. */
  lemma SameKeys<V>(d: Dict<V>, r: Dict<V>)
    requires |d| == |r| && forall j :: 0 <= j < |d| ==> r[j].0 == d[j].0
    ensures Keys(r) == Keys(d)
    ensures forall k' :: Has(d, k') <==> Has(r, k')
    ensures forall k' :: Has(d, k') ==> IndexOf(r, k') == IndexOf(d, k')
    ensures Valid(d) ==> Valid(r)
  {
    forall k' | Has(d, k') ensures Has(r, k') && IndexOf(r, k') == IndexOf(d, k') {
      FirstIndex(r, k', IndexOf(d, k'));
    }
    forall k' | Has(r, k') ensures Has(d, k') {
      var i := IndexOf(r, k');
      assert d[i].0 == k';
    }
  }

  /** Appending a new key leaves every other key where it was. */
  lemma Extended<V>(d: Dict<V>, k: string, v: V)
    requires !Has(d, k)
    ensures Has(d + [(k, v)], k) && IndexOf(d + [(k, v)], k) == |d|
    ensures forall k' :: k' != k ==> (Has(d, k') <==> Has(d + [(k, v)], k'))
    ensures forall k' :: Has(d, k') ==> IndexOf(d + [(k, v)], k') == IndexOf(d, k')
    ensures Keys(d + [(k, v)]) == Keys(d) + [k]
  {
    var r := d + [(k, v)];
    FirstIndex(r, k, |d|);
    forall k' | Has(d, k') ensures Has(r, k') && IndexOf(r, k') == IndexOf(d, k') {
      FirstIndex(r, k', IndexOf(d, k'));
    }
    forall k' | k' != k && Has(r, k') ensures Has(d, k') {
      var i := IndexOf(r, k');
      assert i < |d| && d[i].0 == k';
    }
  }

  lemma HasKeys<V>(d: Dict<V>, k: string)
    ensures Has(d, k) <==> k in Keys(d)
  {
    if k in Keys(d) {
      var i :| 0 <= i < |d| && Keys(d)[i] == k;
    }
  }

  /** In a dictionary without repeated keys, an entry's value is what `d[k]` gives. */
  lemma GetEntry<V>(d: Dict<V>, i: nat)
    requires Valid(d) && i < |d|
    ensures Has(d, d[i].0) && Get(d, d[i].0) == d[i].1
  {
  }

  /** Dropping the last entry of a dictionary without repeated keys: the rest
      has no repeats, lacks the dropped key, and gives every key it has the
      same value. */
  lemma DropLast<V>(d: Dict<V>)
    requires Valid(d) && d != []
    ensures Valid(d[..|d| - 1]) && !Has(d[..|d| - 1], d[|d| - 1].0)
    ensures Has(d, d[|d| - 1].0) && Get(d, d[|d| - 1].0) == d[|d| - 1].1
    ensures forall k :: Has(d, k) <==> Has(d[..|d| - 1], k) || k == d[|d| - 1].0
    ensures forall k :: Has(d[..|d| - 1], k) ==> Get(d, k) == Get(d[..|d| - 1], k)
  {
    var init := d[..|d| - 1];
    GetEntry(d, |d| - 1);
    forall k | Has(init, k) ensures Has(d, k) && Get(d, k) == Get(init, k) {
      var i := IndexOf(init, k);
      FirstIndex(d, k, i);
    }
    forall k | Has(d, k) && k != d[|d| - 1].0 ensures Has(init, k) {
      var i := IndexOf(d, k);
      assert init[i].0 == k;
    }
  }
}
