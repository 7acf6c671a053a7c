/**
 * Plain JavaScript objects used as dictionaries (`obj[key] = value`,
 * `Object.keys`, `Object.entries`). Property order is insertion order, so an
 * object is modelled as its list of entries: assigning an existing key
 * replaces the value in place, a new key goes at the end.
 */
module JsObject {
  import opened Wrappers

  type Dict<V> = seq<(string, V)>

  /** No key occurs twice, as in every real object. */
  predicate UniqueKeys<V>(d: Dict<V>) {
    forall i, j :: 0 <= i < j < |d| ==> d[i].0 != d[j].0
  }

  /** `d[k]` (`undefined` when absent): the value of an entry with key `k`. */
  function Get<V>(d: Dict<V>, k: string): (r: Option<V>)
    ensures r.None? <==> forall i :: 0 <= i < |d| ==> d[i].0 != k
    ensures r.Some? ==> (k, r.value) in d
  {
    if |d| == 0 then
      None
    else if d[0].0 == k then
      Some(d[0].1)
    else
      var r := Get(d[1..], k);
      assert forall i :: 1 <= i < |d| ==> d[i] == d[1..][i - 1];
      r
  }

  /** `k in d`. */
  predicate HasKey<V>(d: Dict<V>, k: string) {
    Get(d, k).Some?
  }

  /** `d[k] = v`: afterwards `k` reads `v` and every other key reads as
      before; `PutExisting` and `PutNew` say where the entry goes. */
  function Put<V>(d: Dict<V>, k: string, v: V): (r: Dict<V>)
    ensures Get(r, k) == Some(v)
    ensures forall k' :: k' != k ==> Get(r, k') == Get(d, k')
  {
    if |d| == 0 then
      [(k, v)]
    else if d[0].0 == k then
      [(k, v)] + d[1..]
    else
      var rest := Put(d[1..], k, v);
      assert forall k' :: k' != k ==> Get(d[1..], k') == Get(rest, k');
      [d[0]] + rest
  }

  /** Assigning an existing key keeps every entry's key in its place. */
  lemma {:induction false} PutExisting<V>(d: Dict<V>, k: string, v: V)
    requires HasKey(d, k)
    ensures |Put(d, k, v)| == |d|
    ensures forall i :: 0 <= i < |d| ==> Put(d, k, v)[i].0 == d[i].0
  {
    if d[0].0 != k {
      PutExisting(d[1..], k, v);
      var r := Put(d, k, v);
      assert r == [d[0]] + Put(d[1..], k, v);
      forall i | 1 <= i < |d| ensures r[i].0 == d[i].0 {
        assert r[i] == Put(d[1..], k, v)[i - 1] && d[i] == d[1..][i - 1];
      }
    } else {
      assert forall i :: 1 <= i < |d| ==> Put(d, k, v)[i] == d[i];
    }
  }

  /** Assigning a new key appends its entry. */
  lemma {:induction false} PutNew<V>(d: Dict<V>, k: string, v: V)
    requires !HasKey(d, k)
    ensures Put(d, k, v) == d + [(k, v)]
  {
    if |d| > 0 {
      PutNew(d[1..], k, v);
      assert d == [d[0]] + d[1..];
    }
  }

  /** Assignment never duplicates a key. */
  lemma {:induction false} PutKeepsUnique<V>(d: Dict<V>, k: string, v: V)
    requires UniqueKeys(d)
    ensures UniqueKeys(Put(d, k, v))
  {
    if |d| > 0 && d[0].0 != k {
      var rest := Put(d[1..], k, v);
      UniqueTail(d);
      PutKeepsUnique(d[1..], k, v);
      assert Get(rest, d[0].0) == None;
      assert Put(d, k, v) == [d[0]] + rest;
    } else if |d| > 0 {
      assert forall i :: 1 <= i < |d| ==> Put(d, k, v)[i] == d[i];
    }
  }

  lemma UniqueTail<V>(d: Dict<V>)
    requires |d| > 0 && UniqueKeys(d)
    ensures UniqueKeys(d[1..])
    ensures Get(d[1..], d[0].0) == None
  {
    assert forall i :: 0 <= i < |d[1..]| ==> d[1..][i] == d[i + 1];
  }

  /** Entry `i` is the last entry of `es` with its key. */
  predicate IsLastOfKey<V>(es: seq<(string, V)>, i: int) {
    && 0 <= i < |es|
    && forall j :: i < j < |es| ==> es[j].0 != es[i].0
  }

  /** `d` is what assigning the entries of `es` in order produces: keys are
      unique, a key is present only if some entry has it and then with the
      value of such an entry, and the last entry of each key decides its value. */
  ghost predicate Built<V>(d: Dict<V>, es: seq<(string, V)>) {
    && UniqueKeys(d)
    && (forall k :: (forall i :: 0 <= i < |es| ==> es[i].0 != k) ==> Get(d, k) == None)
    && (forall k :: HasKey(d, k) ==> (k, Get(d, k).value) in es)
    && (forall i :: IsLastOfKey(es, i) ==> Get(d, es[i].0) == Some(es[i].1))
  }

  /** Assigning `d[k] = v` for each entry in order, starting from `{}`: a key
      is present iff some entry has it, and it reads the value of the last
      such entry. */
  function FromEntries<V>(es: seq<(string, V)>): (r: Dict<V>)
    ensures Built(r, es)
    decreases |es|
  {
    if |es| == 0 then
      []
    else
      var d := FromEntries(es[..|es| - 1]);
      AssignLast(es, d);
      Put(d, es[|es| - 1].0, es[|es| - 1].1)
  }

  /** One more assignment extends what `FromEntries` promises by one entry. */
  lemma AssignLast<V>(es: seq<(string, V)>, d: Dict<V>)
    requires |es| > 0 && Built(d, es[..|es| - 1])
    ensures Built(Put(d, es[|es| - 1].0, es[|es| - 1].1), es)
  {
    var init := es[..|es| - 1];
    var last := es[|es| - 1];
    assert es == init + [last];
    PutKeepsUnique(d, last.0, last.1);
    AssignLastAbsent(init, last, d);
    AssignLastProvenance(init, last, d);
    AssignLastValues(init, last, d);
  }

  lemma AssignLastAbsent<V>(init: seq<(string, V)>, last: (string, V), d: Dict<V>)
    requires forall k :: (forall i :: 0 <= i < |init| ==> init[i].0 != k) ==> Get(d, k) == None
    ensures var es := init + [last]; var r := Put(d, last.0, last.1);
      forall k :: (forall i :: 0 <= i < |es| ==> es[i].0 != k) ==> Get(r, k) == None
  {
    var es := init + [last];
    assert es[|init|] == last;
    assert forall i :: 0 <= i < |init| ==> init[i] == es[i];
  }

  lemma AssignLastProvenance<V>(init: seq<(string, V)>, last: (string, V), d: Dict<V>)
    requires forall k :: HasKey(d, k) ==> (k, Get(d, k).value) in init
    ensures var es := init + [last]; var r := Put(d, last.0, last.1);
      forall k :: HasKey(r, k) ==> (k, Get(r, k).value) in es
  {
  }

  lemma AssignLastValues<V>(init: seq<(string, V)>, last: (string, V), d: Dict<V>)
    requires forall i :: IsLastOfKey(init, i) ==> Get(d, init[i].0) == Some(init[i].1)
    ensures var es := init + [last]; var r := Put(d, last.0, last.1);
      forall i :: IsLastOfKey(es, i) ==> Get(r, es[i].0) == Some(es[i].1)
  {
    var es := init + [last];
    var r := Put(d, last.0, last.1);
    forall i | IsLastOfKey(es, i)
      ensures Get(r, es[i].0) == Some(es[i].1)
    {
      if i < |init| {
        assert es[|init|] == last;
        assert last.0 != es[i].0;
        forall j | i < j < |init| ensures init[j].0 != init[i].0 {
          assert init[j] == es[j];
        }
        assert init[i] == es[i];
      }
    }
  }

  /** Every entry's key is present in `FromEntries(es)`. */
  lemma FromEntriesHasEveryKey<V>(es: seq<(string, V)>, i: int)
    requires 0 <= i < |es|
    ensures HasKey(FromEntries(es), es[i].0)
  {
    var k := es[i].0;
    var j := i;
    while j + 1 < |es| && exists m :: j < m < |es| && es[m].0 == k
      invariant i <= j < |es| && es[j].0 == k
      decreases |es| - j
    {
      var m :| j < m < |es| && es[m].0 == k;
      j := m;
    }
    assert IsLastOfKey(es, j);
  }

  /** The key of every entry reads back as present. */
  lemma EntryIsPresent<V>(d: Dict<V>, i: int)
    requires 0 <= i < |d|
    ensures HasKey(d, d[i].0)
  {
  }

  /** Each entry of a dictionary with unique keys is what its key reads. */
  lemma EntriesRead<V>(d: Dict<V>)
    requires UniqueKeys(d)
    ensures forall i :: 0 <= i < |d| ==> Get(d, d[i].0) == Some(d[i].1)
  {
    forall i | 0 <= i < |d|
      ensures Get(d, d[i].0) == Some(d[i].1)
    {
      EntryIsPresent(d, i);
      var v := Get(d, d[i].0).value;
      var j :| 0 <= j < |d| && d[j] == (d[i].0, v);
      assert j == i;
    }
  }

  /** `Object.keys(d)`: the keys in property order. */
  function Keys<V>(d: Dict<V>): (ks: seq<string>)
    ensures |ks| == |d|
    ensures forall i :: 0 <= i < |d| ==> ks[i] == d[i].0
  {
    seq(|d|, i requires 0 <= i < |d| => d[i].0)
  }

  /** A key is present exactly when it is among `Object.keys(d)`. */
  lemma HasKeyInKeys<V>(d: Dict<V>, k: string)
    ensures HasKey(d, k) <==> k in Keys(d)
  {
    if HasKey(d, k) {
      var i :| 0 <= i < |d| && d[i].0 == k;
      assert Keys(d)[i] == k;
    }
  }

  /** Each key once, in the order in which it first occurs in `ks`. */
  function FirstOccurrences(ks: seq<string>): (r: seq<string>)
    ensures forall k :: k in r <==> k in ks
    ensures forall i, j :: 0 <= i < j < |r| ==> r[i] != r[j]
    decreases |ks|
  {
    if |ks| == 0 then
      []
    else
      var init := ks[..|ks| - 1];
      var r := FirstOccurrences(init);
      assert ks == init + [ks[|ks| - 1]];
      if ks[|ks| - 1] in r then r else r + [ks[|ks| - 1]]
  }

  /** Property order of an object built by assignments: a key takes its
      place when first assigned and keeps it when assigned again. */
  lemma {:induction false} FromEntriesOrder<V>(es: seq<(string, V)>)
    ensures Keys(FromEntries(es)) == FirstOccurrences(Keys(es))
    decreases |es|
  {
    if |es| > 0 {
      var init := es[..|es| - 1];
      var last := es[|es| - 1];
      FromEntriesOrder(init);
      KeysOfInit(es);
      PutOrder(FromEntries(init), last.0, last.1);
    }
  }

  lemma KeysOfInit<V>(es: seq<(string, V)>)
    requires |es| > 0
    ensures Keys(es)[..|es| - 1] == Keys(es[..|es| - 1])
    ensures Keys(es)[|es| - 1] == es[|es| - 1].0
  {
  }

  /** Where `d[k] = v` leaves the keys: in place when `k` is present,
      with `k` appended otherwise. */
  lemma PutOrder<V>(d: Dict<V>, k: string, v: V)
    ensures Keys(Put(d, k, v)) == if k in Keys(d) then Keys(d) else Keys(d) + [k]
  {
    HasKeyInKeys(d, k);
    if HasKey(d, k) {
      PutExisting(d, k, v);
      assert Keys(Put(d, k, v)) == Keys(d);
    } else {
      PutNew(d, k, v);
      assert Keys(d + [(k, v)]) == Keys(d) + [k];
    }
  }
}
