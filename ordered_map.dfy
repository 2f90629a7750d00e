/** A PHP array with string keys: an insertion-ordered association list in which assigning
    to a key that is already present replaces its value where it stands. */
module OrderedMap {

  datatype Entry<V> = Entry(key: string, value: V)

  function Keys<V>(m: seq<Entry<V>>): (ks: seq<string>)
    ensures |ks| == |m|
    ensures forall i :: 0 <= i < |m| ==> ks[i] == m[i].key
  {
    seq(|m|, i requires 0 <= i < |m| => m[i].key)
  }

  predicate UniqueKeys<V>(m: seq<Entry<V>>) {
    forall i, j :: 0 <= i < j < |m| ==> m[i].key != m[j].key
  }

  /** Position of the first entry with key k, or |m| when there is none. */
  function Find<V>(m: seq<Entry<V>>, k: string): (i: nat)
    ensures i <= |m|
    ensures i < |m| ==> m[i].key == k
    ensures forall j :: 0 <= j < i ==> m[j].key != k
    ensures i == |m| <==> k !in Keys(m)
  {
    if m == [] then 0
    else if m[0].key == k then 0
    else
      var i := Find(m[1..], k);
      assert k in Keys(m) ==> k in Keys(m[1..]) by {
        if k in Keys(m) {
          var j :| 0 <= j < |m| && Keys(m)[j] == k;
          assert Keys(m[1..])[j - 1] == k;
        }
      }
      1 + i
  }

  /** $m[$k] = $v. */
  function Put<V>(m: seq<Entry<V>>, k: string, v: V): (r: seq<Entry<V>>)
    ensures |r| == if k in Keys(m) then |m| else |m| + 1
    ensures forall i :: 0 <= i < |m| ==> r[i].key == m[i].key
    ensures forall i :: 0 <= i < |m| && m[i].key != k ==> r[i] == m[i]
    ensures k !in Keys(m) ==> r == m + [Entry(k, v)]
    ensures k in Keys(r)
  {
    var i := Find(m, k);
    var r := if i < |m| then m[i := Entry(k, v)] else m + [Entry(k, v)];
    assert Keys(r)[i] == k;
    r
  }

  /** Every entry after an assignment is the assigned one or was there before. */
  lemma PutEntries<V>(m: seq<Entry<V>>, k: string, v: V)
    ensures forall e :: e in Put(m, k, v) ==> e == Entry(k, v) || e in m
  {
  }

  /** Assignment keeps keys unique. */
  lemma PutUnique<V>(m: seq<Entry<V>>, k: string, v: V)
    requires UniqueKeys(m)
    ensures UniqueKeys(Put(m, k, v))
  {
  }

  /** The key-value view of the array: the value of a key is the one at its first position. */
  function AsMap<V>(m: seq<Entry<V>>): map<string, V> {
    if m == [] then map[] else AsMap(m[1..])[m[0].key := m[0].value]
  }

  lemma PutCons<V>(m: seq<Entry<V>>, k: string, v: V)
    requires m != []
    ensures m[0].key == k ==> Put(m, k, v) == [Entry(k, v)] + m[1..]
    ensures m[0].key != k ==> Put(m, k, v) == [m[0]] + Put(m[1..], k, v)
  {
    if m[0].key == k {
      assert Find(m, k) == 0;
      assert m[0 := Entry(k, v)] == [Entry(k, v)] + m[1..];
    } else {
      PutConsMiss(m, k, v);
    }
  }

  lemma PutConsMiss<V>(m: seq<Entry<V>>, k: string, v: V)
    requires m != [] && m[0].key != k
    ensures Put(m, k, v) == [m[0]] + Put(m[1..], k, v)
  {
    var i := Find(m[1..], k);
    assert Find(m, k) == 1 + i;
    if i < |m[1..]| {
      assert [m[0]] + m[1..][i := Entry(k, v)] == m[1 + i := Entry(k, v)];
    } else {
      assert [m[0]] + (m[1..] + [Entry(k, v)]) == m + [Entry(k, v)];
    }
  }

  lemma MapUpdatesCommute<V>(a: map<string, V>, k1: string, v1: V, k2: string, v2: V)
    requires k1 != k2
    ensures a[k1 := v1][k2 := v2] == a[k2 := v2][k1 := v1]
  {
  }

  lemma AsMapCons<V>(e: Entry<V>, m: seq<Entry<V>>)
    ensures AsMap([e] + m) == AsMap(m)[e.key := e.value]
  {
    assert ([e] + m)[1..] == m;
  }

  /** Assigning a key updates the key-value view at that key and nowhere else. */
  lemma {:induction false} PutAsMap<V>(m: seq<Entry<V>>, k: string, v: V)
    ensures AsMap(Put(m, k, v)) == AsMap(m)[k := v]
  {
    if m == [] {
      assert Put(m, k, v) == [Entry(k, v)] + [];
      AsMapCons(Entry(k, v), []);
    } else if m[0].key != k {
      PutCons(m, k, v);
      PutAsMap(m[1..], k, v);
      AsMapCons(m[0], Put(m[1..], k, v));
      AsMapCons(m[0], m[1..]);
      assert [m[0]] + m[1..] == m;
      MapUpdatesCommute(AsMap(m[1..]), k, v, m[0].key, m[0].value);
    } else {
      PutCons(m, k, v);
      AsMapCons(Entry(k, v), m[1..]);
      AsMapCons(m[0], m[1..]);
      assert [m[0]] + m[1..] == m;
    }
  }

  /** In an array with unique keys, the key-value view gives the value stored at each position. */
  lemma {:induction false} AsMapAt<V>(m: seq<Entry<V>>, i: nat)
    requires UniqueKeys(m) && i < |m|
    ensures m[i].key in AsMap(m) && AsMap(m)[m[i].key] == m[i].value
  {
    if i > 0 {
      AsMapAt(m[1..], i - 1);
    }
  }
}
