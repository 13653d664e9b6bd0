/**
 * One collection of the in-memory store: a JavaScript `Map<number, T>` (a
 * key-to-record map plus the insertion order its iteration follows) together
 * with the collection's id counter. Each collection owns its own table, so id
 * sequences are independent.
 */
module Table {
  import opened Optional

  datatype Table<T> = Table(rows: map<int, T>, order: seq<int>, next: int)

  ghost predicate Distinct(s: seq<int>) {
    forall i, j :: 0 <= i < j < |s| ==> s[i] != s[j]
  }

  /** Keys in issue order: each key is larger than every key before it. */
  ghost predicate Increasing(s: seq<int>) {
    forall i, j :: 0 <= i < j < |s| ==> s[i] < s[j]
  }

  /**
   * The representation invariant: the counter starts at 1, every stored key
   * was issued by the counter (so lies below it), and the order lists each
   * stored key exactly once, in the order the counter issued them.
   */
  ghost predicate Valid<T>(t: Table<T>) {
    && 1 <= t.next
    && Increasing(t.order)
    && (forall i :: 0 <= i < |t.order| ==> t.order[i] in t.rows)
    && (forall k :: k in t.rows ==> k in t.order)
    && (forall k :: k in t.rows ==> 1 <= k < t.next)
  }

  /** Every record is stored under its own id. */
  ghost predicate KeyedBy<T>(t: Table<T>, key: T -> int) {
    forall k :: k in t.rows ==> key(t.rows[k]) == k
  }

  /** `new Map()` with its counter at 1. */
  function Empty<T>(): (t: Table<T>)
    ensures Valid(t)
    ensures t.next == 1
    ensures forall k :: Get(t, k) == None
    ensures List(t) == []
  {
    Table(map[], [], 1)
  }

  /** `map.get(k)`: the stored record for a present key, `undefined` for any other. */
  function Get<T>(t: Table<T>, k: int): (r: Option<T>)
    ensures r.Some? <==> k in t.rows
    ensures r.Some? ==> r.value == t.rows[k]
  {
    if k in t.rows then Some(t.rows[k]) else None
  }

  /** The records under `keys`, in the order of `keys`. */
  function ValuesOf<T>(rows: map<int, T>, keys: seq<int>): (vs: seq<T>)
    requires forall i :: 0 <= i < |keys| ==> keys[i] in rows
    ensures |vs| == |keys|
    ensures forall i :: 0 <= i < |keys| ==> vs[i] == rows[keys[i]]
  {
    if |keys| == 0 then [] else [rows[keys[0]]] + ValuesOf(rows, keys[1..])
  }

  /** `Array.from(map.values())`: every stored record once, in insertion order. */
  function List<T>(t: Table<T>): (vs: seq<T>)
    requires Valid(t)
    ensures |vs| == |t.order|
    ensures forall i :: 0 <= i < |t.order| ==> Get(t, t.order[i]) == Some(vs[i])
  {
    ValuesOf(t.rows, t.order)
  }

  /** Position `i` of the listing holds the record stored under the `i`-th key of the order. */
  lemma ListAt<T>(t: Table<T>, i: nat)
    requires Valid(t)
    requires i < |t.order|
    ensures Get(t, t.order[i]) == Some(List(t)[i])
  {
  }

  /** The listing has one entry per stored key. */
  lemma ListCount<T>(t: Table<T>)
    requires Valid(t)
    ensures |List(t)| == |t.rows|
  {
    IncreasingDistinct(t.order);
    DistinctCard(t.order);
    forall x
      ensures x in (set y | y in t.order) <==> x in t.rows.Keys
    {
      if x in t.order {
        var i := IndexOf(t.order, x);
      }
    }
    assert (set x | x in t.order) == t.rows.Keys;
  }

  /** The listing follows issue order: a record listed earlier sits under a smaller key. */
  lemma ListInKeyOrder<T>(t: Table<T>, key: T -> int)
    requires Valid(t) && KeyedBy(t, key)
    ensures forall i, j :: 0 <= i < j < |List(t)| ==> key(List(t)[i]) < key(List(t)[j])
  {
    forall i, j | 0 <= i < j < |List(t)|
      ensures key(List(t)[i]) < key(List(t)[j])
    {
      ListAt(t, i);
      ListAt(t, j);
    }
  }

  /** Every stored record appears in the listing, at its key's position. */
  lemma ListContains<T>(t: Table<T>, k: int)
    requires Valid(t)
    requires k in t.rows
    ensures IndexOf(t.order, k) < |List(t)|
    ensures List(t)[IndexOf(t.order, k)] == t.rows[k]
  {
    ListAt(t, IndexOf(t.order, k));
  }

  /** The position of `k` in `s`. */
  function IndexOf(s: seq<int>, k: int): (i: nat)
    requires k in s
    ensures i < |s| && s[i] == k
  {
    if s[0] == k then 0 else 1 + IndexOf(s[1..], k)
  }

  /** `s` with every occurrence of `k` dropped, the rest in order. */
  function Without(s: seq<int>, k: int): (r: seq<int>)
    ensures forall x :: x in r <==> x in s && x != k
  {
    if |s| == 0 then []
    else if s[0] == k then Without(s[1..], k)
    else [s[0]] + Without(s[1..], k)
  }

  /**
   * The next id is stored with `v` and appended to the iteration order; the
   * counter moves on by one.
   */
  function Insert<T>(t: Table<T>, v: T): (t': Table<T>)
    requires Valid(t)
    ensures Valid(t')
    ensures t.next !in t.rows
    ensures t'.next == t.next + 1
    ensures Get(t', t.next) == Some(v)
    ensures forall k :: k != t.next ==> Get(t', k) == Get(t, k)
    ensures List(t') == List(t) + [v]
  {
    var t' := Table(t.rows[t.next := v], t.order + [t.next], t.next + 1);
    InsertValid(t, v);
    ValuesOfAppend(t'.rows, t.order, [t.next]);
    ValuesOfFrame(t.rows, t'.rows, t.order);
    t'
  }

  /**
   * `map.set(k, v)` for a key already present: the record is replaced and the
   * key keeps its place in the iteration order.
   */
  function Replace<T>(t: Table<T>, k: int, v: T): (t': Table<T>)
    requires Valid(t)
    requires k in t.rows
    ensures Valid(t')
    ensures t'.next == t.next
    ensures Get(t', k) == Some(v)
    ensures forall j :: j != k ==> Get(t', j) == Get(t, j)
    ensures List(t') == List(t)[IndexOf(t.order, k) := v]
  {
    var t' := Table(t.rows[k := v], t.order, t.next);
    IncreasingDistinct(t.order);
    ValuesOfUpdate(t.rows, t.order, IndexOf(t.order, k), v);
    t'
  }

  /** Writing back the record a key already holds leaves the table as it was. */
  lemma ReplaceSame<T>(t: Table<T>, k: int)
    requires Valid(t)
    requires k in t.rows
    ensures Replace(t, k, t.rows[k]) == t
  {
    assert t.rows[k := t.rows[k]] == t.rows;
  }

  /** Replacing a record and then writing the original back restores the table. */
  lemma ReplaceRestore<T>(t: Table<T>, k: int, v: T)
    requires Valid(t)
    requires k in t.rows
    ensures Replace(Replace(t, k, v), k, t.rows[k]) == t
  {
    assert t.rows[k := v][k := t.rows[k]] == t.rows;
  }

  /** `map.delete(k)`: the key leaves the map and the order; a missing key changes nothing. */
  function Remove<T>(t: Table<T>, k: int): (t': Table<T>)
    requires Valid(t)
    ensures Valid(t')
    ensures t'.next == t.next
    ensures Get(t', k) == None
    ensures forall j :: j != k ==> Get(t', j) == Get(t, j)
    ensures k !in t.rows ==> t' == t
    ensures k in t.rows ==>
              var p := IndexOf(t.order, k);
              List(t') == List(t)[..p] + List(t)[p + 1..]
  {
    if k !in t.rows then t
    else
      RemoveListing(t, k);
      Table(t.rows - {k}, Without(t.order, k), t.next)
  }

  /* ---------- lemmas about the order sequence ---------- */

  lemma InsertValid<T>(t: Table<T>, v: T)
    requires Valid(t)
    ensures Valid(Table(t.rows[t.next := v], t.order + [t.next], t.next + 1))
  {
    assert t.next !in t.order;
  }

  lemma RemoveValid<T>(t: Table<T>, k: int)
    requires Valid(t)
    ensures Valid(Table(t.rows - {k}, Without(t.order, k), t.next))
  {
    WithoutIncreasing(t.order, k);
    var order' := Without(t.order, k);
    forall i | 0 <= i < |order'|
      ensures order'[i] in t.rows - {k}
    {
      assert order'[i] in order';
      var j := IndexOf(t.order, order'[i]);
    }
  }

  /** Deleting a present key cuts the listing at the key's position. */
  lemma RemoveListing<T>(t: Table<T>, k: int)
    requires Valid(t)
    requires k in t.rows
    ensures Valid(Table(t.rows - {k}, Without(t.order, k), t.next))
    ensures var p := IndexOf(t.order, k);
            List(Table(t.rows - {k}, Without(t.order, k), t.next)) == List(t)[..p] + List(t)[p + 1..]
  {
    RemoveValid(t, k);
    IncreasingDistinct(t.order);
    ValuesOfWithout(t.rows, t.order, IndexOf(t.order, k));
  }

  /** A duplicate-free sequence has as many elements as its set. */
  lemma {:induction false} DistinctCard(s: seq<int>)
    requires Distinct(s)
    ensures |(set x | x in s)| == |s|
  {
    if |s| > 0 {
      DistinctCard(s[1..]);
      assert (set x | x in s) == {s[0]} + (set x | x in s[1..]);
      assert s[0] !in (set x | x in s[1..]);
    }
  }

  lemma IncreasingDistinct(s: seq<int>)
    requires Increasing(s)
    ensures Distinct(s)
  {
  }

  /** Dropping keys keeps the rest in increasing order. */
  lemma {:induction false} WithoutIncreasing(s: seq<int>, k: int)
    requires Increasing(s)
    ensures Increasing(Without(s, k))
  {
    if |s| > 0 {
      WithoutIncreasing(s[1..], k);
      var r := Without(s[1..], k);
      forall x | x in r
        ensures s[0] < x
      {
        var j := IndexOf(s[1..], x);
        assert s[0] < s[1..][j];
      }
      if s[0] != k {
        assert forall j :: 0 <= j < |r| ==> r[j] in r;
      }
    }
  }

  lemma {:induction false} WithoutAbsent(s: seq<int>, k: int)
    requires k !in s
    ensures Without(s, k) == s
  {
    if |s| > 0 {
      WithoutAbsent(s[1..], k);
    }
  }

  /** Dropping the only occurrence of a key cuts the sequence at its position. */
  lemma {:induction false} WithoutAt(s: seq<int>, p: nat)
    requires Distinct(s)
    requires p < |s|
    ensures Without(s, s[p]) == s[..p] + s[p + 1..]
  {
    if p == 0 {
      WithoutAbsent(s[1..], s[0]);
    } else {
      WithoutAt(s[1..], p - 1);
      assert s[1..][..p - 1] + s[1..][p..] == s[1..p] + s[p + 1..];
      assert s[..p] == [s[0]] + s[1..p];
    }
  }

  /* ---------- lemmas about listing ---------- */

  lemma ValuesOfAppend<T>(rows: map<int, T>, a: seq<int>, b: seq<int>)
    requires forall i :: 0 <= i < |a| ==> a[i] in rows
    requires forall i :: 0 <= i < |b| ==> b[i] in rows
    ensures ValuesOf(rows, a + b) == ValuesOf(rows, a) + ValuesOf(rows, b)
  {
    assert forall i :: 0 <= i < |a| ==> a[i] == (a + b)[i];
    assert forall i :: 0 <= i < |b| ==> b[i] == (a + b)[|a| + i];
  }

  /** Listing only reads the keys it lists. */
  lemma ValuesOfFrame<T>(rows: map<int, T>, rows': map<int, T>, keys: seq<int>)
    requires forall i :: 0 <= i < |keys| ==> keys[i] in rows && keys[i] in rows' && rows[keys[i]] == rows'[keys[i]]
    ensures ValuesOf(rows, keys) == ValuesOf(rows', keys)
  {
  }

  lemma ValuesOfSlices<T>(rows: map<int, T>, keys: seq<int>, p: nat)
    requires forall i :: 0 <= i < |keys| ==> keys[i] in rows
    requires p < |keys|
    ensures ValuesOf(rows, keys[..p]) == ValuesOf(rows, keys)[..p]
    ensures ValuesOf(rows, keys[p + 1..]) == ValuesOf(rows, keys)[p + 1..]
  {
  }

  /** Dropping a listed key from both the map and the keys cuts the listing at its position. */
  lemma ValuesOfWithout<T>(rows: map<int, T>, keys: seq<int>, p: nat)
    requires forall i :: 0 <= i < |keys| ==> keys[i] in rows
    requires Distinct(keys)
    requires p < |keys|
    ensures forall i :: 0 <= i < |Without(keys, keys[p])| ==> Without(keys, keys[p])[i] in rows - {keys[p]}
    ensures ValuesOf(rows - {keys[p]}, Without(keys, keys[p])) == ValuesOf(rows, keys)[..p] + ValuesOf(rows, keys)[p + 1..]
  {
    var before, after := keys[..p], keys[p + 1..];
    WithoutAt(keys, p);
    assert Without(keys, keys[p]) == before + after;
    calc {
      ValuesOf(rows - {keys[p]}, before + after);
    ==  { ValuesOfFrame(rows, rows - {keys[p]}, before + after); }
      ValuesOf(rows, before + after);
    ==  { ValuesOfAppend(rows, before, after); }
      ValuesOf(rows, before) + ValuesOf(rows, after);
    ==  { ValuesOfSlices(rows, keys, p); }
      ValuesOf(rows, keys)[..p] + ValuesOf(rows, keys)[p + 1..];
    }
  }

  /** Replacing the record under a listed key changes the listing at that key's position only. */
  lemma ValuesOfUpdate<T>(rows: map<int, T>, keys: seq<int>, p: nat, v: T)
    requires forall i :: 0 <= i < |keys| ==> keys[i] in rows
    requires Distinct(keys)
    requires p < |keys|
    ensures ValuesOf(rows[keys[p] := v], keys) == ValuesOf(rows, keys)[p := v]
  {
    assert forall i :: 0 <= i < |keys| && i != p ==> keys[i] != keys[p];
  }
}
