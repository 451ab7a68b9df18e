/** The handler's backing `TreeBasedTable<LocalDateTime, UUID, ChargingSession>`:
    a map from (row key, column key) to session whose iteration order is rows
    ascending, then columns ascending within a row. */
module Tables {
  import Uuids
  import opened Sessions

  /** (row key, column key) = (start time, session id). */
  type Key = (Time, Uuids.Uuid)

  type Table = map<Key, ChargingSession>

  /** The table's iteration order on keys: by start time, then by id. */
  predicate KeyLess(a: Key, b: Key) {
    a.0 < b.0 || (a.0 == b.0 && Uuids.Less(a.1, b.1))
  }

  lemma KeyLessIsStrictTotalOrder(a: Key, b: Key, c: Key)
    ensures !KeyLess(a, a)
    ensures KeyLess(a, b) ==> !KeyLess(b, a)
    ensures KeyLess(a, b) && KeyLess(b, c) ==> KeyLess(a, c)
    ensures a == b || KeyLess(a, b) || KeyLess(b, a)
  {
  }

  /** `m` belongs to `keys` and comes before every other key in it. */
  predicate IsLeast(m: Key, keys: set<Key>) {
    m in keys && forall k :: k in keys && k != m ==> KeyLess(m, k)
  }

  lemma {:induction false} LeastExists(keys: set<Key>)
    requires keys != {}
    ensures exists m :: IsLeast(m, keys)
    decreases |keys|
  {
    var x :| x in keys;
    if keys != {x} {
      var rest := keys - {x};
      LeastExists(rest);
      var m :| IsLeast(m, rest);
      if KeyLess(x, m) {
        forall k | k in keys && k != x
          ensures KeyLess(x, k)
        {
          KeyLessIsStrictTotalOrder(x, m, k);
        }
        assert IsLeast(x, keys);
      } else {
        KeyLessIsStrictTotalOrder(x, m, x);
        assert IsLeast(m, keys);
      }
    } else {
      assert IsLeast(x, keys);
    }
  }

  /** The first key of a non-empty key set in the table's order. */
  function Least(keys: set<Key>): (m: Key)
    requires keys != {}
    ensures IsLeast(m, keys)
  {
    LeastExists(keys);
    var m :| IsLeast(m, keys);
    m
  }

  predicate StrictlyAscending(ks: seq<Key>) {
    forall i, j :: 0 <= i < j < |ks| ==> KeyLess(ks[i], ks[j])
  }

  /** The keys of a key set, listed once each in the table's order. */
  function SortedKeys(keys: set<Key>): (ks: seq<Key>)
    ensures |ks| == |keys|
    ensures forall k :: k in ks <==> k in keys
    ensures StrictlyAscending(ks)
    decreases |keys|
  {
    if keys == {} then []
    else
      var m := Least(keys);
      [m] + SortedKeys(keys - {m})
  }

  /** The sessions stored under `ks`, in that order. */
  function Lookup(t: Table, ks: seq<Key>): (r: seq<ChargingSession>)
    requires forall i :: 0 <= i < |ks| ==> ks[i] in t
    ensures |r| == |ks|
    ensures forall i :: 0 <= i < |ks| ==> r[i] == t[ks[i]]
  {
    seq(|ks|, i requires 0 <= i < |ks| => t[ks[i]])
  }

  lemma LookupCoversTable(t: Table, ks: seq<Key>)
    requires forall k :: k in ks <==> k in t
    ensures forall s :: s in Lookup(t, ks) <==> s in t.Values
  {
    var r := Lookup(t, ks);
    forall s | s in t.Values
      ensures s in r
    {
      var k :| k in t && t[k] == s;
      var i :| 0 <= i < |ks| && ks[i] == k;
      assert r[i] == s;
    }
  }

  /** `table.values()`: one session per cell, in key order. */
  function Values(t: Table): (r: seq<ChargingSession>)
    ensures |r| == |t|
    ensures forall s :: s in r <==> s in t.Values
  {
    var ks := SortedKeys(t.Keys);
    LookupCoversTable(t, ks);
    Lookup(t, ks)
  }

  /** The cells of one column: every key whose column key is `id`. */
  function Column(t: Table, id: Uuids.Uuid): set<Key> {
    set k | k in t && k.1 == id
  }

  /** `table.containsColumn(id)`. */
  predicate ContainsColumn(t: Table, id: Uuids.Uuid): (b: bool)
    ensures b <==> exists k :: k in t && k.1 == id
  {
    assert forall k :: k in t && k.1 == id ==> k in Column(t, id);
    Column(t, id) != {}
  }
}
