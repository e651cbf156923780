/**
 * A table of the browser database with an auto-incremented primary key
 * (`++id`): rows kept in ascending key order, which is the order in which
 * `toArray()` returns them, and the key the next `add` hands out.
 */
module Store {
  import opened Wrappers

  datatype Row<R> = Row(id: int, val: R)

  datatype Table<R> = Table(ids: seq<int>, vals: map<int, R>, next: int)
  {
    /** Keys strictly ascending, each from 1 up and below `next`, and the
        key list and the stored records agree. */
    ghost predicate Valid()
    {
      && next >= 1
      && (forall i, j :: 0 <= i < j < |ids| ==> ids[i] < ids[j])
      && (forall i :: 0 <= i < |ids| ==> 1 <= ids[i] < next)
      && (forall i :: 0 <= i < |ids| ==> ids[i] in vals)
      && (forall k :: k in vals ==> k in ids)
    }

    /** `toArray()`: every row, in key order. */
    function Rows(): (r: seq<Row<R>>)
      requires Valid()
      ensures |r| == |ids|
      ensures forall i :: 0 <= i < |r| ==> r[i].id == ids[i] && r[i].id in vals && r[i].val == vals[ids[i]]
    {
      seq(|ids|, i requires 0 <= i < |ids| => Row(ids[i], vals[ids[i]]))
    }

    /** `count()`. */
    function Count(): nat
    {
      |ids|
    }

    /** `get(id)`: the record with that key, if any. */
    function Get(id: int): (r: Option<R>)
      ensures r.Some? <==> id in vals
      ensures r.Some? ==> r.value == vals[id]
    {
      if id in vals then Some(vals[id]) else None
    }

    /** `add(record)`: stores the record under the key `next`, which the
        caller reads back as the new id. */
    function Add(v: R): (t: Table<R>)
      requires Valid()
      ensures t.Valid()
      ensures t.next == next + 1
      ensures t.Get(next) == Some(v)
      ensures forall k :: k != next ==> t.Get(k) == Get(k)
      ensures t.Rows() == Rows() + [Row(next, v)]
    {
      AppendValid(v);
      Table(ids + [next], vals[next := v], next + 1)
    }

    /** Appending the key `next` keeps the table valid and appends one row. */
    lemma AppendValid(v: R)
      requires Valid()
      ensures Table(ids + [next], vals[next := v], next + 1).Valid()
      ensures Table(ids + [next], vals[next := v], next + 1).Rows() == Rows() + [Row(next, v)]
    {
      var t := Table(ids + [next], vals[next := v], next + 1);
      forall k | k in t.vals ensures k in t.ids {
        if k != next {
          assert k in ids;
        }
      }
      assert t.Valid();
      assert next !in ids;
      forall i | 0 <= i < |ids| ensures t.Rows()[i] == Rows()[i] {
        assert ids[i] != next;
      }
    }

    /** `update(id, record)` for a whole new record: nothing happens when the
        key is absent. */
    function Update(id: int, v: R): (t: Table<R>)
      requires Valid()
      ensures t.Valid() && t.ids == ids && t.next == next
      ensures t.Get(id) == if id in vals then Some(v) else None
      ensures forall k :: k != id ==> t.Get(k) == Get(k)
      ensures forall i :: 0 <= i < |ids| ==> t.Rows()[i] == if ids[i] == id then Row(id, v) else Rows()[i]
    {
      if id in vals then Table(ids, vals[id := v], next) else this
    }

    /** `put(record)` with a key: replaces the record under that key, or
        inserts it, in key order, when there is none. */
    function Put(id: int, v: R): (t: Table<R>)
      requires Valid() && id >= 1
      ensures t.Valid()
      ensures t.Get(id) == Some(v)
      ensures forall k :: k != id ==> t.Get(k) == Get(k)
      ensures id in vals ==> t.ids == ids && t.next == next
      ensures id !in vals ==> |t.ids| == |ids| + 1 && t.next == if id < next then next else id + 1
    {
      if id in vals then Update(id, v)
      else
        InsertValid(id, v);
        Table(InsertKey(ids, id), vals[id := v], if id < next then next else id + 1)
    }

    /** Inserting a new key in order keeps the table valid. */
    lemma InsertValid(id: int, v: R)
      requires Valid() && id >= 1 && id !in vals
      ensures Table(InsertKey(ids, id), vals[id := v], if id < next then next else id + 1).Valid()
    {
      var t := Table(InsertKey(ids, id), vals[id := v], if id < next then next else id + 1);
      InsertKeySorted(ids, id);
      forall i | 0 <= i < |t.ids| ensures t.ids[i] in t.vals && 1 <= t.ids[i] < t.next {
        assert t.ids[i] in InsertKey(ids, id);
      }
      forall k | k in t.vals ensures k in t.ids {
        if k != id {
          assert k in ids;
        }
      }
    }

    /** `delete(id)`: removes the row with that key, if any. */
    function Delete(id: int): (t: Table<R>)
      requires Valid()
      ensures t.Valid() && t.next == next
      ensures t.Get(id) == None
      ensures forall k :: k != id ==> t.Get(k) == Get(k)
      ensures |t.ids| == if id in vals then |ids| - 1 else |ids|
    {
      if id !in vals then this
      else
        var i := IndexOf(ids, id);
        RemoveValid(i);
        Table(ids[..i] + ids[i + 1..], vals - {ids[i]}, next)
    }

    /** Removing the key at position `i` keeps the table valid. */
    lemma RemoveValid(i: nat)
      requires Valid() && i < |ids|
      ensures Table(ids[..i] + ids[i + 1..], vals - {ids[i]}, next).Valid()
    {
      var t := Table(ids[..i] + ids[i + 1..], vals - {ids[i]}, next);
      RemoveKey(ids, i);
      forall j | 0 <= j < |t.ids| ensures t.ids[j] in t.vals && 1 <= t.ids[j] < t.next {
        assert t.ids[j] in t.ids;
      }
    }
  }

  function EmptyTable<R>(): (t: Table<R>)
    ensures t.Valid() && t.Rows() == [] && t.next == 1
  {
    Table([], map[], 1)
  }

  /** The position of a key that occurs in the list. */
  function IndexOf(ids: seq<int>, id: int): (i: nat)
    requires id in ids
    ensures i < |ids| && ids[i] == id
  {
    if ids[0] == id then 0 else 1 + IndexOf(ids[1..], id)
  }

  /** Taking the key at position `i` out of an ascending key list leaves an
      ascending list of the other keys. */
  lemma RemoveKey(ids: seq<int>, i: nat)
    requires i < |ids|
    requires forall a, b :: 0 <= a < b < |ids| ==> ids[a] < ids[b]
    ensures var r := ids[..i] + ids[i + 1..];
            && (forall a, b :: 0 <= a < b < |r| ==> r[a] < r[b])
            && (forall k :: k in r <==> k in ids && k != ids[i])
  {
    var r := ids[..i] + ids[i + 1..];
    assert forall a :: 0 <= a < |r| ==> r[a] == if a < i then ids[a] else ids[a + 1];
    forall k | k in ids && k != ids[i] ensures k in r {
      var j :| 0 <= j < |ids| && ids[j] == k;
      assert r[if j < i then j else j - 1] == k;
    }
  }

  /** Puts a key into an ascending key list at its place. */
  function InsertKey(ids: seq<int>, id: int): (r: seq<int>)
    ensures |r| == |ids| + 1
  {
    if ids == [] || id < ids[0] then [id] + ids else [ids[0]] + InsertKey(ids[1..], id)
  }

  lemma {:induction false} InsertKeySorted(ids: seq<int>, id: int)
    requires forall i, j :: 0 <= i < j < |ids| ==> ids[i] < ids[j]
    requires id !in ids
    ensures forall i, j :: 0 <= i < j < |InsertKey(ids, id)| ==> InsertKey(ids, id)[i] < InsertKey(ids, id)[j]
    ensures forall k :: k in InsertKey(ids, id) <==> k in ids || k == id
  {
    if ids != [] && id >= ids[0] {
      InsertKeySorted(ids[1..], id);
      var r := InsertKey(ids, id);
      var t := InsertKey(ids[1..], id);
      assert r == [ids[0]] + t;
      assert id > ids[0];
      forall j | 0 < j < |r| ensures ids[0] < r[j] {
        assert r[j] in t;
        if r[j] != id {
          assert r[j] in ids[1..];
        }
      }
      assert forall k :: k in ids <==> k == ids[0] || k in ids[1..];
    }
  }
}
