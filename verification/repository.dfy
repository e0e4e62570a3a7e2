/** A repository table: the `findAll`, `findById`, `save`, `existsById` and
    `deleteById` primitives over rows keyed by a generated integer id. */
module Repository {
  import opened Base

  ghost predicate StrictlyIncreasing(s: seq<int>)
  {
    forall i, j :: 0 <= i < j < |s| ==> s[i] < s[j]
  }

  /** A non-empty set has an element to pick. */
  lemma NonEmptyHasElement(s: set<int>)
    requires s != {}
    ensures exists x :: x in s
  {
    if forall x :: x !in s {
      assert false;
    }
  }

  lemma {:induction false} MinExists(s: set<int>)
    requires s != {}
    ensures exists m :: m in s && forall y :: y in s ==> m <= y
    decreases |s|
  {
    NonEmptyHasElement(s);
    var x :| x in s;
    if s != {x} {
      MinExists(s - {x});
      var m :| m in s - {x} && forall y :: y in s - {x} ==> m <= y;
      var lo := if x < m then x else m;
      forall y | y in s
        ensures lo <= y
      {
        if y != x {
          assert y in s - {x};
        }
      }
      assert lo in s;
    } else {
      assert forall y :: y in s ==> x <= y;
    }
  }

  function Min(s: set<int>): (m: int)
    requires s != {}
    ensures m in s && forall y :: y in s ==> m <= y
  {
    MinExists(s);
    var m :| m in s && forall y :: y in s ==> m <= y;
    m
  }

  /** The ids of a table in ascending order: the order `findAll` lists rows in. */
  function SortedKeys(s: set<int>): (r: seq<int>)
    ensures StrictlyIncreasing(r)
    ensures forall k :: k in r <==> k in s
    ensures |r| == |s|
    decreases |s|
  {
    if s == {} then []
    else
      var m := Min(s);
      var rest := SortedKeys(s - {m});
      [m] + rest
  }

  /** Rows keyed by id, and the next id the identity column will hand out. */
  datatype Table<T(==,!new)> = Table(rows: map<int, T>, next: int)
  {
    /** The identity counter is ahead of every id in use. */
    ghost predicate Valid()
    {
      forall k :: k in rows ==> k < next
    }

    /** `existsById` agrees with `findById`. */
    predicate ExistsById(id: int)
      ensures ExistsById(id) <==> FindById(id).Some?
    {
      id in rows
    }

    function FindById(id: int): (r: Option<T>)
      ensures r.Some? <==> id in rows
      ensures r.Some? ==> r.value == rows[id]
    {
      if id in rows then Some(rows[id]) else None
    }

    /** The ids in use, in the order `findAll` returns their rows. */
    function Ids(): (r: seq<int>)
      ensures StrictlyIncreasing(r)
      ensures forall k :: k in r <==> k in rows
    {
      SortedKeys(rows.Keys)
    }

    function FindAll(): (r: seq<T>)
      ensures |r| == |rows|
      ensures forall i :: 0 <= i < |r| ==> r[i] == rows[Ids()[i]]
      ensures forall v :: v in r <==> v in rows.Values
    {
      var ids := Ids();
      var r := seq(|ids|, i requires 0 <= i < |ids| => rows[ids[i]]);
      ListsEveryValue(ids, r);
      r
    }

    /** A listing of the rows along every id in use holds every stored value. */
    lemma ListsEveryValue(ids: seq<int>, r: seq<T>)
      requires forall k :: k in ids <==> k in rows
      requires |r| == |ids| && forall i :: 0 <= i < |ids| ==> ids[i] in rows && r[i] == rows[ids[i]]
      ensures forall v :: v in r <==> v in rows.Values
    {
      forall v | v in rows.Values
        ensures v in r
      {
        if forall k :: k in rows ==> rows[k] != v {
          assert false;
        }
        var k :| k in rows && rows[k] == v;
        var i :| 0 <= i < |ids| && ids[i] == k;
        assert r[i] == v;
      }
    }

    /** Insert or overwrite the row at `id`; the counter moves past `id`. */
    function Save(id: int, v: T): (t: Table<T>)
      ensures t.rows == rows[id := v]
      ensures Valid() ==> t.Valid()
      ensures id < next ==> t.next == next
    {
      Table(rows[id := v], if id < next then next else id + 1)
    }

    /** Remove the row at `id`, if any; ids are never handed out twice. */
    function DeleteById(id: int): (t: Table<T>)
      ensures id !in t.rows
      ensures forall k :: k in t.rows <==> k in rows && k != id
      ensures forall k :: k in t.rows ==> t.rows[k] == rows[k]
      ensures Valid() ==> t.Valid()
    {
      Table(rows - {id}, next)
    }
  }
}
