/**
 * The keyed store the service delegates persistence to, reduced to the map
 * contract of `findById`, `findAll`, `save` and `deleteById`.
 */
module Repository {
  import opened Wrappers
  import opened Students

  /** Every non-empty set of ids has a least element. */
  lemma {:induction false} MinExists(keys: set<int>)
    requires keys != {}
    ensures exists m :: m in keys && forall k :: k in keys ==> m <= k
    decreases |keys|
  {
    if forall x :: x !in keys {
      assert false;
    }
    var x :| x in keys;
    var rest := keys - {x};
    if rest == {} {
      forall k | k in keys ensures x <= k {
        assert k !in rest;
      }
    } else {
      MinExists(rest);
      var m :| m in rest && forall k :: k in rest ==> m <= k;
      var least := if x < m then x else m;
      forall k | k in keys ensures least <= k {
        if k != x { assert k in rest; }
      }
      assert least in keys;
    }
  }

  function MinOf(keys: set<int>): (m: int)
    requires keys != {}
    ensures m in keys && forall k :: k in keys ==> m <= k
  {
    MinExists(keys);
    var m :| m in keys && forall k :: k in keys ==> m <= k;
    m
  }

  /** A map filed by id, each record under its own id. */
  ghost predicate FiledById(m: map<int, Student>) {
    forall k :: k in m ==> m[k].id == Some(k)
  }

  /**
   * `all` lists exactly the records of `m`: one entry per stored id, each the
   * record filed under its id, and no stored record missing.
   */
  ghost predicate ListsExactly(m: map<int, Student>, all: seq<Student>) {
    && |all| == |m|
    && (forall i :: 0 <= i < |all| ==> all[i].id.Some? && all[i].id.value in m && m[all[i].id.value] == all[i])
    && (forall k :: k in m ==> m[k] in all)
  }

  /** The ids along `all` strictly increase. */
  ghost predicate AscendingIds(all: seq<Student>) {
    forall i, j :: 0 <= i < j < |all| ==> all[i].id.Some? && all[j].id.Some? && all[i].id.value < all[j].id.value
  }

  /** The records of a map filed by id: each exactly once, in ascending id order. */
  function Listing(m: map<int, Student>): (all: seq<Student>)
    requires FiledById(m)
    ensures ListsExactly(m, all) && AscendingIds(all)
    decreases |m|
  {
    if m == map[] then []
    else
      var k := MinOf(m.Keys);
      var rest := m - {k};
      assert m.Keys == rest.Keys + {k};
      var tail := Listing(rest);
      ListingCons(m, k, rest, tail, [m[k]] + tail);
      [m[k]] + tail
  }

  /** Putting the least record in front of the listing of the others lists them all. */
  lemma ListingCons(m: map<int, Student>, k: int, rest: map<int, Student>, tail: seq<Student>, all: seq<Student>)
    requires FiledById(m) && k in m && rest == m - {k}
    requires forall j :: j in m ==> k <= j
    requires ListsExactly(rest, tail) && AscendingIds(tail)
    requires all == [m[k]] + tail
    ensures ListsExactly(m, all) && AscendingIds(all)
  {
    assert |m| == |rest| + 1 by {
      assert m.Keys == rest.Keys + {k};
    }
    ConsEntries(m, k, rest, tail, all);
    ConsCovers(m, k, rest, tail, all);
    ConsAscending(m, k, rest, tail, all);
  }

  /** Every entry of the longer listing is the record filed under its id. */
  lemma ConsEntries(m: map<int, Student>, k: int, rest: map<int, Student>, tail: seq<Student>, all: seq<Student>)
    requires FiledById(m) && k in m && rest == m - {k}
    requires forall i :: 0 <= i < |tail| ==> tail[i].id.Some? && tail[i].id.value in rest && rest[tail[i].id.value] == tail[i]
    requires all == [m[k]] + tail
    ensures forall i :: 0 <= i < |all| ==> all[i].id.Some? && all[i].id.value in m && m[all[i].id.value] == all[i]
  {
    forall i | 0 <= i < |all|
      ensures all[i].id.Some? && all[i].id.value in m && m[all[i].id.value] == all[i]
    {
      if i > 0 {
        assert all[i] == tail[i - 1];
      }
    }
  }

  /** No stored record is missing from the longer listing. */
  lemma ConsCovers(m: map<int, Student>, k: int, rest: map<int, Student>, tail: seq<Student>, all: seq<Student>)
    requires k in m && rest == m - {k}
    requires forall j :: j in rest ==> rest[j] in tail
    requires all == [m[k]] + tail
    ensures forall j :: j in m ==> m[j] in all
  {
    forall j | j in m ensures m[j] in all {
      if j != k {
        assert j in rest && rest[j] == m[j];
      }
    }
  }

  /** Ids still increase once the least one is put in front. */
  lemma ConsAscending(m: map<int, Student>, k: int, rest: map<int, Student>, tail: seq<Student>, all: seq<Student>)
    requires FiledById(m) && k in m && rest == m - {k}
    requires forall j :: j in m ==> k <= j
    requires forall i :: 0 <= i < |tail| ==> tail[i].id.Some? && tail[i].id.value in rest
    requires AscendingIds(tail)
    requires all == [m[k]] + tail
    ensures AscendingIds(all)
  {
    forall i, j | 0 <= i < j < |all|
      ensures all[i].id.Some? && all[j].id.Some? && all[i].id.value < all[j].id.value
    {
      assert all[j] == tail[j - 1];
      if i > 0 {
        assert all[i] == tail[i - 1];
      }
    }
  }

  class StudentRepository {
    /** The stored records, by id. */
    var records: map<int, Student>
    /** The next id the store hands out; how a real store generates ids is not modelled. */
    var nextId: int
    /** How many times `Save` has run, so that callers can state how often they save. */
    ghost var saveCalls: nat

    /** Every record is filed under its own id, and no id at or above `nextId` is used. */
    ghost predicate Valid()
      reads this
    {
      FiledById(records) && forall k :: k in records ==> k < nextId
    }

    constructor ()
      ensures Valid() && records == map[] && saveCalls == 0
    {
      records := map[];
      nextId := 1;
      saveCalls := 0;
    }

    /** `findById`: the record filed under `id`, if any. */
    function FindById(id: int): (r: Option<Student>)
      reads this
      requires Valid()
      ensures r.Some? <==> id in records
      ensures r.Some? ==> r.value == records[id] && r.value.id == Some(id)
    {
      if id in records then Some(records[id]) else None
    }

    /** `findAll`: every stored record exactly once (ascending id order stands in for the store's own). */
    function FindAll(): (all: seq<Student>)
      reads this
      requires Valid()
      ensures ListsExactly(records, all)
    {
      Listing(records)
    }

    /**
     * `save`, insert-or-update by id: a record whose id is already stored
     * replaces that entry; any other record (no id, or an unknown one) is
     * stored under a fresh id. Returns the record as stored.
     */
    method Save(s: Student) returns (saved: Student)
      requires Valid()
      modifies this
      ensures Valid()
      ensures saved.id.Some? && saved == s.(id := saved.id)
      ensures s.id.Some? && s.id.value in old(records) ==> saved.id == s.id
      ensures !(s.id.Some? && s.id.value in old(records)) ==> saved.id.value !in old(records)
      ensures records == old(records)[saved.id.value := saved]
      ensures saveCalls == old(saveCalls) + 1
    {
      if s.id.Some? && s.id.value in records {
        saved := s;
      } else {
        saved := s.(id := Some(nextId));
        nextId := nextId + 1;
      }
      records := records[saved.id.value := saved];
      saveCalls := saveCalls + 1;
    }

    /** `deleteById`: removes the entry for `id`; a missing id is ignored, as Spring Data JPA 3.x does. */
    method DeleteById(id: int)
      requires Valid()
      modifies this
      ensures Valid()
      ensures records == old(records) - {id}
      ensures saveCalls == old(saveCalls)
    {
      records := records - {id};
    }
  }
}
