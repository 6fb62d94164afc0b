/** The list transformations the roster handlers apply to the stored records: the merge that
    `map` performs when a draft is submitted for editing, the lookup that `find` performs, and
    the removal that `filter` performs. None of them assumes that ids are unique: each acts on
    every record whose id matches. */
module Roster {
  import opened Records

  /** No two records share an id. The source never enforces this; see the lemmas that say
      which operations keep it. */
  predicate UniqueIds(ss: seq<Student>)
  {
    forall i, j :: 0 <= i < j < |ss| ==> ss[i].id != ss[j].id
  }

  /** Some record carries `id`. */
  predicate HasId(ss: seq<Student>, id: string)
  {
    exists k :: 0 <= k < |ss| && ss[k].id == id
  }

  /** `a` can be obtained from `b` by deleting elements, the rest keeping their order. */
  predicate IsSubsequence<T(==)>(a: seq<T>, b: seq<T>)
    decreases |b|
  {
    if a == [] then true
    else if b == [] then false
    else (a[0] == b[0] && IsSubsequence(a[1..], b[1..])) || IsSubsequence(a, b[1..])
  }

  /** `{ ...student, ...formData }` for a record whose id equals the draft's: the draft's
      name, age and email replace the record's, and the id it writes back is the same. */
  function Merge(st: Student, d: Draft): (r: Student)
    ensures r.id == st.id
  {
    st.(name := d.name, age := d.age, email := d.email)
  }

  /** `students.map(s => s.id === id ? { ...s, ...draft } : s)`. */
  function UpdateMatching(ss: seq<Student>, id: string, d: Draft): (r: seq<Student>)
    ensures |r| == |ss|
  {
    if ss == [] then []
    else [if ss[0].id == id then Merge(ss[0], d) else ss[0]] + UpdateMatching(ss[1..], id, d)
  }

  /** `students.find(s => s.id === id)`: the first record with that id. */
  function FindById(ss: seq<Student>, id: string): (r: Option<Student>)
    ensures r.Some? ==> r.value in ss && r.value.id == id
  {
    if ss == [] then None
    else if ss[0].id == id then Some(ss[0])
    else FindById(ss[1..], id)
  }

  /** `students.filter(s => s.id !== id)`. */
  function RemoveById(ss: seq<Student>, id: string): (r: seq<Student>)
    ensures |r| <= |ss|
    ensures forall x :: x in r ==> x in ss && x.id != id
  {
    if ss == [] then []
    else (if ss[0].id == id then [] else [ss[0]]) + RemoveById(ss[1..], id)
  }

  // ---------------------------------------------------------------------------------------
  // The merge

  /** The merge keeps the length and the order of the list and every id; a record with a
      matching id takes the draft's name, age and email, and every other record is untouched. */
  lemma {:induction false} UpdateMatchingSpec(ss: seq<Student>, id: string, d: Draft)
    ensures |UpdateMatching(ss, id, d)| == |ss|
    ensures forall k :: 0 <= k < |ss| ==>
      UpdateMatching(ss, id, d)[k] == if ss[k].id == id then Merge(ss[k], d) else ss[k]
    ensures forall k :: 0 <= k < |ss| ==> UpdateMatching(ss, id, d)[k].id == ss[k].id
  {
    if ss != [] {
      UpdateMatchingSpec(ss[1..], id, d);
      var r := UpdateMatching(ss, id, d);
      assert forall k :: 1 <= k < |ss| ==> r[k] == UpdateMatching(ss[1..], id, d)[k - 1];
    }
  }

  /** A merge keyed by an id that no record carries leaves the list as it was. */
  lemma UpdateMatchingAbsent(ss: seq<Student>, id: string, d: Draft)
    requires !HasId(ss, id)
    ensures UpdateMatching(ss, id, d) == ss
  {
  }

  /** Merging the same draft twice is the same as merging it once. */
  lemma UpdateMatchingIdempotent(ss: seq<Student>, id: string, d: Draft)
    ensures UpdateMatching(UpdateMatching(ss, id, d), id, d) == UpdateMatching(ss, id, d)
  {
  }

  // ---------------------------------------------------------------------------------------
  // The lookup

  /** When records carry `id`, the lookup returns the one with the smallest index. */
  lemma {:induction false} FindByIdFirst(ss: seq<Student>, id: string, k: nat)
    requires k < |ss| && ss[k].id == id
    requires forall j :: 0 <= j < k ==> ss[j].id != id
    ensures FindById(ss, id) == Some(ss[k])
  {
    if k > 0 {
      FindByIdFirst(ss[1..], id, k - 1);
    }
  }

  /** The lookup finds nothing exactly when no record carries `id`. */
  lemma {:induction false} FindByIdNone(ss: seq<Student>, id: string)
    ensures FindById(ss, id) == None <==> !HasId(ss, id)
  {
    if ss != [] && ss[0].id != id {
      FindByIdNone(ss[1..], id);
      if HasId(ss, id) {
        var k :| 0 <= k < |ss| && ss[k].id == id;
        assert ss[1..][k - 1].id == id;
      }
    }
  }

  // ---------------------------------------------------------------------------------------
  // The removal

  /** The removal keeps every record whose id differs, as many times as it occurs, and no
      record with the id. */
  lemma {:induction false} RemoveByIdCounts(ss: seq<Student>, id: string)
    ensures forall x :: multiset(RemoveById(ss, id))[x] == if x.id == id then 0 else multiset(ss)[x]
  {
    if ss != [] {
      RemoveByIdCounts(ss[1..], id);
      var head := if ss[0].id == id then [] else [ss[0]];
      assert RemoveById(ss, id) == head + RemoveById(ss[1..], id);
      assert multiset(RemoveById(ss, id)) == multiset(head) + multiset(RemoveById(ss[1..], id));
      assert ss == [ss[0]] + ss[1..];
      assert multiset(ss) == multiset{ss[0]} + multiset(ss[1..]);
    }
  }

  /** The removal strictly shortens the list exactly when some record carries the id. */
  lemma {:induction false} RemoveByIdShrinks(ss: seq<Student>, id: string)
    ensures HasId(ss, id) <==> |RemoveById(ss, id)| < |ss|
  {
    if ss != [] {
      RemoveByIdShrinks(ss[1..], id);
      if ss[0].id != id {
        assert |RemoveById(ss, id)| == 1 + |RemoveById(ss[1..], id)|;
        if HasId(ss, id) {
          var k :| 0 <= k < |ss| && ss[k].id == id;
          assert ss[1..][k - 1].id == id;
        }
        if HasId(ss[1..], id) {
          var k :| 0 <= k < |ss[1..]| && ss[1..][k].id == id;
          assert ss[k + 1].id == id;
        }
      }
    }
  }

  /** The survivors of the removal keep their relative order. */
  lemma {:induction false} RemoveByIdKeepsOrder(ss: seq<Student>, id: string)
    ensures IsSubsequence(RemoveById(ss, id), ss)
  {
    if ss != [] {
      RemoveByIdKeepsOrder(ss[1..], id);
      var r := RemoveById(ss, id);
      if ss[0].id != id {
        assert r[0] == ss[0] && r[1..] == RemoveById(ss[1..], id);
      } else {
        assert r == RemoveById(ss[1..], id);
      }
    }
  }

  /** Removing an id that no record carries leaves the list as it was. */
  lemma {:induction false} RemoveByIdAbsent(ss: seq<Student>, id: string)
    requires !HasId(ss, id)
    ensures RemoveById(ss, id) == ss
  {
    if ss != [] {
      RemoveByIdAbsent(ss[1..], id);
      assert ss == [ss[0]] + ss[1..];
    }
  }

  /** Removing the same id twice is the same as removing it once. */
  lemma RemoveByIdIdempotent(ss: seq<Student>, id: string)
    ensures RemoveById(RemoveById(ss, id), id) == RemoveById(ss, id)
  {
    RemoveByIdAbsent(RemoveById(ss, id), id);
  }

  /** The removal keeps ids unique. */
  lemma {:induction false} RemoveByIdKeepsUniqueIds(ss: seq<Student>, id: string)
    requires UniqueIds(ss)
    ensures UniqueIds(RemoveById(ss, id))
  {
    if ss != [] {
      var tail := RemoveById(ss[1..], id);
      RemoveByIdKeepsUniqueIds(ss[1..], id);
      if ss[0].id != id {
        var r := RemoveById(ss, id);
        assert r == [ss[0]] + tail;
        forall j | 0 <= j < |tail|
          ensures tail[j].id != ss[0].id
        {
          assert tail[j] in ss[1..];
        }
      }
    }
  }

  /** The merge keeps ids unique, since it changes no id. */
  lemma UpdateMatchingKeepsUniqueIds(ss: seq<Student>, id: string, d: Draft)
    requires UniqueIds(ss)
    ensures UniqueIds(UpdateMatching(ss, id, d))
  {
    UpdateMatchingSpec(ss, id, d);
  }
}
