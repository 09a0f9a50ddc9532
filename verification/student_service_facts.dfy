/** Properties of the store that the service's unit tests pin down, stated
    for every store that satisfies the invariant and not only for the
    scenarios the tests build. */
module StudentServiceFacts {
  import opened Options
  import opened Models
  import opened StudentService

  /** Applies `Add` to each record of `batch` in order. */
  function AddAll(s: Store, batch: seq<Student>): Store
    decreases |batch|
  {
    if |batch| == 0 then s else AddAll(Add(s, batch[0]).store, batch[1..])
  }

  /** In a list with unique ids, the record at position `i` is the one a
      lookup of its id finds. */
  lemma IndexOfUnique(students: seq<Student>, i: nat)
    requires UniqueIds(students)
    requires i < |students|
    ensures IndexOf(students, students[i].id) == Some(i)
  {
  }

  /** In a store with unique ids, a lookup of a stored record's id finds
      exactly that record. */
  lemma LookupFindsStored(s: Store, x: Student)
    requires UniqueIds(GetAll(s))
    requires x in GetAll(s)
    ensures GetById(s, x.id) == Some(x)
  {
  }

  /** Cutting position `i` out of a list keeps every other record and adds
      none. */
  lemma RemoveAtMembers(students: seq<Student>, i: nat)
    requires i < |students|
    ensures forall x :: x in students[..i] + students[i + 1..] ==> x in students
    ensures forall k :: 0 <= k < |students| && k != i ==>
      students[k] in students[..i] + students[i + 1..]
  {
  }

  /** The first record added to the freshly reset store gets id 1 and is the
      only record afterwards. */
  lemma AddToEmptyAssignsIdOne(student: Student)
    ensures Add(Empty(), student).student.id == 1
    ensures GetAll(Add(Empty(), student).store)
         == [Student(1, student.name, student.school)]
  {
  }

  /** Every `Add` appends exactly one record: a batch of adds grows the
      store by the batch's length and keeps the invariant. */
  lemma {:induction false} AddAllCount(s: Store, batch: seq<Student>)
    requires Valid(s)
    ensures Valid(AddAll(s, batch))
    ensures |GetAll(AddAll(s, batch))| == |GetAll(s)| + |batch|
    ensures GetAll(s) <= GetAll(AddAll(s, batch))
    decreases |batch|
  {
    if |batch| > 0 {
      var s' := Add(s, batch[0]).store;
      AddAllCount(s', batch[1..]);
    }
  }

  /** Two adds into the reset store leave two records, with different ids. */
  lemma TwoAddsFromEmpty(a: Student, b: Student)
    ensures |GetAll(AddAll(Empty(), [a, b]))| == 2
    ensures GetAll(AddAll(Empty(), [a, b]))[0].id
         != GetAll(AddAll(Empty(), [a, b]))[1].id
  {
    AddAllCount(Empty(), [a, b]);
  }

  /** Looking up the id `Add` assigned finds exactly the stored record, with
      the name and school that were added; every other lookup is as before. */
  lemma AddThenGetById(s: Store, student: Student)
    requires Valid(s)
    ensures var r := Add(s, student);
      GetById(r.store, r.student.id) == Some(r.student)
      && r.student.name == student.name
      && r.student.school == student.school
    ensures var r := Add(s, student);
      forall other :: other != r.student.id ==> GetById(r.store, other) == GetById(s, other)
  {
    var r := Add(s, student);
    IndexOfUnique(GetAll(r.store), |GetAll(s)|);
    forall other | other != r.student.id
      ensures GetById(r.store, other) == GetById(s, other)
    {
      if HasId(GetAll(s), other) {
        var i :| 0 <= i < |GetAll(s)| && GetAll(s)[i].id == other;
        IndexOfUnique(GetAll(s), i);
        IndexOfUnique(GetAll(r.store), i);
      }
    }
  }

  /** Updating a stored id succeeds, and a lookup of that id then shows the
      new name (and school, with the id unchanged); other lookups are as
      before. */
  lemma UpdateThenGetById(s: Store, id: int, updated: Student)
    requires Valid(s)
    requires HasId(GetAll(s), id)
    ensures Update(s, id, updated).success
    ensures GetById(Update(s, id, updated).store, id)
         == Some(Student(id, updated.name, updated.school))
    ensures forall other :: other != id ==>
      GetById(Update(s, id, updated).store, other) == GetById(s, other)
  {
    var s' := Update(s, id, updated).store;
    var i := IndexOf(GetAll(s), id).value;
    IndexOfUnique(GetAll(s'), i);
    forall other | other != id
      ensures GetById(s', other) == GetById(s, other)
    {
      if HasId(GetAll(s), other) {
        var j :| 0 <= j < |GetAll(s)| && GetAll(s)[j].id == other;
        IndexOfUnique(GetAll(s), j);
        IndexOfUnique(GetAll(s'), j);
      }
    }
  }

  /** Deleting a stored id succeeds, and a lookup of that id then finds
      nothing; other lookups are as before. */
  lemma DeleteThenGetById(s: Store, id: int)
    requires Valid(s)
    requires HasId(GetAll(s), id)
    ensures Delete(s, id).success
    ensures GetById(Delete(s, id).store, id) == None
    ensures forall other :: other != id ==>
      GetById(Delete(s, id).store, other) == GetById(s, other)
  {
    var s' := Delete(s, id).store;
    var i := IndexOf(GetAll(s), id).value;
    RemoveAtMembers(GetAll(s), i);
    assert GetAll(s') == GetAll(s)[..i] + GetAll(s)[i + 1..];
    assert !HasId(GetAll(s'), id) by {
      if HasId(GetAll(s'), id) {
        var y := GetById(s', id).value;
        LookupFindsStored(s, y);
        IndexOfUnique(GetAll(s), i);
      }
    }
    forall other | other != id
      ensures GetById(s', other) == GetById(s, other)
    {
      if HasId(GetAll(s), other) {
        var x := GetById(s, other).value;
        var k :| 0 <= k < |GetAll(s)| && GetAll(s)[k] == x;
        LookupFindsStored(s', x);
      } else if HasId(GetAll(s'), other) {
        var y := GetById(s', other).value;
        LookupFindsStored(s, y);
      }
    }
  }

  /** A second delete of the same id, or an update of a deleted id, finds
      nothing and reports failure. */
  lemma DeleteTwice(s: Store, id: int, updated: Student)
    requires Valid(s)
    requires HasId(GetAll(s), id)
    ensures Delete(s, id).success
    ensures !Delete(Delete(s, id).store, id).success
    ensures !Update(Delete(s, id).store, id, updated).success
  {
  }

  /** Updating or deleting an id the reset store does not hold (999 in the
      tests) reports failure and changes nothing. */
  lemma MissingIdOnEmpty(id: int, updated: Student)
    ensures Update(Empty(), id, updated) == Changed(Empty(), false)
    ensures Delete(Empty(), id) == Changed(Empty(), false)
  {
  }

  /** `GetAll` and `GetById` agree: every listed record is what a lookup of
      its id returns. */
  lemma GetAllAgreesWithGetById(s: Store)
    requires Valid(s)
    ensures forall i :: 0 <= i < |GetAll(s)| ==> GetById(s, GetAll(s)[i].id) == Some(GetAll(s)[i])
  {
  }
}
