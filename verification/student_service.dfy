/** The in-memory student store behind StudentService: an ordered list of
    records plus the next id to hand out. Every operation is a pure function
    from the current store to the new store and the operation's answer. */
module StudentService {
  import opened Options
  import opened Models

  /** The store's state: the records in insertion order, and the id the next
      `Add` will assign. */
  datatype Store = Store(students: seq<Student>, nextId: int)

  /** What `Add` gives back: the new store and the stored record. */
  datatype Added = Added(store: Store, student: Student)

  /** What `Update` and `Delete` give back: the new store and the success flag. */
  datatype Changed = Changed(store: Store, success: bool)

  /** Some stored record carries `id`. */
  ghost predicate HasId(students: seq<Student>, id: int)
  {
    exists i :: 0 <= i < |students| && students[i].id == id
  }

  /** Ids are pairwise distinct. */
  ghost predicate UniqueIds(students: seq<Student>)
  {
    forall i, j :: 0 <= i < j < |students| ==> students[i].id != students[j].id
  }

  /** The store invariant: every stored id was handed out already (it lies in
      [1, nextId)), and no two records share an id. */
  ghost predicate Valid(s: Store)
  {
    && 1 <= s.nextId
    && (forall i :: 0 <= i < |s.students| ==> 1 <= s.students[i].id < s.nextId)
    && UniqueIds(s.students)
  }

  /** The store as every test starts from it: no records, and the first id
      to hand out is 1. */
  function Empty(): (s: Store)
    ensures GetAll(s) == []
    ensures Valid(s)
    ensures forall id :: GetById(s, id) == None
  {
    Store([], 1)
  }

  /** All stored records, in insertion order. Every listed record's id is
      one a lookup finds. */
  function GetAll(s: Store): (r: seq<Student>)
    ensures forall i :: 0 <= i < |r| ==> GetById(s, r[i].id).Some?
  {
    s.students
  }

  /** Linear scan: the position of the first record carrying `id`, if any. */
  function IndexOf(students: seq<Student>, id: int): (r: Option<nat>)
    ensures r.None? <==> !HasId(students, id)
    ensures r.Some? ==> r.value < |students| && students[r.value].id == id
    ensures r.Some? ==> forall j :: 0 <= j < r.value ==> students[j].id != id
  {
    if |students| == 0 then None
    else if students[0].id == id then Some(0)
    else
      match IndexOf(students[1..], id)
      case None => None
      case Some(k) => Some(k + 1)
  }

  /** The record carrying `id`, or `None` (the C# `null`) when there is none. */
  function GetById(s: Store, id: int): (r: Option<Student>)
    ensures r.Some? <==> HasId(s.students, id)
    ensures r.Some? ==> r.value.id == id && r.value in s.students
  {
    match IndexOf(s.students, id)
    case None => None
    case Some(i) => Some(s.students[i])
  }

  /** Stores `student` (as a value) under a fresh id and appends it; the id
      the caller put in `student` is ignored. */
  function Add(s: Store, student: Student): (r: Added)
    ensures GetAll(r.store) == GetAll(s) + [r.student]
    ensures r.student.name == student.name && r.student.school == student.school
    ensures Valid(s) ==> Valid(r.store) && !HasId(GetAll(s), r.student.id)
  {
    var stored := student.(id := s.nextId);
    Added(Store(s.students + [stored], s.nextId + 1), stored)
  }

  /** Overwrites the name and school of the record carrying `id`, keeping its
      id and position; reports whether such a record existed. */
  function Update(s: Store, id: int, updated: Student): (r: Changed)
    ensures r.success <==> HasId(GetAll(s), id)
    ensures !r.success ==> r.store == s
    ensures |GetAll(r.store)| == |GetAll(s)|
    ensures r.success ==>
      var i := IndexOf(GetAll(s), id).value;
      GetAll(r.store) == GetAll(s)[i := Student(id, updated.name, updated.school)]
    ensures Valid(s) ==> Valid(r.store)
  {
    match IndexOf(s.students, id)
    case None => Changed(s, false)
    case Some(i) =>
      var current := s.students[i];
      var students' := s.students[i := current.(name := updated.name, school := updated.school)];
      Changed(s.(students := students'), true)
  }

  /** Removes the record carrying `id`; reports whether such a record existed. */
  function Delete(s: Store, id: int): (r: Changed)
    ensures r.success <==> HasId(GetAll(s), id)
    ensures !r.success ==> r.store == s
    ensures r.success ==> |GetAll(r.store)| == |GetAll(s)| - 1
    ensures r.success ==>
      var i := IndexOf(GetAll(s), id).value;
      GetAll(r.store) == GetAll(s)[..i] + GetAll(s)[i + 1..]
    ensures Valid(s) ==> Valid(r.store)
  {
    match IndexOf(s.students, id)
    case None => Changed(s, false)
    case Some(i) =>
      RemoveAtKeepsValid(s, i);
      Changed(s.(students := s.students[..i] + s.students[i + 1..]), true)
  }

  /** Cutting one record out of a valid store leaves a valid store: every
      remaining record sits at its old position or one before it. */
  lemma RemoveAtKeepsValid(s: Store, i: nat)
    requires i < |s.students|
    ensures Valid(s) ==> Valid(s.(students := s.students[..i] + s.students[i + 1..]))
  {
    var rest := s.students[..i] + s.students[i + 1..];
    assert forall k :: 0 <= k < |rest| ==> rest[k] == s.students[if k < i then k else k + 1];
  }
}
