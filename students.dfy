/**
 * The student records of main.py and their in-memory store: the pydantic
 * models with their field constraints, the partial-update merge, and the
 * class StudentDB with its CRUD operations.
 */
module Students {
  import opened Wrappers

  /** The bounds of `conint(ge=16, le=120)`. */
  const MinAge := 16
  const MaxAge := 120

  predicate ValidAge(age: int) {
    MinAge <= age <= MaxAge
  }

  /**
   * A stand-in for pydantic's `EmailStr`: exactly one '@', neither first nor
   * last. The full address grammar is not modelled.
   */
  predicate ValidEmail(email: string) {
    && |email| >= 3
    && multiset(email)['@'] == 1
    && email[0] != '@'
    && email[|email| - 1] != '@'
  }

  /** `StudentBase`: the fields of a record to create. `name` is unconstrained. */
  datatype StudentBase = StudentBase(name: string, age: int, email: string) {
    predicate Valid() {
      ValidAge(age) && ValidEmail(email)
    }
  }

  /** `StudentUpdateBase`: each field is `None` (keep the stored value) or a new value. */
  datatype StudentUpdate = StudentUpdate(name: Option<string>, age: Option<int>, email: Option<string>) {
    predicate Valid() {
      && (age.Some? ==> ValidAge(age.value))
      && (email.Some? ==> ValidEmail(email.value))
    }
  }

  /** `Student`: a stored record, `StudentBase` plus its id. */
  datatype Student = Student(id: int, name: string, age: int, email: string) {
    predicate Valid() {
      ValidAge(age) && ValidEmail(email)
    }
  }

  /** The fields of a model, as named in a pydantic validation error. */
  datatype Field = Name | Age | Email

  /** A pydantic `ValidationError` lists every field that was rejected. */
  type ValidationError = set<Field>

  function Rejected(ageOk: bool, emailOk: bool): ValidationError {
    (if ageOk then {} else {Age}) + (if emailOk then {} else {Email})
  }

  /**
   * Constructing a `StudentBase`: it succeeds exactly when the age is in range
   * and the email is well formed, and otherwise names each rejected field.
   * The name is never rejected.
   */
  function NewStudentBase(name: string, age: int, email: string): (r: Result<StudentBase, ValidationError>)
    ensures r.Success? <==> ValidAge(age) && ValidEmail(email)
    ensures r.Success? ==> r.value.Valid() && r.value.name == name && r.value.age == age && r.value.email == email
    ensures r.Failure? ==> r.error != {} && Name !in r.error
    ensures r.Failure? ==> (Age in r.error <==> !ValidAge(age)) && (Email in r.error <==> !ValidEmail(email))
  {
    if ValidAge(age) && ValidEmail(email) then Success(StudentBase(name, age, email))
    else Failure(Rejected(ValidAge(age), ValidEmail(email)))
  }

  /**
   * Constructing a `StudentUpdateBase`: an absent field is never rejected, a
   * present one is checked exactly as `NewStudentBase` checks it.
   */
  function NewStudentUpdate(name: Option<string>, age: Option<int>, email: Option<string>): (r: Result<StudentUpdate, ValidationError>)
    ensures r.Success? <==> (age.Some? ==> ValidAge(age.value)) && (email.Some? ==> ValidEmail(email.value))
    ensures r.Success? ==> r.value.Valid() && r.value == StudentUpdate(name, age, email)
    ensures r.Failure? ==> r.error != {} && Name !in r.error
    ensures r.Failure? ==> (Age in r.error <==> age.Some? && !ValidAge(age.value))
    ensures r.Failure? ==> (Email in r.error <==> email.Some? && !ValidEmail(email.value))
  {
    var ageOk := age.None? || ValidAge(age.value);
    var emailOk := email.None? || ValidEmail(email.value);
    if ageOk && emailOk then Success(StudentUpdate(name, age, email))
    else Failure(Rejected(ageOk, emailOk))
  }

  /**
   * The record `update_student` stores: each provided field takes its new
   * value, each `None` keeps the stored one, and the id is kept. A valid record
   * merged with a valid update is valid, so `Student`'s re-validation passes.
   */
  function Merge(current: Student, u: StudentUpdate): (s: Student)
    ensures s.id == current.id
    ensures s.name == (if u.name.Some? then u.name.value else current.name)
    ensures s.age == (if u.age.Some? then u.age.value else current.age)
    ensures s.email == (if u.email.Some? then u.email.value else current.email)
    ensures current.Valid() && u.Valid() ==> s.Valid()
  {
    Student(
      current.id,
      if u.name.Some? then u.name.value else current.name,
      if u.age.Some? then u.age.value else current.age,
      if u.email.Some? then u.email.value else current.email)
  }

  /** The update that provides no field. */
  const NoChange := StudentUpdate(None, None, None)

  /** An update that provides no field leaves the record as it was. */
  lemma MergeNoChange(current: Student)
    ensures Merge(current, NoChange) == current
  {
  }

  /** Applying the same update twice is the same as applying it once. */
  lemma MergeIdempotent(current: Student, u: StudentUpdate)
    ensures Merge(Merge(current, u), u) == Merge(current, u)
  {
  }

  /** The update that applies `first` and then `second`: a field of `second` wins. */
  function Then(first: StudentUpdate, second: StudentUpdate): StudentUpdate {
    StudentUpdate(
      if second.name.Some? then second.name else first.name,
      if second.age.Some? then second.age else first.age,
      if second.email.Some? then second.email else first.email)
  }

  /** Two successive updates merge as their combination does. */
  lemma MergeThen(current: Student, first: StudentUpdate, second: StudentUpdate)
    ensures Merge(Merge(current, first), second) == Merge(current, Then(first, second))
  {
  }

  // ------------------------------------------------------- key order

  /** Strictly increasing: the order a dict gets when each new key exceeds every old one. */
  predicate Increasing(s: seq<int>) {
    forall i, j | 0 <= i < j < |s| :: s[i] < s[j]
  }

  /** `s` without `x`: the key order of a dict after `del d[x]`. */
  function Without(s: seq<int>, x: int): (r: seq<int>)
    ensures forall y :: y in r <==> y in s && y != x
    ensures Increasing(s) ==> Increasing(r)
  {
    if s == [] then []
    else if s[0] == x then Without(s[1..], x)
    else
      var rest := Without(s[1..], x);
      assert Increasing(s) ==> forall j | 0 <= j < |rest| :: s[0] < rest[j] by {
        if Increasing(s) {
          forall j | 0 <= j < |rest| ensures s[0] < rest[j] {
            assert rest[j] in s[1..];
          }
        }
      }
      [s[0]] + rest
  }

  /** The keys of an increasing sequence are all distinct: it has as many as it has elements. */
  lemma {:induction false} IncreasingCard(s: seq<int>)
    requires Increasing(s)
    ensures |set x | x in s| == |s|
  {
    if s != [] {
      IncreasingCard(s[1..]);
      assert (set x | x in s) == {s[0]} + (set x | x in s[1..]);
      assert s[0] !in (set x | x in s[1..]);
    }
  }

  /** An increasing sequence holding exactly the keys of a table is as long as the table is large. */
  lemma KeyOrderSize<V>(keys: seq<int>, table: map<int, V>)
    requires Increasing(keys)
    requires forall id :: id in keys <==> id in table
    ensures |keys| == |table|
  {
    IncreasingCard(keys);
    assert (set x | x in keys) == table.Keys;
  }

  // ------------------------------------------------------- the store

  /**
   * `StudentDB`: the records by id, the dict's key order, and the counter of
   * ids handed out. Ids come from the counter and are never reused.
   */
  class StudentDB {
    /** `self.students`: each record under its own id. */
    var students: map<int, Student>
    /** The iteration order of `self.students`; a Python dict keeps insertion order. */
    var order: seq<int>
    /** `self.counter`: the last id handed out. */
    var counter: int
    /** Every id ever handed out, those of deleted records included. */
    ghost var issued: set<int>

    ghost predicate Valid()
      reads this
    {
      && 0 <= counter
      && (forall id | id in issued :: 1 <= id <= counter)
      && students.Keys <= issued
      && (forall id | id in students :: students[id].id == id && students[id].Valid())
      && Increasing(order)
      && (forall id :: id in order <==> id in students)
    }

    /** `__init__`: an empty table and a counter at 0. */
    constructor ()
      ensures Valid()
      ensures students == map[] && order == [] && counter == 0 && issued == {}
    {
      students := map[];
      order := [];
      counter := 0;
      issued := {};
    }

    /**
     * `add_student`: the counter goes up by exactly one and the new record is
     * stored under that fresh id, which no record ever had before.
     */
    method AddStudent(data: StudentBase) returns (s: Student)
      requires Valid() && data.Valid()
      modifies this
      ensures Valid()
      ensures counter == old(counter) + 1
      ensures s == Student(counter, data.name, data.age, data.email)
      ensures s.id !in old(issued) && issued == old(issued) + {s.id}
      ensures forall id | id in old(students) :: id < s.id
      ensures students == old(students)[s.id := s]
      ensures order == old(order) + [s.id]
    {
      ghost var before := order;
      assert forall id | id in before :: id <= counter;
      counter := counter + 1;
      s := Student(counter, data.name, data.age, data.email);
      students := students[counter := s];
      order := order + [counter];
      issued := issued + {counter};
      forall i, j | 0 <= i < j < |order| ensures order[i] < order[j] {
        assert order[i] == before[i] && before[i] in before;
      }
      assert forall id :: id in order <==> id in students;
      assert forall id | id in students :: students[id].id == id && students[id].Valid();
    }

    /** `get_student`: the record stored under `id`, or `None`; nothing changes. */
    method GetStudent(id: int) returns (r: Option<Student>)
      requires Valid()
      ensures r.Some? <==> id in students
      ensures r.Some? ==> r.value == students[id] && r.value.id == id && r.value.Valid()
    {
      r := if id in students then Some(students[id]) else None;
    }

    /**
     * `get_all_students`: every stored record exactly once, in the dict's
     * insertion order, which is ascending id order.
     */
    method GetAllStudents() returns (all: seq<Student>)
      requires Valid()
      ensures |all| == |students| == |order|
      ensures forall i | 0 <= i < |all| :: all[i].id in students && all[i] == students[all[i].id]
      ensures forall id | id in students :: exists i | 0 <= i < |all| :: all[i].id == id
      ensures forall i, j | 0 <= i < j < |all| :: all[i].id < all[j].id
      ensures forall i | 0 <= i < |all| :: all[i].id == order[i]
    {
      var keys, table := order, students;
      assert forall i | 0 <= i < |keys| :: keys[i] in keys;
      all := seq(|keys|, i requires 0 <= i < |keys| && keys[i] in table => table[keys[i]]);
      assert forall i | 0 <= i < |all| :: all[i] == table[keys[i]] && all[i].id == keys[i];
      KeyOrderSize(keys, table);
      forall id | id in table ensures exists i | 0 <= i < |all| :: all[i].id == id {
        var i :| 0 <= i < |keys| && keys[i] == id;
        assert all[i].id == id;
      }
    }

    /**
     * `update_student`: a missing id gives `None` and changes nothing; otherwise
     * the record under `id`, and only it, is replaced by its merge with `data`.
     */
    method UpdateStudent(id: int, data: StudentUpdate) returns (r: Option<Student>)
      requires Valid() && data.Valid()
      modifies this
      ensures Valid()
      ensures counter == old(counter) && order == old(order) && issued == old(issued)
      ensures id !in old(students) ==> r == None && students == old(students)
      ensures id in old(students) ==> r == Some(Merge(old(students)[id], data))
      ensures id in old(students) ==> students == old(students)[id := r.value]
    {
      if id !in students {
        return None;
      }
      var current := students[id];
      var updated := Merge(current, data);
      students := students[id := updated];
      r := Some(updated);
    }

    /**
     * `delete_student`: reports whether `id` was present and removes that key
     * only; the counter is untouched, so the id is not handed out again.
     */
    method DeleteStudent(id: int) returns (removed: bool)
      requires Valid()
      modifies this
      ensures Valid()
      ensures removed <==> id in old(students)
      ensures students == old(students) - {id}
      ensures order == Without(old(order), id)
      ensures counter == old(counter) && issued == old(issued)
    {
      if id !in students {
        assert Without(order, id) == order by {
          WithoutAbsent(order, id);
        }
        return false;
      }
      students := students - {id};
      order := Without(order, id);
      removed := true;
    }
  }

  /** Removing a key the order does not hold leaves it as it is. */
  lemma {:induction false} WithoutAbsent(s: seq<int>, x: int)
    requires x !in s
    ensures Without(s, x) == s
  {
    if s != [] {
      WithoutAbsent(s[1..], x);
    }
  }

  // ------------------------------------------------------- scenarios

  /** A record read back right after it was added is the record `add_student` returned. */
  method AddThenGet(db: StudentDB, data: StudentBase) returns (added: Student, read: Option<Student>)
    requires db.Valid() && data.Valid()
    modifies db
    ensures db.Valid()
    ensures read == Some(added)
    ensures added.name == data.name && added.age == data.age && added.email == data.email
  {
    added := db.AddStudent(data);
    read := db.GetStudent(added.id);
  }

  /** After a delete the id reads as missing, and deleting it again reports `false`. */
  method DeleteTwice(db: StudentDB, id: int) returns (first: bool, read: Option<Student>, second: bool)
    requires db.Valid()
    modifies db
    ensures db.Valid()
    ensures first <==> id in old(db.students)
    ensures read == None && !second
  {
    first := db.DeleteStudent(id);
    read := db.GetStudent(id);
    second := db.DeleteStudent(id);
  }

  /** An id freed by a delete is not handed out by the next add. */
  method DeleteThenAdd(db: StudentDB, data: StudentBase) returns (gone: Student, next: Student)
    requires db.Valid() && data.Valid()
    modifies db
    ensures db.Valid()
    ensures gone.id !in db.students && next.id in db.students
    ensures gone.id < next.id
  {
    gone := db.AddStudent(data);
    var _ := db.DeleteStudent(gone.id);
    next := db.AddStudent(data);
  }
}
