/**
 * The PUT route of main.py (`update_student`, lines 99-104) as far as it
 * decides which JSON bodies reach the store: the body is parsed into the
 * route's declared model before `StudentDB.update_student` is called.
 */
module Api {
  import opened Wrappers
  import opened Students
  import opened JsonValues
  import Frontend
  import PyText

  /** A body entry as a text field: absent, or present with a string value. */
  function TextField(body: map<string, Json>, key: string): (f: Option<string>)
    ensures f.Some? <==> key in body && body[key].JString?
    ensures f.Some? ==> body[key] == JString(f.value)
  {
    if key in body && body[key].JString? then Some(body[key].s) else None
  }

  /** A body entry as a number field: absent, or present with an integer value. */
  function IntField(body: map<string, Json>, key: string): (f: Option<int>)
    ensures f.Some? <==> key in body && body[key].JInt?
    ensures f.Some? ==> body[key] == JInt(f.value)
  {
    if key in body && body[key].JInt? then Some(body[key].n) else None
  }

  /**
   * Pydantic checks every field and reports each one it rejects: a field given
   * with the wrong kind of value, an age outside 16..120, a malformed email, or,
   * when `required`, a field that is absent.
   */
  function FieldErrors(body: map<string, Json>, required: bool): ValidationError {
    var name, age, email := TextField(body, "name"), IntField(body, "age"), TextField(body, "email");
    (if "name" in body then (if name.None? then {Name} else {}) else if required then {Name} else {})
    + (if "age" in body then (if age.None? || !ValidAge(age.value) then {Age} else {}) else if required then {Age} else {})
    + (if "email" in body then (if email.None? || !ValidEmail(email.value) then {Email} else {}) else if required then {Email} else {})
  }

  /**
   * The route as written: the body is parsed as a `StudentBase`, so every
   * field is required. A body is accepted exactly when it has all three
   * fields, of the right kinds, with a valid age and email. Otherwise each
   * field that is absent, of the wrong kind or invalid is named in the error.
   */
  function ParseStudentBase(body: map<string, Json>): (r: Result<StudentBase, ValidationError>)
    ensures r.Success? <==>
      && "name" in body && body["name"].JString?
      && "age" in body && body["age"].JInt? && ValidAge(body["age"].n)
      && "email" in body && body["email"].JString? && ValidEmail(body["email"].s)
    ensures r.Success? ==> r.value.Valid()
    ensures r.Success? ==> body["name"] == JString(r.value.name) && body["age"] == JInt(r.value.age)
    ensures r.Success? ==> body["email"] == JString(r.value.email)
    ensures r.Failure? ==> (Name in r.error <==> !("name" in body && body["name"].JString?))
    ensures r.Failure? ==> (Age in r.error <==> !("age" in body && body["age"].JInt? && ValidAge(body["age"].n)))
    ensures r.Failure? ==> (Email in r.error <==> !("email" in body && body["email"].JString? && ValidEmail(body["email"].s)))
  {
    var errors := FieldErrors(body, true);
    if errors == {} then Success(StudentBase(body["name"].s, body["age"].n, body["email"].s))
    else Failure(errors)
  }

  /**
   * The route as the client evidently expects it: the body parsed as a
   * `StudentUpdateBase`, in which every field is optional. A body is accepted
   * exactly when each field it holds has the right kind and, for the age and
   * the email, a valid value; an absent field becomes `None`. Otherwise each
   * present field of the wrong kind or with an invalid value is named in the
   * error, and no absent field is.
   */
  function ParseStudentUpdate(body: map<string, Json>): (r: Result<StudentUpdate, ValidationError>)
    ensures r.Success? <==>
      && ("name" in body ==> body["name"].JString?)
      && ("age" in body ==> body["age"].JInt? && ValidAge(body["age"].n))
      && ("email" in body ==> body["email"].JString? && ValidEmail(body["email"].s))
    ensures r.Success? ==> r.value.Valid()
    ensures r.Success? ==> r.value == StudentUpdate(TextField(body, "name"), IntField(body, "age"), TextField(body, "email"))
    ensures r.Failure? ==> (Name in r.error <==> "name" in body && !body["name"].JString?)
    ensures r.Failure? ==> (Age in r.error <==> "age" in body && !(body["age"].JInt? && ValidAge(body["age"].n)))
    ensures r.Failure? ==> (Email in r.error <==> "email" in body && !(body["email"].JString? && ValidEmail(body["email"].s)))
  {
    var errors := FieldErrors(body, false);
    if errors == {} then Success(StudentUpdate(TextField(body, "name"), IntField(body, "age"), TextField(body, "email")))
    else Failure(errors)
  }

  /**
   * A body the corrected route accepts updates exactly the fields it holds:
   * a field left out keeps the stored value, and the id never changes.
   */
  lemma ParsedUpdateKeepsOmitted(body: map<string, Json>, current: Student)
    requires ParseStudentUpdate(body).Success?
    ensures var s := Merge(current, ParseStudentUpdate(body).value);
      && s.id == current.id
      && ("name" !in body ==> s.name == current.name)
      && ("age" !in body ==> s.age == current.age)
      && ("email" !in body ==> s.email == current.email)
      && (forall v | "name" in body && body["name"] == JString(v) :: s.name == v)
      && (forall n | "age" in body && body["age"] == JInt(n) :: s.age == n)
      && (forall v | "email" in body && body["email"] == JString(v) :: s.email == v)
  {
  }

  /**
   * An age-only change from the client: the payload it sends is accepted by the
   * corrected route, which changes only the age, but rejected by the route as
   * written, which asks for the name and the email too.
   */
  method AgeOnlyUpdate() returns (sent: map<string, Json>)
    ensures sent == map["age" := JInt(20)]
    ensures ParseStudentBase(sent) == Failure({Name, Email})
    ensures ParseStudentUpdate(sent) == Success(StudentUpdate(None, Some(20), None))
  {
    var r := Frontend.BuildUpdateData("", Some(20), "");
    assert PyText.AllWhitespace("");
    sent := r.value;
    assert sent.Keys == {"age"};
    assert FieldErrors(sent, true) == {Name, Email};
  }
}
