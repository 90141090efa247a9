/**
 * The update form of the UI client (frontend.py, `update_student`): which of
 * the entered fields go into the PUT payload. A blank text field and an age of
 * 0 stand for "not entered", and an empty payload is never sent.
 */
module Frontend {
  import opened Wrappers
  import opened PyText
  import opened JsonValues

  /** The message shown instead of sending an empty update. */
  const NoFieldsError := "Error: Please provide at least one field to update"

  /**
   * Building `update_data`: "name" and "email" are included exactly when their
   * text is not blank, with the text as entered (not stripped); "age" exactly
   * when it was entered and is not 0. No other key is ever present. When no
   * field qualifies, the error message is returned instead of a payload.
   */
  method BuildUpdateData(name: string, age: Option<int>, email: string)
    returns (r: Result<map<string, Json>, string>)
    ensures r.Failure? <==> AllWhitespace(name) && (age.None? || age.value == 0) && AllWhitespace(email)
    ensures r.Failure? ==> r.error == NoFieldsError
    ensures r.Success? ==> r.value != map[] && r.value.Keys <= {"name", "age", "email"}
    ensures r.Success? ==> ("name" in r.value <==> !AllWhitespace(name))
    ensures r.Success? && "name" in r.value ==> r.value["name"] == JString(name)
    ensures r.Success? ==> ("age" in r.value <==> age.Some? && age.value != 0)
    ensures r.Success? && "age" in r.value ==> r.value["age"] == JInt(age.value)
    ensures r.Success? ==> ("email" in r.value <==> !AllWhitespace(email))
    ensures r.Success? && "email" in r.value ==> r.value["email"] == JString(email)
  {
    var updateData: map<string, Json> := map[];
    if Strip(name) != [] {
      updateData := updateData["name" := JString(name)];
    }
    if age.Some? && age.value != 0 {
      updateData := updateData["age" := JInt(age.value)];
    }
    if Strip(email) != [] {
      updateData := updateData["email" := JString(email)];
    }
    assert "name" in updateData <==> Strip(name) != [];
    assert "email" in updateData <==> Strip(email) != [];
    if updateData == map[] {
      return Failure(NoFieldsError);
    }
    r := Success(updateData);
  }
}
