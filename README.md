# Student records: store, summary sanitiser and update payload

A Dafny model of the core of a small student-record service. The service
keeps student records (name, age, email) in memory behind a REST API. It has
an extra endpoint that asks a text generator for a description of a student
and cleans up the text it gets back. A UI client edits records through the
API. The model covers four pieces:

- `StudentDB`, the in-memory store of `main.py`. It is modelled as the class
  `Students.StudentDB` with these fields:
  - the dict `students`, a map from id to record;
  - the key order of that dict, `order`;
  - the id `counter`;
  - a ghost set `issued` of every id ever handed out.

  Its methods are `__init__`, `add_student`, `get_student`,
  `get_all_students`, `update_student` and `delete_student`. The class
  invariant `Valid()` says:
  - every issued id lies in 1..counter;
  - every stored key was issued;
  - each record's id equals its key;
  - every stored age lies in [16, 120] and every stored email is well formed;
  - the dict's key order holds exactly the stored keys, in increasing order.
- The pydantic models `StudentBase`, `StudentUpdateBase` and `Student`, as
  datatypes with `Valid()` predicates. Construction is modelled as the
  validating functions `NewStudentBase` and `NewStudentUpdate`. The
  partial-update merge is the function `Merge`.
- The summary endpoint `get_student_summary`:
  - `Summary.Sanitize` is the text pipeline. It removes each markup
    character, then `"mailto:"`, then splits the text into lines, strips each
    line, drops the blank ones and joins the rest with `"\n"`.
  - `Summary.GetStudentSummary` assembles the result
    `{student_id, name, formatted_summary}`. It also covers the three ways the
    endpoint fails.
  - The Python string methods the pipeline uses are modelled in `PyText`:
    `strip`, `splitlines`, `"\n".join` and `replace(pat, "")`. They use
    Python's own whitespace and line-boundary sets, and `"\r\n"` counts as
    one boundary.
- The UI client's rule for building an update payload (`frontend.py`). This
  is `Frontend.BuildUpdateData`:
  - a blank name or email is left out;
  - an age that is missing or 0 is left out;
  - an empty payload is refused with an error message.

  The PUT route's parsing of that payload is in `Api`; see "## Findings".

Files: `wrappers.dfy` (Option, Result), `json.dfy` (JsonValues, the JSON
values of a request body), `text.dfy` (PyText), `students.dfy` (Students),
`summary.dfy` (Summary), `frontend.dfy` (Frontend), `api.dfy` (Api).

The model puts no constraint on names: `StudentBase.name` is a plain `str`
(main.py:13).

## Model

| member | source | states |
|---|---|---|
| Students.NewStudentBase | main.py:12-15 | a new record is accepted exactly when 16 <= age <= 120 and the email is well formed; a rejection names each bad field and never the name |
| Students.NewStudentUpdate | main.py:17-20 | an update is accepted exactly when every field it provides is valid; an absent field is never rejected, and a rejection names each bad provided field |
| Students.Merge | main.py:58-64 | each provided field takes the new value, each `None` field keeps the stored one, the id is kept; a valid record merged with a valid update is valid, so `Student`'s re-validation passes |
| Students.MergeNoChange | main.py:58-64 | an update that provides no field leaves the record unchanged |
| Students.MergeIdempotent | main.py:58-64 | applying the same update twice gives the same record as applying it once |
| Students.MergeThen | main.py:58-64 | two successive updates act as one combined update in which the later provided fields win |
| Students.Without | main.py:73 | `del` removes exactly the deleted key from the dict's key order and keeps that order increasing |
| Students.StudentDB.constructor | main.py:27-29 | the store starts empty with counter 0, and the class invariant holds |
| Students.StudentDB.AddStudent | main.py:32-42 | the counter goes up by exactly 1; the returned record carries the new counter value as its id and the given fields; it is stored under that key and nothing else changes; the id was never issued before and exceeds every stored key; the invariant is kept |
| Students.StudentDB.GetStudent | main.py:44-45 | returns exactly the record stored under the id, or `None` when there is none; the record's id is the key and its fields are valid |
| Students.StudentDB.GetAllStudents | main.py:47-48 | returns exactly the stored records, one per key, in the dict's key order, which is ascending by id |
| Students.StudentDB.UpdateStudent | main.py:50-67 | a missing id gives `None` and changes nothing; otherwise only that key is replaced, by the merge of the stored record with the update, and the id, counter and key order are unchanged; the invariant (ages in range) is kept |
| Students.StudentDB.DeleteStudent | main.py:69-74 | returns true exactly when the id was present; removes that key only; the counter and the set of issued ids are unchanged, so the id is never handed out again |
| Students.AddThenGet | main.py:32-45 | a record read back right after it was added is the record that was returned, with the given fields |
| Students.DeleteTwice | main.py:69-74 | after a delete the id reads as missing, and a second delete of it returns false |
| Students.DeleteThenAdd | main.py:29-42 | an id freed by a delete is not reused: the next add gets a larger id |
| PyText.Strip | main.py:164 | `str.strip()` cuts a run of whitespace from each end; the result is empty exactly when the text is all whitespace, and otherwise starts and ends with a non-whitespace character |
| PyText.StripNoPadding | main.py:164 | text with no whitespace at either end is its own `strip()` |
| PyText.SplitLines | main.py:164 | `str.splitlines()` yields lines that hold no line boundary and only characters of the text |
| PyText.SplitLinesCons | main.py:164 | a break-free line followed by `"\n"` is split off as the first line |
| PyText.JoinLines | main.py:164 | every character of `"\n".join(ls)` is a newline or comes from one of the lines |
| PyText.SplitJoinLines | main.py:164 | splitting the join of non-empty, break-free lines gives back exactly those lines |
| PyText.RemoveAll | main.py:152-161 | `replace(pat, "")` never lengthens the text and adds no character; removing a one-character pattern leaves no copy of it |
| PyText.RemoveCharKeepsOthers | main.py:152-158 | removing one character keeps every other character, each as often as before |
| PyText.RemoveAllAbsent | main.py:161 | text in which the pattern does not occur is returned unchanged |
| PyText.RemoveCharAbsent | main.py:152-158 | removing a character that does not occur changes nothing |
| PyText.RemoveCharConcat | main.py:152-158 | removing one character works piece by piece over a concatenation |
| PyText.RemoveAllSkip | main.py:161 | a stretch without the pattern's first character passes `replace` unchanged |
| PyText.RemoveAllLeading | main.py:161 | an occurrence at the very start is removed |
| Summary.StripMarkup | main.py:151-158 | after the seven markup removals no `* # + [ ] ( )` is left, and every remaining character comes from the input |
| Summary.StripMarkupKeepsText | main.py:151-158 | the markup removals delete nothing but markup: every other character stays, as often as before |
| Summary.StripMarkupConcat | main.py:151-158 | the markup removals work piece by piece over a concatenation |
| Summary.StripMarkupPlain | main.py:151-158 | text without markup passes the markup removals unchanged |
| Summary.StripMarkupParts | main.py:151-158 | plain text followed by markup: the plain text is kept and the markup dropped |
| Summary.CleanLines | main.py:163-164 | the lines kept are each stripped and non-empty; there are no more of them than input lines, and they hold no new characters or line breaks |
| Summary.CleanLinesOfClean | main.py:163-164 | lines that are already non-empty and unpadded are all kept, unchanged and in order |
| Summary.CleanLinesKeepsLine | main.py:163-164 | every input line that is not blank is kept, in stripped form |
| Summary.Sanitize | main.py:150-164 | apart from the `"\n"` separators, every character of the sanitised text comes from the generator's response and is not a markup character |
| Summary.SanitizeIsClean | main.py:150-164 | for every generator response, the sanitised text has no markup character, no empty line and no line with leading or trailing whitespace, and it is exactly its lines joined by `"\n"` |
| Summary.CollapseBlankLines | main.py:163-164 | blank lines between two clean lines collapse into a single `"\n"` |
| Summary.SanitizeExample | main.py:150-164 | `"Name: **John** [Doe] (mailto:j@x.com)\n\n\nAge: 30"` becomes `"Name: John Doe j@x.com\nAge: 30"` |
| Summary.MailtoMaySurvive | main.py:160-161 | one non-overlapping pass can assemble a new `"mailto:"`: `"mamailto:ilto:"` becomes `"mailto:"` |
| Summary.GetStudentSummary | main.py:112-176 | an unknown id fails as not found, before the generator is considered; an unreachable generator fails as unavailable and a status other than 200 as a generation failure; otherwise the result carries the requested id, the stored name and the sanitised response, which is clean |
| Frontend.BuildUpdateData | frontend.py:44-53 | "name" is sent exactly when `name.strip()` is non-empty, with the untrimmed name; "age" exactly when it is given and not 0; "email" like "name"; no other key; when no field qualifies the error message is returned and nothing is sent |
| Api.ParseStudentBase | main.py:12-15 | the PUT route as written (main.py:100) parses the body as `StudentBase`: a body is accepted exactly when it holds a string name, an integer age in [16, 120] and a well-formed string email, and then yields those values; otherwise the error names exactly the fields that are absent, of the wrong kind or invalid |
| Api.ParseStudentUpdate | main.py:17-20 | parsing the body as `StudentUpdateBase`: a body is accepted exactly when each field it holds has the right kind and, for age and email, a valid value; an absent field becomes `None`; otherwise the error names exactly the present fields that are of the wrong kind or invalid, and never an absent one |
| Api.ParsedUpdateKeepsOmitted | main.py:58-64 | a body the corrected route accepts updates exactly the fields it holds: each field left out keeps its stored value and the id never changes |
| Api.AgeOnlyUpdate | frontend.py:44-53 | the client's payload for an age-only change is `{"age": 20}`; the route as written rejects it, naming exactly the name and the email, and the corrected route accepts it as an age-only update |

## Left out

- The lock (main.py:30) and concurrency. Every operation is modelled as sequential and atomic.
- FastAPI routing, dependency injection and the mapping of failures to HTTP status codes (404, 500, 503). Only the PUT route's body parsing is modelled, in `Api`.
- The HTTP call to the text generator. Its outcome is the `Reply` parameter: unreachable, or a status code with the `response` text. Decoding the JSON body is left out, and so is the failure when it lacks a `response` key.
- The prompt f-string (main.py:119-127). It only feeds the generator.
- Pydantic's `EmailStr` grammar. `Students.ValidEmail` stands in for it: exactly one '@', and it is neither the first nor the last character.
- Students.NewStudentBase: promises that the stored email is the one given. `EmailStr` also normalises the address it accepts (it lower-cases the domain part), so the source may store a different spelling of the same address; the model does not normalise.
- Pydantic's coercion of JSON values (a numeric string such as `"20"` accepted as an age, a whole-number float, a number accepted as a name) and JSON `null` for an optional field. The `Api` parsers accept a string for a text field and an integer for the age, and reject every other kind of value as an error on that field.
- Aliasing of records: `get_student` and `get_all_students` (main.py:44-48) hand out the stored pydantic objects themselves, which a caller could mutate. The model returns record values, so a change made through a returned record cannot reach the store.
- Lone surrogates: a Python `str` may hold them, but a Dafny `char` is a Unicode scalar value, so such strings are outside the model.
- Any claim that the sanitised text is free of `"mailto:"`, or that the pipeline is idempotent. Neither holds: one pass of `replace` can assemble a new `"mailto:"` (see `Summary.MailtoMaySurvive`).
- The Gradio UI, the `requests` calls and the response formatting in frontend.py. The form's age is a float that is truncated by `int(age)`; it is modelled as an optional integer.

## Findings

| source | as written | input that shows it | evidently intended | confidence | as-written member | corrected member |
|---|---|---|---|---|---|---|
| main.py:100 | the PUT route declares its body as `StudentBase`, so every field is required | the client's payload for an age-only change, `{"age": 20}` (frontend.py:44-50), is rejected for lacking name and email | parse the body as `StudentUpdateBase` (main.py:17-20), which `StudentDB.update_student` is written for, so that omitted fields keep their stored values | high, not executed | Api.ParseStudentBase, Api.AgeOnlyUpdate | Api.ParseStudentUpdate, Api.ParsedUpdateKeepsOmitted |
