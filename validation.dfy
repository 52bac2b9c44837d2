/**
 * The data-annotation rules on StudentRequest, as MiniValidator.TryValidate
 * applies them. The EmailAddress format check is library code and is taken
 * as a parameter `isEmail`.
 */
module Validation {
  import opened Text
  import opened Domain

  /** The request members a validation error can be reported for. */
  datatype Field = Name | Email | Course | Gender

  const MinTextLength: nat := 2
  const MaxTextLength: nat := 100
  const AllowedGenders: seq<string> := ["Male", "Female", "Other"]

  /** [Required(AllowEmptyStrings = false)]: empty and white-space-only strings fail. */
  predicate Present(s: string) {
    !IsBlank(s)
  }

  /** [MinLength(2)] and [MaxLength(100)], on String.Length. */
  predicate LengthInRange(s: string) {
    MinTextLength <= Utf16Length(s) <= MaxTextLength
  }

  /** The members whose rules fail: the keys of the error dictionary. Each
      member is judged on its own field alone, and every failing member is
      reported, not only the first. */
  function Errors(r: StudentRequest, isEmail: string -> bool): (e: set<Field>)
    ensures Name in e <==> IsBlank(r.name) || !(2 <= Utf16Length(r.name) <= 100)
    ensures Email in e <==> IsBlank(r.email) || !isEmail(r.email)
    ensures Course in e <==> IsBlank(r.course) || !(2 <= Utf16Length(r.course) <= 100)
    ensures Gender in e <==> r.gender != "Male" && r.gender != "Female" && r.gender != "Other"
  {
    (if Present(r.name) && LengthInRange(r.name) then {} else {Name})
    + (if Present(r.email) && isEmail(r.email) then {} else {Email})
    + (if Present(r.course) && LengthInRange(r.course) then {} else {Course})
    + (if r.gender in AllowedGenders then {} else {Gender})
  }

  /** TryValidate succeeds: no member reports an error. An accepted request
      has a Name and a Course of 2..100 characters that are not all white
      space, a non-blank Email the format check accepts, and one of the three
      Gender values exactly. */
  predicate IsValid(r: StudentRequest, isEmail: string -> bool)
    ensures IsValid(r, isEmail) ==>
      && 2 <= Utf16Length(r.name) <= 100 && !IsBlank(r.name)
      && 2 <= Utf16Length(r.course) <= 100 && !IsBlank(r.course)
      && !IsBlank(r.email) && isEmail(r.email)
      && (r.gender == "Male" || r.gender == "Female" || r.gender == "Other")
  {
    Errors(r, isEmail) == {}
  }

  /** The converse: the four rules together are enough. */
  lemma RulesSuffice(r: StudentRequest, isEmail: string -> bool)
    requires Present(r.name) && LengthInRange(r.name)
    requires Present(r.course) && LengthInRange(r.course)
    requires Present(r.email) && isEmail(r.email)
    requires r.gender in AllowedGenders
    ensures IsValid(r, isEmail)
  {
  }

  /** Every accepted Name, Course and Gender fits its column; the Email
      column is 100 long too, but no rule bounds the Email length. */
  lemma AcceptedFitsColumns(r: StudentRequest, isEmail: string -> bool)
    requires IsValid(r, isEmail)
    ensures Utf16Length(r.name) <= NameColumnLength
    ensures Utf16Length(r.course) <= CourseColumnLength
    ensures Utf16Length(r.gender) <= GenderColumnLength
  {
  }

  /** An Email longer than its column passes validation whenever the format
      check accepts it: the insert of such a request is left to fail in the
      database. */
  lemma EmailLengthUnchecked(isEmail: string -> bool, email: string)
    requires isEmail(email) && !IsBlank(email) && Utf16Length(email) > EmailColumnLength
    ensures IsValid(StudentRequest("Ada", email, "Maths", "Other"), isEmail)
    ensures !FitsColumns(NewStudent("Ada", email, "Maths", "Other"))
  {
    assert "Ada"[0] == 'A' && "Maths"[0] == 'M';
  }

  /** The rejected requests of the endpoint tests: a one-character Name, and
      a request with every field wrong. */
  lemma RejectedExamples(isEmail: string -> bool)
    ensures Name in Errors(StudentRequest("0", "invalid.email@example.com", "Computer Science", "Female"), isEmail)
    ensures !IsValid(StudentRequest("0", "invalid.email@example.com", "Computer Science", "Female"), isEmail)
    ensures {Name, Course, Gender} <= Errors(StudentRequest("0", "x", "y", "z"), isEmail)
  {
  }

  /** MinLength and MaxLength count UTF-16 code units: a Name made of one
      emoji, a surrogate pair, already has the minimum length of two. */
  lemma SurrogatePairNameAccepted(isEmail: string -> bool)
    ensures Name !in Errors(StudentRequest("\U{1F600}", "x", "y", "z"), isEmail)
  {
    SurrogatePairCountsTwice();
  }

  /** Gender is compared exactly: other spellings are rejected. */
  lemma GenderCaseSensitive(isEmail: string -> bool)
    ensures Gender in Errors(StudentRequest("Alice Johnson", "alice.johnson@example.com", "Computer Science", "female"), isEmail)
  {
  }
}
