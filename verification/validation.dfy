/** The form checks of src/lib/utils.ts: every person needs a visible name
    and a non-zero expense, and a split needs at least two participants. */
module Validation {
  import opened Types

  /** The characters `String.prototype.trim` removes: the ECMAScript
      WhiteSpace and LineTerminator code points. */
  predicate IsJsWhitespace(c: char)
  {
    c == '\t' || c == '\n' || c == '\U{B}' || c == '\U{C}' || c == '\r' || c == ' '
    || c == '\U{A0}' || c == '\U{1680}' || ('\U{2000}' <= c <= '\U{200A}')
    || c == '\U{2028}' || c == '\U{2029}' || c == '\U{202F}' || c == '\U{205F}'
    || c == '\U{3000}' || c == '\U{FEFF}'
  }

  /** Nothing but whitespace, which includes the empty string. */
  predicate Blank(s: string)
  {
    forall i :: 0 <= i < |s| ==> IsJsWhitespace(s[i])
  }

  /** Drops the leading whitespace. */
  function TrimStart(s: string): (r: string)
    ensures |r| <= |s| && s[|s| - |r|..] == r
    ensures forall i :: 0 <= i < |s| - |r| ==> IsJsWhitespace(s[i])
    ensures |r| == 0 || !IsJsWhitespace(r[0])
  {
    if |s| > 0 && IsJsWhitespace(s[0]) then TrimStart(s[1..]) else s
  }

  /** Drops the trailing whitespace. */
  function TrimEnd(s: string): (r: string)
    ensures |r| <= |s| && s[..|r|] == r
    ensures forall i :: |r| <= i < |s| ==> IsJsWhitespace(s[i])
    ensures |r| == 0 || !IsJsWhitespace(r[|r| - 1])
  {
    if |s| > 0 && IsJsWhitespace(s[|s| - 1]) then TrimEnd(s[..|s| - 1]) else s
  }

  /** `String.prototype.trim`: the string without its leading and trailing whitespace. */
  function Trim(s: string): string
  {
    TrimEnd(TrimStart(s))
  }

  /** A name trims to `''` exactly when it is blank. */
  lemma TrimEmptyIffBlank(s: string)
    ensures Trim(s) == "" <==> Blank(s)
  {
    var t := TrimStart(s);
    if Trim(s) == "" {
      assert |t| == 0;
    }
  }

  /** A person the form accepts: a name that is not blank and a non-zero expense. */
  predicate Valid(p: Person)
  {
    !Blank(p.name) && p.expense != 0.0
  }

  /** The test `validateInput` applies to each person:
      `person.name.trim() !== '' && person.expense !== 0`. */
  function ValidatePerson(p: Person): (ok: bool)
    ensures ok <==> Valid(p)
  {
    TrimEmptyIffBlank(p.name);
    Trim(p.name) != "" && p.expense != 0.0
  }

  /** validateInput: `people.every(...)` of the per-person test. */
  function ValidateInput(people: seq<Person>): (ok: bool)
    ensures ok <==> forall i :: 0 <= i < |people| ==> Valid(people[i])
  {
    if |people| == 0 then true
    else
      EveryCons(people, Valid);
      ValidatePerson(people[0]) && ValidateInput(people[1..])
  }

  /** `every` holds of a non-empty sequence exactly when it holds of the
      first element and `every` holds of the rest. */
  lemma EveryCons<T>(s: seq<T>, f: T -> bool)
    requires |s| > 0
    ensures (forall i :: 0 <= i < |s| ==> f(s[i]))
        <==> f(s[0]) && forall i :: 0 <= i < |s[1..]| ==> f(s[1..][i])
  {
    assert forall i :: 1 <= i < |s| ==> s[i] == s[1..][i - 1];
  }

  /** validateTotalPeople: `totalPeople > 1`. */
  function ValidateTotalPeople(totalPeople: int): (ok: bool)
    ensures ok <==> totalPeople >= 2
  {
    totalPeople > 1
  }

  /** The helper agrees with the inline check the form performs,
      `totalPeople < 2`, on the headcount it computes. */
  lemma TotalPeopleMatchesForm(people: seq<Person>, additionalPeople: nat)
    ensures ValidateTotalPeople(|people| + additionalPeople) <==> !(|people| + additionalPeople < 2)
    ensures ValidateTotalPeople(|people| + additionalPeople) ==> |people| + additionalPeople > 0
  {
  }
}
