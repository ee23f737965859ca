/** The add-customer form: the per-field validator and the error collection
    that gates the POST of a new customer. */
module CustomerForm {
  import opened Wrappers

  // ---------------------------------------------------------------------
  // String primitives: ECMAScript `trim`, `toLowerCase` and `includes`
  // ---------------------------------------------------------------------

  /** The characters ECMAScript's `String.prototype.trim` removes: the
      WhiteSpace and LineTerminator code points. */
  predicate IsWhitespace(c: char) {
    var n := c as int;
    || n == 0x09 || n == 0x0A || n == 0x0B || n == 0x0C || n == 0x0D
    || n == 0x20 || n == 0xA0 || n == 0x1680
    || (0x2000 <= n <= 0x200A)
    || n == 0x2028 || n == 0x2029 || n == 0x202F || n == 0x205F
    || n == 0x3000 || n == 0xFEFF
  }

  /** Drops leading whitespace: what is dropped is all whitespace, and what
      is kept is a suffix of `s` that starts with a non-whitespace character. */
  function TrimStart(s: string): (r: string)
    ensures |r| <= |s| && r == s[|s| - |r|..]
    ensures forall i :: 0 <= i < |s| - |r| ==> IsWhitespace(s[i])
    ensures r == [] || !IsWhitespace(r[0])
  {
    if s == [] || !IsWhitespace(s[0]) then s else TrimStart(s[1..])
  }

  /** Drops trailing whitespace: what is dropped is all whitespace, and what
      is kept is a prefix of `s` that ends with a non-whitespace character. */
  function TrimEnd(s: string): (r: string)
    ensures |r| <= |s| && r == s[..|r|]
    ensures forall i :: |r| <= i < |s| ==> IsWhitespace(s[i])
    ensures r == [] || !IsWhitespace(r[|r| - 1])
  {
    if s == [] || !IsWhitespace(s[|s| - 1]) then s else TrimEnd(s[..|s| - 1])
  }

  /** `r` is `s[k..k + |r|]`, and everything of `s` outside that slice is
      whitespace. */
  predicate TrimmedAt(s: string, r: string, k: int) {
    && 0 <= k <= |s| - |r|
    && r == s[k..k + |r|]
    && (forall i :: 0 <= i < k ==> IsWhitespace(s[i]))
    && (forall i :: k + |r| <= i < |s| ==> IsWhitespace(s[i]))
  }

  /** `s.trim()`: no longer than `s`, and neither starting nor ending with
      whitespace (TrimIsSlice says what is cut). */
  function Trim(s: string): (r: string)
    ensures |r| <= |s|
    ensures r == [] || (!IsWhitespace(r[0]) && !IsWhitespace(r[|r| - 1]))
  {
    TrimEnd(TrimStart(s))
  }

  /** `trim` keeps one slice of `s` and cuts only whitespace from either end. */
  lemma TrimIsSlice(s: string)
    ensures exists k :: TrimmedAt(s, Trim(s), k)
  {
    var t := TrimStart(s);
    var r := TrimEnd(t);
    var k := |s| - |t|;
    assert r == Trim(s);
    assert forall i :: k + |r| <= i < |s| ==> s[i] == t[i - k];
    assert TrimmedAt(s, r, k);
  }

  /** A value is blank when it has no character other than whitespace. */
  predicate IsBlank(s: string) {
    forall i :: 0 <= i < |s| ==> IsWhitespace(s[i])
  }

  /** `!value.trim()` holds exactly for the blank values. */
  lemma TrimEmptyIffBlank(s: string)
    ensures Trim(s) == [] <==> IsBlank(s)
  {
    var t := TrimStart(s);
    if t != [] {
      assert !IsWhitespace(t[0]);
      assert TrimEnd(t) != [];
      assert !IsWhitespace(s[|s| - |t|]);
    }
  }

  /** `toLowerCase` on one character, for the ASCII letters. */
  function LowerChar(c: char): char {
    if 'A' <= c <= 'Z' then (c as int + 32) as char else c
  }

  /** `s.toLowerCase()`: the length is kept, `'A'..'Z'` become `'a'..'z'`,
      and every other character is unchanged. */
  function ToLower(s: string): (r: string)
    ensures |r| == |s|
    ensures forall i {:trigger r[i]} :: 0 <= i < |s| && 'A' <= s[i] <= 'Z' ==>
      'a' <= r[i] <= 'z' && r[i] as int - 'a' as int == s[i] as int - 'A' as int
    ensures forall i {:trigger r[i]} :: 0 <= i < |s| && !('A' <= s[i] <= 'Z') ==> r[i] == s[i]
  {
    seq(|s|, i requires 0 <= i < |s| => LowerChar(s[i]))
  }

  /** `p` occurs in `s` starting at index `i`. */
  predicate OccursAt(s: string, p: string, i: int) {
    0 <= i && i + |p| <= |s| && s[i..i + |p|] == p
  }

  /** `s.includes(p)`: true exactly when `p` occurs somewhere in `s`. */
  function Includes(s: string, p: string): (r: bool)
    ensures r <==> exists i :: OccursAt(s, p, i)
    decreases |s|
  {
    if |p| > |s| then
      assert forall i :: !OccursAt(s, p, i);
      false
    else if s[..|p|] == p then
      assert OccursAt(s, p, 0);
      true
    else
      var r := Includes(s[1..], p);
      assert forall i :: OccursAt(s[1..], p, i) <==> OccursAt(s, p, i + 1) by {
        forall i ensures OccursAt(s[1..], p, i) <==> OccursAt(s, p, i + 1) {
          if 0 <= i && i + |p| <= |s| - 1 {
            assert s[1..][i..i + |p|] == s[i + 1..i + 1 + |p|];
          }
        }
      }
      assert !OccursAt(s, p, 0);
      assert r ==> OccursAt(s, p, (var j :| OccursAt(s[1..], p, j); j) + 1);
      assert (exists i :: OccursAt(s, p, i)) ==> r by {
        if exists i :: OccursAt(s, p, i) {
          var i :| OccursAt(s, p, i);
          assert i != 0;
          assert OccursAt(s[1..], p, i - 1);
        }
      }
      r
  }

  // ---------------------------------------------------------------------
  // validateInput
  // ---------------------------------------------------------------------

  const MinLength := 2
  const MaxLength := 100

  /** The words blocked regardless of case. */
  const BlockedWords: seq<string> := ["select", "insert", "delete", "update"]
  /** The character sequences blocked as they are. */
  const BlockedSymbols: seq<string> := [";", "--", "/*"]

  const InvalidInputMessage := "Invalid input"

  function RequiredMessage(name: string): string { name + " is required" }
  function TooShortMessage(name: string): string { name + " must be at least 2 characters" }
  function TooLongMessage(name: string): string { name + " must be less than 100 characters" }

  /** The injection-pattern test: `validateInput`'s chain of `includes`. */
  predicate HasBlockedPattern(value: string) {
    var lower := ToLower(value);
    || Includes(lower, "select")
    || Includes(lower, "insert")
    || Includes(lower, "delete")
    || Includes(lower, "update")
    || Includes(value, ";")
    || Includes(value, "--")
    || Includes(value, "/*")
  }

  /** The error message for one field, or None when the value is accepted.
      The four checks run in order and the first failing one decides. */
  function ValidateInput(name: string, value: string): (r: Option<string>)
    ensures r.Some? ==> |r.value| > 0
    ensures r.None? ==> MinLength <= |value| <= MaxLength
  {
    if Trim(value) == [] then Some(RequiredMessage(name))
    else if |value| < MinLength then Some(TooShortMessage(name))
    else if |value| > MaxLength then Some(TooLongMessage(name))
    else if HasBlockedPattern(value) then Some(InvalidInputMessage)
    else None
  }

  /** A value the validator should accept, stated without the validator:
      some non-whitespace character, a length in [2, 100], and no
      occurrence of a blocked word (in any case) or a blocked symbol. */
  ghost predicate Acceptable(value: string) {
    && !IsBlank(value)
    && MinLength <= |value| <= MaxLength
    && (forall w, i :: w in BlockedWords ==> !OccursAt(ToLower(value), w, i))
    && (forall p, i :: p in BlockedSymbols ==> !OccursAt(value, p, i))
  }

  /** The blocklist test finds exactly the values with a blocked occurrence. */
  lemma BlockedPatternIff(value: string)
    ensures HasBlockedPattern(value) <==>
      || (exists w, i :: w in BlockedWords && OccursAt(ToLower(value), w, i))
      || (exists p, i :: p in BlockedSymbols && OccursAt(value, p, i))
  {
    var lower := ToLower(value);
    if exists w, i :: w in BlockedWords && OccursAt(lower, w, i) {
      var w, i :| w in BlockedWords && OccursAt(lower, w, i);
      assert Includes(lower, w);
    }
    if exists p, i :: p in BlockedSymbols && OccursAt(value, p, i) {
      var p, i :| p in BlockedSymbols && OccursAt(value, p, i);
      assert Includes(value, p);
    }
  }

  /** The validator returns undefined exactly for the acceptable values. */
  lemma ValidateInputAcceptsIff(name: string, value: string)
    ensures ValidateInput(name, value).None? <==> Acceptable(value)
  {
    TrimEmptyIffBlank(value);
    BlockedPatternIff(value);
  }

  /** The first failing check decides the message: blank before short,
      short before long, and the blocklist last; only the blocklist message
      leaves out the field's name. */
  lemma ValidateInputFirstFailure(name: string, value: string)
    ensures IsBlank(value) ==> ValidateInput(name, value) == Some(RequiredMessage(name))
    ensures !IsBlank(value) && |value| < MinLength ==>
      ValidateInput(name, value) == Some(TooShortMessage(name))
    ensures !IsBlank(value) && |value| > MaxLength ==>
      ValidateInput(name, value) == Some(TooLongMessage(name))
    ensures && !IsBlank(value) && MinLength <= |value| <= MaxLength
            && (|| (exists w, i :: w in BlockedWords && OccursAt(ToLower(value), w, i))
                || (exists p, i :: p in BlockedSymbols && OccursAt(value, p, i)))
            ==> ValidateInput(name, value) == Some(InvalidInputMessage)
  {
    TrimEmptyIffBlank(value);
    BlockedPatternIff(value);
  }

  /** Whether a value is accepted does not depend on the field's name, and
      once the value is non-blank and of a valid length the message does not
      either: the blocklist message does not name the field. */
  lemma ValidationIgnoresName(name1: string, name2: string, value: string)
    ensures ValidateInput(name1, value).None? <==> ValidateInput(name2, value).None?
    ensures !IsBlank(value) && MinLength <= |value| <= MaxLength ==>
      ValidateInput(name1, value) == ValidateInput(name2, value)
  {
    TrimEmptyIffBlank(value);
  }

  /** An empty value is reported as required, never as too short. */
  lemma EmptyValueIsRequired(name: string)
    ensures ValidateInput(name, "") == Some(RequiredMessage(name))
  {
  }

  /** The length check counts the untrimmed value: `"  a"` passes it. */
  lemma PaddedShortValueAccepted(name: string)
    ensures ValidateInput(name, "  a").None?
  {
    var v := "  a";
    assert !IsWhitespace(v[2]);
    TrimEmptyIffBlank(v);
    assert |ToLower(v)| == 3;
  }

  // ---------------------------------------------------------------------
  // handleSubmit: collecting the errors of the six fields
  // ---------------------------------------------------------------------

  /** The six fields of the form, named by their keys in the request body. */
  datatype Field = CustomerName | ContactName | Address | City | PostalCode | Country {
    function Key(): string {
      match this
      case CustomerName => "customerName"
      case ContactName => "contactName"
      case Address => "address"
      case City => "city"
      case PostalCode => "postalCode"
      case Country => "country"
    }

    /** The field's position in the form. */
    function Position(): nat {
      match this
      case CustomerName => 0
      case ContactName => 1
      case Address => 2
      case City => 3
      case PostalCode => 4
      case Country => 5
    }
  }

  /** The submitted values, as read from the form. */
  datatype CustomerData = CustomerData(
    customerName: string,
    contactName: string,
    address: string,
    city: string,
    postalCode: string,
    country: string)
  {
    function Get(f: Field): string {
      match f
      case CustomerName => customerName
      case ContactName => contactName
      case Address => address
      case City => city
      case PostalCode => postalCode
      case Country => country
    }
  }

  /** The order in which `Object.entries` lists the fields. */
  const FieldOrder: seq<Field> := [CustomerName, ContactName, Address, City, PostalCode, Country]

  /** The validator's verdict on one field of the submitted data. */
  function FieldError(data: CustomerData, f: Field): Option<string> {
    ValidateInput(f.Key(), data.Get(f))
  }

  /** `FieldOrder` lists the six fields once each, by position. */
  lemma FieldOrderPositions(i: nat)
    requires i < |FieldOrder|
    ensures FieldOrder[i].Position() == i
    ensures forall f: Field :: f.Position() == i ==> f == FieldOrder[i]
  {
  }

  /** The forEach over the entries, for any validator: a key for exactly
      the fields whose message passes `if (error)` (present and, as a
      string, non-empty), each holding that message. */
  method CollectErrorsWith(data: CustomerData, validate: (string, string) -> Option<string>)
    returns (errors: map<Field, string>)
    ensures forall f: Field :: f in errors <==>
      validate(f.Key(), data.Get(f)).Some? && validate(f.Key(), data.Get(f)).value != ""
    ensures forall f: Field :: f in errors ==> errors[f] == validate(f.Key(), data.Get(f)).value
  {
    errors := map[];
    var i := 0;
    while i < |FieldOrder|
      invariant 0 <= i <= |FieldOrder|
      invariant forall f: Field :: f in errors <==>
        f.Position() < i && validate(f.Key(), data.Get(f)).Some? && validate(f.Key(), data.Get(f)).value != ""
      invariant forall f: Field :: f in errors ==> errors[f] == validate(f.Key(), data.Get(f)).value
    {
      var f := FieldOrder[i];
      FieldOrderPositions(i);
      var error := validate(f.Key(), data.Get(f));
      if error.Some? && error.value != "" {
        errors := errors[f := error.value];
      }
      i := i + 1;
    }
  }

  /** The forEach with `validateInput`: since a message is never empty, a
      key for exactly the failing fields, each holding that field's message. */
  method CollectErrors(data: CustomerData) returns (errors: map<Field, string>)
    ensures forall f: Field :: f in errors <==> FieldError(data, f).Some?
    ensures forall f: Field :: f in errors ==> errors[f] == FieldError(data, f).value
  {
    errors := CollectErrorsWith(data, ValidateInput);
  }

  /** A field has an error exactly when its value is not acceptable. */
  lemma FieldErrorIffUnacceptable(data: CustomerData)
    ensures forall f: Field :: FieldError(data, f).None? <==> Acceptable(data.Get(f))
  {
    forall f: Field ensures FieldError(data, f).None? <==> Acceptable(data.Get(f)) {
      ValidateInputAcceptsIff(f.Key(), data.Get(f));
    }
  }

  /** What the handler does with a submission. */
  datatype SubmitOutcome =
    | ShowErrors(errors: map<Field, string>)  // errors shown, no request sent
    | Post(body: CustomerData)                // POST /api/customers with this body

  /** The submit gate: the POST is issued with the data as submitted exactly
      when no field has an error (by FieldErrorIffUnacceptable, when every
      field is Acceptable); otherwise the failing fields' messages are shown
      and nothing is sent. */
  method HandleSubmit(data: CustomerData) returns (outcome: SubmitOutcome)
    ensures outcome.Post? <==> forall f: Field :: FieldError(data, f).None?
    ensures outcome.Post? ==> outcome.body == data
    ensures outcome.ShowErrors? ==>
      && |outcome.errors| > 0
      && (forall f: Field :: f in outcome.errors <==> FieldError(data, f).Some?)
      && (forall f: Field :: f in outcome.errors ==> outcome.errors[f] == FieldError(data, f).value)
  {
    var errors := CollectErrors(data);
    if |errors| > 0 {
      outcome := ShowErrors(errors);
      assert exists f: Field :: f in errors;
    } else {
      assert errors == map[];
      outcome := Post(data);
    }
  }
}
