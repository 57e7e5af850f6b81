/**
 * The `gform_validation` callback that blocks a Gravity Forms submission when
 * a checked text field contains one of WordPress's disallowed comment keys.
 *
 * `Validated` states the outcome declaratively; `ValidateForDisallowedKeywords`
 * is the callback's nested field/keyword scan over the form's field array,
 * updating the offending field in place and leaving both loops at the first
 * match, and is proved to produce exactly that outcome.
 */
module Validation {
  import opened Wrappers
  import opened PhpStrings
  import opened Keywords

  /** The field types whose submitted values are scanned. */
  const CheckedTypes: set<string> :=
    {"text", "textarea", "email", "website", "post_title", "post_content",
     "post_excerpt", "phone", "name"}

  /** The message put on the field that contains a disallowed keyword. */
  const DisallowedMessage: string :=
    "This field contains content that is not allowed. Please remove it."

  /** The parts of a Gravity Forms field object the callback reads or writes. */
  datatype Field = Field(id: nat, fieldType: string, failedValidation: bool, validationMessage: string)

  /** The overall validation result: `is_valid` and the form's fields. */
  datatype ValidationResult = ValidationResult(isValid: bool, fields: seq<Field>)

  predicate IsChecked(fieldType: string) {
    fieldType in CheckedTypes
  }

  /**
   * `rgpost('input_' . $field->id)`: the value posted for the field, or ""
   * when nothing was posted under that name.
   */
  function SubmittedValue(post: map<nat, string>, id: nat): string {
    if id in post then post[id] else ""
  }

  /** Some keyword occurs in the value, ignoring ASCII case. */
  predicate ContainsKeyword(value: string, keywords: seq<string>) {
    exists m :: 0 <= m < |keywords| && ContainsCI(value, keywords[m])
  }

  /** The field is checked, its value is not empty and contains a keyword. */
  predicate Offends(f: Field, keywords: seq<string>, post: map<nat, string>) {
    IsChecked(f.fieldType) &&
    !IsEmpty(SubmittedValue(post, f.id)) &&
    ContainsKeyword(SubmittedValue(post, f.id), keywords)
  }

  /** The first offending field at or after `from`, in field order. */
  function FirstOffendingFrom(fields: seq<Field>, keywords: seq<string>, post: map<nat, string>, from: nat): (r: Option<nat>)
    requires from <= |fields|
    decreases |fields| - from
    ensures r.Some? ==> from <= r.value < |fields| && Offends(fields[r.value], keywords, post)
    ensures r.Some? ==> forall j :: from <= j < r.value ==> !Offends(fields[j], keywords, post)
    ensures r.None? ==> forall j :: from <= j < |fields| ==> !Offends(fields[j], keywords, post)
  {
    if from == |fields| then None
    else if Offends(fields[from], keywords, post) then Some(from)
    else FirstOffendingFrom(fields, keywords, post, from + 1)
  }

  function FirstOffending(fields: seq<Field>, keywords: seq<string>, post: map<nat, string>): Option<nat> {
    FirstOffendingFrom(fields, keywords, post, 0)
  }

  /** Marks a field as failed with the fixed message. */
  function MarkFailed(f: Field): (r: Field)
    ensures r.id == f.id && r.fieldType == f.fieldType
    ensures r.failedValidation && r.validationMessage == DisallowedMessage
  {
    f.(failedValidation := true, validationMessage := DisallowedMessage)
  }

  /**
   * The outcome of the callback: unchanged when the option is empty or yields
   * no keyword or no field offends; otherwise the first offending field is
   * marked failed and `is_valid` becomes false.
   */
  function Validated(result: ValidationResult, raw: string, post: map<nat, string>): (r: ValidationResult)
    ensures |r.fields| == |result.fields|
    ensures r.isValid ==> result.isValid
  {
    if IsEmpty(raw) then result
    else
      var keywords := Normalize(raw);
      if keywords == [] then result
      else
        match FirstOffending(result.fields, keywords, post)
        case None => result
        case Some(i) => ValidationResult(false, result.fields[i := MarkFailed(result.fields[i])])
  }

  /**
   * The callback: reads the option value `raw` and the posted values `post`,
   * scans the fields in order and every keyword in order, and on the first
   * match marks that field, clears `is_valid` and leaves both loops.
   */
  method ValidateForDisallowedKeywords(isValid: bool, fields: array<Field>, raw: string, post: map<nat, string>)
    returns (isValidOut: bool)
    modifies fields
    ensures ValidationResult(isValidOut, fields[..]) ==
            Validated(ValidationResult(isValid, old(fields[..])), raw, post)
  {
    isValidOut := isValid;
    if IsEmpty(raw) {
      return;
    }
    var keywords := Normalize(raw);
    if |keywords| == 0 {
      return;
    }
    ghost var before := fields[..];
    var formIsInvalid := false;
    var i := 0;
    while i < fields.Length
      invariant 0 <= i <= fields.Length
      invariant fields[..] == before
      invariant isValidOut == isValid && !formIsInvalid
      invariant forall j :: 0 <= j < i ==> !Offends(before[j], keywords, post)
    {
      var field := fields[i];
      if IsChecked(field.fieldType) {
        var value := SubmittedValue(post, field.id);
        if IsEmpty(value) {
          i := i + 1;
          continue;
        }
        var k := 0;
        while k < |keywords|
          invariant 0 <= k <= |keywords|
          invariant forall m :: 0 <= m < k ==> !ContainsCI(value, keywords[m])
        {
          if Stripos(value, keywords[k]) != None {
            fields[i] := fields[i].(failedValidation := true);
            fields[i] := fields[i].(validationMessage := DisallowedMessage);
            isValidOut := false;
            formIsInvalid := true;
            assert Offends(before[i], keywords, post);
            assert fields[..] == before[i := MarkFailed(before[i])];
            assert FirstOffending(before, keywords, post) == Some(i) by {
              FirstOffendingIs(before, keywords, post, i);
            }
            break break;
          }
          k := k + 1;
        }
      }
      i := i + 1;
    }
    if formIsInvalid {
      isValidOut := false;
    }
  }

  /** The first offender is determined by its two defining facts. */
  lemma FirstOffendingIs(fields: seq<Field>, keywords: seq<string>, post: map<nat, string>, i: nat)
    requires i < |fields| && Offends(fields[i], keywords, post)
    requires forall j :: 0 <= j < i ==> !Offends(fields[j], keywords, post)
    ensures FirstOffending(fields, keywords, post) == Some(i)
  {
    var r := FirstOffending(fields, keywords, post);
    assert r.Some?;
    assert !(r.value < i);
    assert !(i < r.value);
  }

  /** An empty option value leaves the validation result as it came in. */
  lemma EmptyOptionUnchanged(result: ValidationResult, raw: string, post: map<nat, string>)
    requires IsEmpty(raw)
    ensures Validated(result, raw, post) == result
  {
  }

  /**
   * An option value that normalises to no keyword (blank lines, "0" lines)
   * leaves the result as it came in.
   */
  lemma NoKeywordsUnchanged(result: ValidationResult, raw: string, post: map<nat, string>)
    requires Normalize(raw) == []
    ensures Validated(result, raw, post) == result
  {
  }

  /**
   * An option value made only of whitespace and newlines yields no keyword,
   * so the result comes back unchanged.
   */
  lemma BlankOptionUnchanged(result: ValidationResult, raw: string, post: map<nat, string>)
    requires AllTrimChars(raw)
    ensures Validated(result, raw, post) == result
  {
    NormalizeBlank(raw);
  }

  /** Validation never adds or removes a field, nor changes a field's id or type. */
  lemma ShapeKept(result: ValidationResult, raw: string, post: map<nat, string>)
    ensures |Validated(result, raw, post).fields| == |result.fields|
    ensures forall j :: 0 <= j < |result.fields| ==>
              Validated(result, raw, post).fields[j].id == result.fields[j].id &&
              Validated(result, raw, post).fields[j].fieldType == result.fields[j].fieldType
  {
  }

  /** When no field offends, the result comes back unchanged. */
  lemma NoOffenderUnchanged(result: ValidationResult, raw: string, post: map<nat, string>)
    requires forall j :: 0 <= j < |result.fields| ==> !Offends(result.fields[j], Normalize(raw), post)
    ensures Validated(result, raw, post) == result
  {
    if !IsEmpty(raw) && Normalize(raw) != [] {
      assert FirstOffending(result.fields, Normalize(raw), post).None?;
    }
  }

  /**
   * When field `i` offends and no earlier field does, exactly that field is
   * marked failed with the fixed message, every other field is kept as it
   * was, and `is_valid` becomes false.
   */
  lemma FirstOffenderMarked(result: ValidationResult, raw: string, post: map<nat, string>, i: nat)
    requires !IsEmpty(raw)
    requires i < |result.fields| && Offends(result.fields[i], Normalize(raw), post)
    requires forall j :: 0 <= j < i ==> !Offends(result.fields[j], Normalize(raw), post)
    ensures Validated(result, raw, post) ==
            ValidationResult(false, result.fields[i := MarkFailed(result.fields[i])])
    ensures !Validated(result, raw, post).isValid
    ensures |Validated(result, raw, post).fields| == |result.fields|
    ensures Validated(result, raw, post).fields[i].failedValidation
    ensures Validated(result, raw, post).fields[i].validationMessage == DisallowedMessage
    ensures forall j :: 0 <= j < |result.fields| && j != i ==>
              Validated(result, raw, post).fields[j] == result.fields[j]
  {
    FirstOffendingIs(result.fields, Normalize(raw), post, i);
  }

  /**
   * A field that the callback changes offends: it is checked, its value is
   * not empty and contains a keyword of the option as a case-insensitive
   * substring. It is then marked failed with the fixed message, and every
   * field before it does not offend.
   */
  lemma ChangedFieldOffends(result: ValidationResult, raw: string, post: map<nat, string>, i: nat)
    requires i < |result.fields| && Validated(result, raw, post).fields[i] != result.fields[i]
    ensures Offends(result.fields[i], Normalize(raw), post)
    ensures IsChecked(result.fields[i].fieldType)
    ensures !IsEmpty(SubmittedValue(post, result.fields[i].id))
    ensures exists k :: k in Normalize(raw) && ContainsCI(SubmittedValue(post, result.fields[i].id), k)
    ensures Validated(result, raw, post).fields[i] == MarkFailed(result.fields[i])
    ensures forall j :: 0 <= j < i ==> !Offends(result.fields[j], Normalize(raw), post)
  {
    var keywords := Normalize(raw);
    var f := FirstOffending(result.fields, keywords, post);
    assert f == Some(i);
    var m :| 0 <= m < |keywords| && ContainsCI(SubmittedValue(post, result.fields[i].id), keywords[m]);
    assert keywords[m] in keywords;
  }

  /** A field of a type outside the checked set is never changed. */
  lemma UncheckedTypeUntouched(result: ValidationResult, raw: string, post: map<nat, string>, i: nat)
    requires i < |result.fields| && !IsChecked(result.fields[i].fieldType)
    ensures Validated(result, raw, post).fields[i] == result.fields[i]
  {
    if Validated(result, raw, post).fields[i] != result.fields[i] {
      ChangedFieldOffends(result, raw, post, i);
      assert false;
    }
  }

  /** A checked field whose posted value is "" or "0" is never changed. */
  lemma EmptyValueUntouched(result: ValidationResult, raw: string, post: map<nat, string>, i: nat)
    requires i < |result.fields| && IsEmpty(SubmittedValue(post, result.fields[i].id))
    ensures Validated(result, raw, post).fields[i] == result.fields[i]
  {
    if Validated(result, raw, post).fields[i] != result.fields[i] {
      ChangedFieldOffends(result, raw, post, i);
      assert false;
    }
  }

  /** At most one field is changed, whatever the input. */
  lemma AtMostOneChanged(result: ValidationResult, raw: string, post: map<nat, string>, i: nat, j: nat)
    requires i < |result.fields| && j < |result.fields|
    requires Validated(result, raw, post).fields[i] != result.fields[i]
    requires Validated(result, raw, post).fields[j] != result.fields[j]
    ensures i == j
  {
    ChangedFieldOffends(result, raw, post, i);
    ChangedFieldOffends(result, raw, post, j);
  }

  /**
   * `is_valid` ends false exactly when it came in false or some field
   * offends a keyword of a non-empty option; the callback never sets it to
   * true.
   */
  lemma IsValidExactly(result: ValidationResult, raw: string, post: map<nat, string>)
    ensures Validated(result, raw, post).isValid <==>
            result.isValid &&
            (IsEmpty(raw) || forall j :: 0 <= j < |result.fields| ==> !Offends(result.fields[j], Normalize(raw), post))
    ensures Validated(result, raw, post).isValid ==> result.isValid
  {
    if !IsEmpty(raw) && Normalize(raw) == [] {
      forall j | 0 <= j < |result.fields| ensures !Offends(result.fields[j], Normalize(raw), post) {
      }
    }
  }

  /**
   * Running the callback on its own result changes nothing more: the same
   * field offends first, and marking it again gives the same field.
   */
  lemma ValidatedIdempotent(result: ValidationResult, raw: string, post: map<nat, string>)
    ensures Validated(Validated(result, raw, post), raw, post) == Validated(result, raw, post)
  {
    if !IsEmpty(raw) && Normalize(raw) != [] {
      var keywords := Normalize(raw);
      var once := Validated(result, raw, post);
      match FirstOffending(result.fields, keywords, post)
      case None =>
      case Some(i) =>
        forall j | 0 <= j < |once.fields| ensures Offends(once.fields[j], keywords, post) == Offends(result.fields[j], keywords, post) {
          assert once.fields[j].id == result.fields[j].id && once.fields[j].fieldType == result.fields[j].fieldType;
        }
        FirstOffendingIs(once.fields, keywords, post, i);
    }
  }

  /**
   * Matching is by substring and ignores case: "spam" is found in "Spammer",
   * so an email field posting "Spammer@example.com" offends the keyword "spam".
   */
  lemma SubstringNotWord()
    ensures ContainsCI("Spammer", "spam")
    ensures ContainsCI("I am a spammer", "spam")
    ensures Offends(Field(3, "email", false, ""), ["spam"], map[3 := "Spammer@example.com"])
  {
    assert MatchesAt("Spammer", "spam", 0);
    assert MatchesAt("I am a spammer", "spam", 7);
    assert SubmittedValue(map[3 := "Spammer@example.com"], 3) == "Spammer@example.com";
    assert MatchesAt("Spammer@example.com", "spam", 0);
    assert ContainsCI("Spammer@example.com", ["spam"][0]);
  }

  lemma ExampleLinesKept()
    ensures DropEmpty(TrimAll(["viagra", "casino"])) == ["viagra", "casino"]
  {
    assert TrimLeft("viagra") == "viagra" && TrimRight("viagra") == "viagra";
    assert TrimLeft("casino") == "casino" && TrimRight("casino") == "casino";
  }

  lemma ExampleKeywords()
    ensures Normalize("viagra\ncasino") == ["viagra", "casino"]
  {
    assert Implode(["viagra", "casino"]) == "viagra\ncasino";
    NormalizeLines(["viagra", "casino"]);
    ExampleLinesKept();
  }

  lemma ExampleEmailOffends(keywords: seq<string>, post: map<nat, string>)
    requires keywords == ["viagra", "casino"]
    requires post == map[1 := "buy@viagra-deals.com", 2 := "hello casino world"]
    ensures Offends(Field(1, "email", false, ""), keywords, post)
  {
    assert SubmittedValue(post, 1) == "buy@viagra-deals.com";
    assert MatchesAt("buy@viagra-deals.com", "viagra", 4);
    assert ContainsCI("buy@viagra-deals.com", keywords[0]);
  }

  /**
   * Two keywords, an email field containing the first and a text field
   * containing the second: only the email field is marked, because the scan
   * stops at the first match. `ExampleKeywords` shows that the option value
   * "viagra\ncasino" gives these keywords.
   */
  lemma FirstMatchOnlyExample(raw: string, post: map<nat, string>)
    requires !IsEmpty(raw) && Normalize(raw) == ["viagra", "casino"]
    requires post == map[1 := "buy@viagra-deals.com", 2 := "hello casino world"]
    ensures
      var email := Field(1, "email", false, "");
      var text := Field(2, "text", false, "");
      Validated(ValidationResult(true, [email, text]), raw, post) ==
      ValidationResult(false, [MarkFailed(email), text])
  {
    var email := Field(1, "email", false, "");
    var text := Field(2, "text", false, "");
    var result := ValidationResult(true, [email, text]);
    ExampleEmailOffends(Normalize(raw), post);
    FirstOffenderMarked(result, raw, post, 0);
    assert [email, text][0 := MarkFailed(email)] == [MarkFailed(email), text];
  }

  /**
   * The same two-field form run through the callback itself: the email field
   * comes back marked, the text field unchanged, and `is_valid` false.
   */
  method FirstMatchOnlyRun(raw: string, post: map<nat, string>) returns (isValidOut: bool, fieldsOut: seq<Field>)
    requires !IsEmpty(raw) && Normalize(raw) == ["viagra", "casino"]
    requires post == map[1 := "buy@viagra-deals.com", 2 := "hello casino world"]
    ensures !isValidOut
    ensures fieldsOut == [MarkFailed(Field(1, "email", false, "")), Field(2, "text", false, "")]
  {
    var fields := new Field[2];
    fields[0] := Field(1, "email", false, "");
    fields[1] := Field(2, "text", false, "");
    FirstMatchOnlyExample(raw, post);
    assert fields[..] == [Field(1, "email", false, ""), Field(2, "text", false, "")];
    isValidOut := ValidateForDisallowedKeywords(true, fields, raw, post);
    fieldsOut := fields[..];
  }
}
