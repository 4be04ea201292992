/** `useFormValidation`: a form's values, the errors shown for it and the set
    of fields the user has touched, with the change, blur, submit and reset
    handlers. Field names and values are strings; the validator, when there is
    one, maps the values to an error message per failing field. */
module FormValidation {
  import opened Wrappers
  import opened Strings

  type Values = map<string, string>
  type Errors = map<string, string>

  datatype FormState = FormState(values: Values, errors: Errors, touched: set<string>)

  /** The state the hook starts from: the initial values, no errors, nothing
      touched. */
  function Init(initial: Values): (s: FormState)
    ensures s.values == initial && s.errors == map[] && s.touched == {}
  {
    FormState(initial, map[], {})
  }

  /** `errors[name]` is truthy: present and non-empty. */
  predicate HasError(errors: Errors, name: string) {
    name in errors && Truthy(errors[name])
  }

  /** `handleChange(name, value)`: sets that field's value and clears that
      field's error when it is showing one; nothing else changes. */
  function Change(s: FormState, name: string, value: string): (r: FormState)
    ensures name in r.values && r.values[name] == value
    ensures forall k :: k != name ==> (k in r.values <==> k in s.values)
    ensures forall k :: k != name && k in s.values ==> r.values[k] == s.values[k]
    ensures !HasError(r.errors, name)
    ensures name in r.errors <==> name in s.errors && !HasError(s.errors, name)
    ensures forall k :: k != name ==> (k in r.errors <==> k in s.errors)
    ensures forall k :: k != name && k in s.errors ==> r.errors[k] == s.errors[k]
    ensures r.touched == s.touched
  {
    var errors := if HasError(s.errors, name) then s.errors - {name} else s.errors;
    FormState(s.values[name := value], errors, s.touched)
  }

  /** `handleBlur(name)`: marks the field touched and, with a validator that
      reports a truthy error for it, shows that error; no other field's error
      changes. */
  function Blur(s: FormState, name: string, validate: Option<Values -> Errors>): (r: FormState)
    ensures r.touched == s.touched + {name}
    ensures r.values == s.values
    ensures forall k :: k != name ==> (k in r.errors <==> k in s.errors)
    ensures forall k :: k != name && k in s.errors ==> r.errors[k] == s.errors[k]
    ensures validate.Some? && HasError(validate.value(s.values), name) ==>
              name in r.errors && r.errors[name] == validate.value(s.values)[name]
    ensures !(validate.Some? && HasError(validate.value(s.values), name)) ==>
              (name in r.errors <==> name in s.errors)
              && (name in s.errors ==> r.errors[name] == s.errors[name])
  {
    var touched := s.touched + {name};
    if validate.Some? && HasError(validate.value(s.values), name) then
      FormState(s.values, s.errors[name := validate.value(s.values)[name]], touched)
    else
      FormState(s.values, s.errors, touched)
  }

  /** `handleSubmit(onSubmit)`: with a validator, the errors become its full
      result, every value key is touched, and the values are submitted only if
      the result has no key at all; without one, the values are submitted and
      the state is left alone. */
  function Submit(s: FormState, validate: Option<Values -> Errors>): (r: (FormState, Option<Values>))
    ensures r.0.values == s.values
    ensures validate.Some? ==> r.0.errors == validate.value(s.values)
    ensures validate.Some? ==> r.0.touched == s.values.Keys
    ensures validate.None? ==> r.0 == s
    ensures r.1.Some? <==> validate.None? || |validate.value(s.values)| == 0
    ensures r.1.Some? ==> r.1.value == s.values
  {
    match validate
    case None => (s, Some(s.values))
    case Some(v) =>
      var errors := v(s.values);
      (FormState(s.values, errors, s.values.Keys), if |errors| == 0 then Some(s.values) else None)
  }

  /** `reset()`: the initial values again, with no errors and nothing touched. */
  function Reset(s: FormState, initial: Values): (r: FormState)
    ensures r == Init(initial)
  {
    FormState(initial, map[], {})
  }

  /** An error shown on blur is cleared by the next change to that field, and
      the other fields keep theirs. */
  lemma ChangeClearsBlurError(s: FormState, name: string, value: string, v: Values -> Errors)
    requires HasError(v(s.values), name)
    ensures HasError(Blur(s, name, Some(v)).errors, name)
    ensures !HasError(Change(Blur(s, name, Some(v)), name, value).errors, name)
  {
  }

  /** A submit that goes through leaves every field touched and no error at
      all; one that does not leaves at least one error key. */
  lemma SubmitOutcomeMatchesErrors(s: FormState, v: Values -> Errors)
    ensures var r := Submit(s, Some(v));
            (r.1.Some? ==> r.0.errors == map[]) && (r.1.None? ==> |r.0.errors| > 0)
            && (forall k :: k in s.values ==> k in r.0.touched)
  {
  }

  /** Reset undoes any run of edits: the state is the initial one again. */
  lemma ResetAfterEdits(initial: Values, name: string, value: string, v: Option<Values -> Errors>)
    ensures Reset(Blur(Change(Init(initial), name, value), name, v), initial) == Init(initial)
  {
  }
}
