/**
 * The product form as the two form components build it with `FormBuilder`:
 * six fixed controls, their declared validators, and the parts of Angular's
 * control state the components read (value, errors, disabled, touched, dirty,
 * pending). A control's value is `Some(text)` or `None` for the `null` that
 * `reset()` leaves; the validators treat `null` like the empty string.
 */
module Forms {
  import opened Wrappers

  datatype Field = Id | Name | Description | Logo | DateRelease | DateRevision

  /** `Validators.minLength` per field, if any. */
  function LowerBound(f: Field): Option<nat> {
    match f
    case Id => Some(3)
    case Name => Some(5)
    case Description => Some(10)
    case _ => None
  }

  /** `Validators.maxLength` per field, if any. */
  function UpperBound(f: Field): Option<nat> {
    match f
    case Id => Some(10)
    case Name => Some(100)
    case Description => Some(200)
    case _ => None
  }

  /** The field table: every field is required; id, name and description are length-bounded. */
  predicate Conforms(f: Field, v: string) {
    match f
    case Id => 3 <= |v| <= 10
    case Name => 5 <= |v| <= 100
    case Description => 10 <= |v| <= 200
    case _ => |v| > 0
  }

  /** The keys of a control's `errors` map that the components know about. */
  datatype ErrorKind = Required | MinLength | MaxLength | IdExists | InvalidRelease | InvalidRevision

  /**
   * A control's `errors` map. `minLength` and `maxLength` carry the
   * `requiredLength` of the failing validator.
   */
  datatype Errors = Errors(
    required: bool,
    minLength: Option<nat>,
    maxLength: Option<nat>,
    idExists: bool,
    invalidRelease: bool,
    invalidRevision: bool)

  /** `errors === null`. */
  const NoErrors := Errors(false, None, None, false, false, false)

  /** `setErrors({idExists: true})`, `{invalidRelease: true}`, `{invalidRevision: true}`. */
  const IdTaken := NoErrors.(idExists := true)
  const ReleaseInPast := NoErrors.(invalidRelease := true)
  const RevisionMismatch := NoErrors.(invalidRevision := true)

  predicate Has(e: Errors, k: ErrorKind) {
    match k
    case Required => e.required
    case MinLength => e.minLength.Some?
    case MaxLength => e.maxLength.Some?
    case IdExists => e.idExists
    case InvalidRelease => e.invalidRelease
    case InvalidRevision => e.invalidRevision
  }

  /** An errors map is empty exactly when it has none of the known keys. */
  lemma NoErrorsIffNoKey(e: Errors)
    ensures e == NoErrors <==> forall k :: !Has(e, k)
  {
    if e != NoErrors {
      if e.required { assert Has(e, Required); }
      else if e.minLength.Some? { assert Has(e, MinLength); }
      else if e.maxLength.Some? { assert Has(e, MaxLength); }
      else if e.idExists { assert Has(e, IdExists); }
      else if e.invalidRelease { assert Has(e, InvalidRelease); }
      else { assert Has(e, InvalidRevision); }
    }
  }

  /** The merged result of a field's synchronous validators on value `v`. */
  function Validate(f: Field, v: string): (e: Errors)
    ensures e == NoErrors <==> Conforms(f, v)
    ensures e.required <==> v == []
    ensures e.minLength.Some? ==> e.minLength == LowerBound(f) && 0 < |v| < e.minLength.value
    ensures e.maxLength.Some? ==> e.maxLength == UpperBound(f) && |v| > e.maxLength.value
    ensures !e.idExists && !e.invalidRelease && !e.invalidRevision
  {
    var lo := LowerBound(f);
    var hi := UpperBound(f);
    Errors(
      v == [],
      if v != [] && lo.Some? && |v| < lo.value then lo else None,
      if hi.Some? && |v| > hi.value then hi else None,
      false, false, false)
  }

  /** The text a validator sees: `null` reads as the empty string. */
  function TextOf(v: Option<string>): string {
    v.GetOr([])
  }

  datatype Control = Control(
    value: Option<string>,
    errors: Errors,
    disabled: bool,
    touched: bool,
    dirty: bool,
    pending: bool)

  /** `control.invalid`: status INVALID, which a disabled control never has. */
  predicate Invalid(c: Control) {
    !c.disabled && c.errors != NoErrors
  }

  /** `control.pending`: an asynchronous check is running on an otherwise valid control. */
  predicate Pending(c: Control) {
    !c.disabled && c.errors == NoErrors && c.pending
  }

  /** A control as `FormBuilder` creates it from `[value, validators]`. */
  function NewControl(f: Field, v: string, disabled: bool): (c: Control)
    ensures c.value == Some(v) && c.disabled == disabled
    ensures !c.touched && !c.dirty && !c.pending
    ensures Invalid(c) <==> !disabled && !Conforms(f, v)
  {
    Control(Some(v), if disabled then NoErrors else Validate(f, v), disabled, false, false, false)
  }

  /**
   * `setValue(v)`: an enabled control re-runs its validators and cancels any
   * running check; a disabled one keeps its errors.
   */
  function SetValue(f: Field, c: Control, v: Option<string>): (r: Control)
    ensures r.value == v
    ensures r.disabled == c.disabled && r.touched == c.touched && r.dirty == c.dirty
    ensures !c.disabled ==> r.errors == Validate(f, TextOf(v)) && !r.pending
    ensures !c.disabled ==> (Invalid(r) <==> !Conforms(f, TextOf(v)))
    ensures c.disabled ==> r.errors == c.errors && r.pending == c.pending
  {
    if c.disabled then c.(value := v)
    else c.(value := v, errors := Validate(f, TextOf(v)), pending := false)
  }

  /** `reset(v)` on one control: new value, pristine and untouched, validators re-run if enabled. */
  function ResetControl(f: Field, c: Control, v: Option<string>): (r: Control)
    ensures r == SetValue(f, c, v).(touched := false, dirty := false)
  {
    SetValue(f, c, v).(touched := false, dirty := false)
  }

  /** `disable()`: status DISABLED and `errors` null; a disabled control is never pending. */
  function Disable(c: Control): (r: Control)
    ensures r.value == c.value && r.disabled && !Invalid(r) && !Pending(r)
  {
    c.(disabled := true, errors := NoErrors, pending := false)
  }

  const AllFields: seq<Field> := [Id, Name, Description, Logo, DateRelease, DateRevision]

  lemma AllFieldsListsEveryField()
    ensures forall f :: f in AllFields
  {
    forall f: Field ensures f in AllFields {
      match f
      case Id =>
      case Name =>
      case Description =>
      case Logo =>
      case DateRelease =>
      case DateRevision =>
    }
  }

  datatype Form = Form(
    id: Control,
    name: Control,
    description: Control,
    logo: Control,
    dateRelease: Control,
    dateRevision: Control)
  {
    /** `productForm.get(f)`. */
    function Get(f: Field): Control {
      match f
      case Id => id
      case Name => name
      case Description => description
      case Logo => logo
      case DateRelease => dateRelease
      case DateRevision => dateRevision
    }

    /** The same form with control `f` replaced, and nothing else changed. */
    function Set(f: Field, c: Control): (r: Form)
      ensures r.Get(f) == c
      ensures forall g :: g != f ==> r.Get(g) == Get(g)
    {
      match f
      case Id => this.(id := c)
      case Name => this.(name := c)
      case Description => this.(description := c)
      case Logo => this.(logo := c)
      case DateRelease => this.(dateRelease := c)
      case DateRevision => this.(dateRevision := c)
    }
  }

  /** Builds a form by applying `make` to every field. */
  function FormOf(make: Field -> Control): (r: Form)
    ensures forall f :: r.Get(f) == make(f)
  {
    Form(make(Id), make(Name), make(Description), make(Logo), make(DateRelease), make(DateRevision))
  }

  /** The form `fb.group` builds: every control `''` and validated by the field table. */
  function BlankForm(revisionDisabled: bool): (r: Form)
    ensures forall f :: r.Get(f).value == Some([]) && !r.Get(f).touched && !r.Get(f).dirty && !r.Get(f).pending
    ensures forall f :: r.Get(f).disabled <==> f == DateRevision && revisionDisabled
    ensures forall f :: !r.Get(f).disabled ==> r.Get(f).errors == Validate(f, [])
  {
    FormOf(f => NewControl(f, [], f == DateRevision && revisionDisabled))
  }

  /** The group status VALID: some control enabled, and none invalid or pending. */
  predicate IsValid(form: Form) {
    && (exists f :: !form.Get(f).disabled)
    && (forall f :: !Invalid(form.Get(f)) && !Pending(form.Get(f)))
  }

  /** The group is valid once every control is settled and one of them is enabled. */
  lemma ValidFromControls(form: Form)
    requires !Invalid(form.id) && !Pending(form.id) && !Invalid(form.name) && !Pending(form.name)
    requires !Invalid(form.description) && !Pending(form.description) && !Invalid(form.logo) && !Pending(form.logo)
    requires !Invalid(form.dateRelease) && !Pending(form.dateRelease)
    requires !Invalid(form.dateRevision) && !Pending(form.dateRevision)
    requires !form.name.disabled
    ensures IsValid(form)
  {
    assert !form.Get(Name).disabled;
    forall f ensures !Invalid(form.Get(f)) && !Pending(form.Get(f)) {
      match f
      case Id =>
      case Name =>
      case Description =>
      case Logo =>
      case DateRelease =>
      case DateRevision =>
    }
  }

  /** `markAllAsTouched()`: every control touched, disabled ones included, nothing else changed. */
  function MarkAllAsTouched(form: Form): (r: Form)
    ensures forall f :: r.Get(f) == form.Get(f).(touched := true)
  {
    FormOf(f => form.Get(f).(touched := true))
  }

  /** `reset()` of the whole group: every control `null`, pristine and untouched. */
  function Reset(form: Form): (r: Form)
    ensures forall f :: r.Get(f) == ResetControl(f, form.Get(f), None)
    ensures forall f :: r.Get(f).value == None && !r.Get(f).touched && !r.Get(f).dirty
    ensures forall f :: r.Get(f).disabled == form.Get(f).disabled
    ensures forall f :: !r.Get(f).disabled ==> Invalid(r.Get(f))
  {
    FormOf(f => ResetControl(f, form.Get(f), None))
  }

  /** `getRawValue()`: every field's value, disabled ones included. */
  function RawValue(form: Form): (m: map<Field, Option<string>>)
    ensures forall f :: f in m && m[f] == form.Get(f).value
  {
    AllFieldsListsEveryField();
    map f | f in AllFields :: form.Get(f).value
  }

  /** `value`: the enabled fields' values, or all of them when every control is disabled. */
  function FormValue(form: Form): (m: map<Field, Option<string>>)
    ensures forall f :: f in m <==> !form.Get(f).disabled || (forall g :: form.Get(g).disabled)
    ensures forall f :: f in m ==> m[f] == form.Get(f).value
  {
    var all := forall g :: form.Get(g).disabled;
    AllFieldsListsEveryField();
    map f | f in AllFields && (!form.Get(f).disabled || all) :: form.Get(f).value
  }

  /** When no control is disabled, `value` and `getRawValue()` agree. */
  lemma ValueIsRawWhenAllEnabled(form: Form)
    requires forall f :: !form.Get(f).disabled
    ensures FormValue(form) == RawValue(form)
  {
  }

  /** `getFieldError` shows a message only for an invalid control the user has touched or edited. */
  predicate Shown(c: Control) {
    Invalid(c) && (c.touched || c.dirty)
  }

  /** The first key of `order` present in `e`, if any. */
  function FirstPresent(e: Errors, order: seq<ErrorKind>): (r: Option<ErrorKind>)
    ensures r.None? <==> forall i :: 0 <= i < |order| ==> !Has(e, order[i])
    ensures r.Some? ==> exists i :: 0 <= i < |order| && order[i] == r.value && Has(e, order[i])
                                    && forall j :: 0 <= j < i ==> !Has(e, order[j])
  {
    if |order| == 0 then None
    else if Has(e, order[0]) then Some(order[0])
    else
      var r := FirstPresent(e, order[1..]);
      assert forall i :: 1 <= i < |order| ==> order[i] == order[1..][i - 1];
      r
  }

  /** Decimal digits of `n`, for the `requiredLength` in a message. */
  function DecimalString(n: nat): (s: string)
    ensures |s| > 0
    ensures forall i :: 0 <= i < |s| ==> '0' <= s[i] <= '9'
  {
    var last := [('0' as int + n % 10) as char];
    if n < 10 then last else DecimalString(n / 10) + last
  }
}
