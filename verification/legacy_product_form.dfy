/**
 * The older `CreateProductComponent` under `products/`: create only, every
 * control editable, and a group validator `validateDates` that checks the
 * release against today and the revision against the release plus one year
 * on every change of any control.
 */
module LegacyProductForm {
  import opened Wrappers
  import opened Calendar
  import IsoDate
  import opened Forms

  /** The start of the Unix epoch, which `new Date(null)` denotes. */
  const Epoch := Date(1970, 1, 1)

  /**
   * `new Date(value)` on a control value: `null` is the epoch, a `YYYY-MM-DD`
   * string is that day, anything else (the empty string included) is
   * Invalid Date, modelled as `None`.
   */
  function JsDate(value: Option<string>): (r: Option<Date>)
    ensures value == None ==> r == Some(Epoch)
    ensures value.Some? ==> r == IsoDate.Parse(value.value)
    ensures r.Some? ==> Valid(r.value)
  {
    match value
    case None => Some(Epoch)
    case Some(s) => IsoDate.Parse(s)
  }

  /** `releaseDate < today`: an Invalid Date compares false. */
  predicate ReleaseInThePast(release: Option<Date>, today: Date) {
    release.Some? && Before(release.value, today)
  }

  /**
   * `revisionDate.getTime() !== oneYearAfter.getTime()`: an Invalid Date on
   * either side yields NaN, which differs from everything.
   */
  predicate RevisionMismatches(release: Option<Date>, revision: Option<Date>) {
    !(release.Some? && revision.Some? && Valid(release.value) && revision.value == AddOneYear(release.value))
  }

  /** A run of the group validator: the controls it touched and the group-level result. */
  datatype DateCheck = DateCheck(form: Form, groupErrors: Option<Errors>)

  /**
   * `validateDates`: a past release gets `invalidRelease`, otherwise an
   * `invalidRelease` it carries is cleared and its other errors kept; a
   * revision that is not the release plus one year gets `invalidRevision`,
   * otherwise an `invalidRevision` it carries is cleared. It returns `null`,
   * so the group itself never has an error.
   */
  function ValidateDates(form: Form, today: Date): (r: DateCheck)
    ensures r.groupErrors == None
    ensures forall f :: f != DateRelease && f != DateRevision ==> r.form.Get(f) == form.Get(f)
    ensures r.form.dateRelease == form.dateRelease.(errors := r.form.dateRelease.errors)
    ensures r.form.dateRevision == form.dateRevision.(errors := r.form.dateRevision.errors)
    ensures ReleaseInThePast(JsDate(form.dateRelease.value), today) ==> r.form.dateRelease.errors == ReleaseInPast
    ensures !ReleaseInThePast(JsDate(form.dateRelease.value), today) ==>
              r.form.dateRelease.errors ==
                (if form.dateRelease.errors.invalidRelease then NoErrors else form.dateRelease.errors)
    ensures RevisionMismatches(JsDate(form.dateRelease.value), JsDate(form.dateRevision.value)) ==>
              r.form.dateRevision.errors == RevisionMismatch
    ensures !RevisionMismatches(JsDate(form.dateRelease.value), JsDate(form.dateRevision.value)) ==>
              r.form.dateRevision.errors ==
                (if form.dateRevision.errors.invalidRevision then NoErrors else form.dateRevision.errors)
  {
    var release := JsDate(form.dateRelease.value);
    var revision := JsDate(form.dateRevision.value);
    var releaseErrors :=
      if ReleaseInThePast(release, today) then ReleaseInPast
      else if form.dateRelease.errors.invalidRelease then NoErrors
      else form.dateRelease.errors;
    var revisionErrors :=
      if RevisionMismatches(release, revision) then RevisionMismatch
      else if form.dateRevision.errors.invalidRevision then NoErrors
      else form.dateRevision.errors;
    DateCheck(
      form.Set(DateRelease, form.dateRelease.(errors := releaseErrors))
          .Set(DateRevision, form.dateRevision.(errors := revisionErrors)),
      None)
  }

  /** Running the group validator again on its own output changes nothing. */
  lemma ValidateDatesIdempotent(form: Form, today: Date)
    ensures ValidateDates(ValidateDates(form, today).form, today) == ValidateDates(form, today)
  {
  }

  /** A valid form has a release from today on and a revision exactly one year after it. */
  lemma ValidFormHasConsistentDates(form: Form, today: Date)
    requires IsValid(ValidateDates(form, today).form)
    requires !form.dateRelease.disabled && !form.dateRevision.disabled
    ensures JsDate(form.dateRelease.value).Some? && !Before(JsDate(form.dateRelease.value).value, today)
    ensures JsDate(form.dateRevision.value) == Some(AddOneYear(JsDate(form.dateRelease.value).value))
  {
    var r := ValidateDates(form, today).form;
    assert !Invalid(r.Get(DateRelease)) && !Invalid(r.Get(DateRevision));
  }

  /** A release typed as today's date is never flagged as in the past. */
  lemma ReleaseOfTodayKept(form: Form, today: Date)
    requires Valid(today) && 0 <= today.year <= 9999
    requires form.dateRelease.value == Some(IsoDate.Format(today))
    ensures !ValidateDates(form, today).form.dateRelease.errors.invalidRelease
  {
    IsoDate.ParseFormat(today);
  }

  /** A revision typed as exactly one year after the release is never flagged. */
  lemma OneYearLaterKept(form: Form, today: Date, release: Date)
    requires Valid(release) && 0 <= release.year < 9999
    requires form.dateRelease.value == Some(IsoDate.Format(release))
    requires form.dateRevision.value == Some(IsoDate.Format(AddOneYear(release)))
    ensures !ValidateDates(form, today).form.dateRevision.errors.invalidRevision
  {
    IsoDate.ParseFormat(release);
    IsoDate.ParseFormat(AddOneYear(release));
  }

  /** `ngOnInit`: six enabled controls holding `''`; building the group runs `validateDates` once. */
  function Build(today: Date): (r: Form)
    ensures forall f :: r.Get(f).value == Some([]) && !r.Get(f).disabled && !r.Get(f).touched && !r.Get(f).dirty
    ensures r.dateRevision.errors == RevisionMismatch
    ensures r.dateRelease.errors == Validate(DateRelease, [])
    ensures !IsValid(r)
  {
    var r := ValidateDates(BlankForm(false), today).form;
    assert Invalid(r.Get(DateRelease));
    r
  }

  /**
   * The user types `v` into control `f`: it becomes dirty and re-validates,
   * then the parent group runs `validateDates`.
   */
  function OnInput(form: Form, f: Field, v: string, today: Date): (r: Form)
    ensures r.Get(f).value == Some(v) && r.Get(f).dirty
    ensures f != DateRelease && f != DateRevision ==> r.Get(f) == SetValue(f, form.Get(f).(dirty := true), Some(v))
    ensures forall g :: g != f ==> r.Get(g).value == form.Get(g).value
  {
    ValidateDates(form.Set(f, SetValue(f, form.Get(f).(dirty := true), Some(v))), today).form
  }

  /** The user leaves control `f`: it becomes touched; validity is not re-run. */
  function OnBlur(form: Form, f: Field): (r: Form)
    ensures r.Get(f) == form.Get(f).(touched := true)
    ensures forall g :: g != f ==> r.Get(g) == form.Get(g)
  {
    form.Set(f, form.Get(f).(touched := true))
  }

  /** The create request a submit issues, if any. */
  datatype Request = NoRequest | Create(payload: map<Field, Option<string>>)

  datatype Step = Step(form: Form, request: Request)

  /**
   * `onSubmit`: an invalid form marks every control touched and calls
   * nothing; a valid one sends `value` to create.
   */
  function Submit(form: Form): (r: Step)
    ensures !IsValid(form) ==> r == Step(MarkAllAsTouched(form), NoRequest)
    ensures IsValid(form) ==> r == Step(form, Create(FormValue(form)))
    ensures (forall f :: !form.Get(f).disabled) && r.request.Create? ==> r.request.payload == RawValue(form)
  {
    if IsValid(form) then
      ValueIsRawWhenAllEnabledIf(form);
      Step(form, Create(FormValue(form)))
    else Step(MarkAllAsTouched(form), NoRequest)
  }

  lemma ValueIsRawWhenAllEnabledIf(form: Form)
    ensures (forall f :: !form.Get(f).disabled) ==> FormValue(form) == RawValue(form)
  {
    if forall f :: !form.Get(f).disabled {
      ValueIsRawWhenAllEnabled(form);
    }
  }

  datatype Response = Next(message: Option<string>) | Failure

  const AddedMessage := "Product added successfully"

  /** `onReset`, and the reset after a successful create: every control `null`, then `validateDates`. */
  function OnReset(form: Form, today: Date): (r: Form)
    ensures forall f :: r.Get(f).value == None && !r.Get(f).touched && !r.Get(f).dirty
    ensures forall f :: f != DateRelease && f != DateRevision ==> r.Get(f) == ResetControl(f, form.Get(f), None)
    ensures !form.dateRelease.disabled && Before(Epoch, today) ==> r.dateRelease.errors == ReleaseInPast
    ensures r.dateRevision.errors == RevisionMismatch
  {
    ValidateDates(Reset(form), today).form
  }

  /** The create handlers: only the exact success literal resets the form. */
  function OnResponse(form: Form, response: Response, today: Date): (r: Form)
    ensures response == Next(Some(AddedMessage)) ==> r == OnReset(form, today)
    ensures response != Next(Some(AddedMessage)) ==> r == form
  {
    if response == Next(Some(AddedMessage)) then OnReset(form, today) else form
  }

  const Priority: seq<ErrorKind> := [Required, MinLength, MaxLength, InvalidRelease, InvalidRevision]

  function Message(k: ErrorKind, e: Errors): (m: string)
    requires k != IdExists
    ensures m != []
  {
    match k
    case Required => "Este campo es obligatorio"
    case MinLength => "Mínimo " + DecimalString(e.minLength.GetOr(0)) + " caracteres"
    case MaxLength => "Máximo " + DecimalString(e.maxLength.GetOr(0)) + " caracteres"
    case InvalidRelease => "La fecha de liberación debe ser hoy o posterior"
    case InvalidRevision => "La fecha de revisión debe ser exactamente 1 año posterior a la liberación"
  }

  /**
   * `getFieldError(f)`: nothing unless the control is invalid and touched or
   * dirty; then the message of the first key present in the order required,
   * minlength, maxlength, invalidRelease, invalidRevision. An `idExists`
   * error alone yields nothing.
   */
  function GetFieldError(form: Form, f: Field): (r: string)
    ensures FirstPresent(form.Get(f).errors, Priority).Some? ==> FirstPresent(form.Get(f).errors, Priority).value != IdExists
    ensures r == if Shown(form.Get(f)) && FirstPresent(form.Get(f).errors, Priority).Some?
                 then Message(FirstPresent(form.Get(f).errors, Priority).value, form.Get(f).errors)
                 else []
    ensures r == [] <==> !Shown(form.Get(f)) || FirstPresent(form.Get(f).errors, Priority).None?
  {
    var c := form.Get(f);
    var e := c.errors;
    PriorityFirst(e);
    if Shown(c) then
      if e.required then Message(Required, e)
      else if e.minLength.Some? then Message(MinLength, e)
      else if e.maxLength.Some? then Message(MaxLength, e)
      else if e.invalidRelease then Message(InvalidRelease, e)
      else if e.invalidRevision then Message(InvalidRevision, e)
      else []
    else []
  }

  /** Unfolds the priority search over the five keys. */
  lemma PriorityFirst(e: Errors)
    ensures FirstPresent(e, Priority) ==
      if e.required then Some(Required)
      else if e.minLength.Some? then Some(MinLength)
      else if e.maxLength.Some? then Some(MaxLength)
      else if e.invalidRelease then Some(InvalidRelease)
      else if e.invalidRevision then Some(InvalidRevision)
      else None
  {
    var p4 := [InvalidRevision];
    var p3 := [InvalidRelease] + p4;
    var p2 := [MaxLength] + p3;
    var p1 := [MinLength] + p2;
    assert Priority == [Required] + p1;
    assert FirstPresent(e, p4) == if e.invalidRevision then Some(InvalidRevision) else None by {
      assert p4[0] == InvalidRevision && p4[1..] == [];
    }
    assert FirstPresent(e, p3) == if e.invalidRelease then Some(InvalidRelease) else FirstPresent(e, p4) by {
      assert p3[0] == InvalidRelease && p3[1..] == p4;
    }
    assert FirstPresent(e, p2) == if e.maxLength.Some? then Some(MaxLength) else FirstPresent(e, p3) by {
      assert p2[0] == MaxLength && p2[1..] == p3;
    }
    assert FirstPresent(e, p1) == if e.minLength.Some? then Some(MinLength) else FirstPresent(e, p2) by {
      assert p1[0] == MinLength && p1[1..] == p2;
    }
    assert ([Required] + p1)[0] == Required && ([Required] + p1)[1..] == p1;
  }
}
