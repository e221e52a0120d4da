/**
 * The routed `CreateProductComponent` that serves both `new-product` and
 * `edit-product/:id`: it picks create or edit mode from the route, derives the
 * revision date from the release date, checks the id against the service,
 * and turns a submit into a create or update request.
 */
module ProductEditor {
  import opened Wrappers
  import opened Calendar
  import IsoDate
  import opened Catalog
  import IdCheck
  import Text
  import opened Forms

  datatype Editor = Editor(
    form: Form,
    isEditMode: bool,
    productId: Option<string>,
    idParam: Option<string>)

  /** `if (this.idParam)`: the route parameter is present and not empty. */
  predicate IsEditRoute(idParam: Option<string>) {
    idParam.Some? && idParam.value != []
  }

  /**
   * Angular starts the asynchronous id check after the synchronous validators
   * of an enabled `id` pass. A value the check's guard rejects resolves at once
   * to no error; any other value leaves the control pending on the service.
   */
  function StartIdCheck(c: Control): (r: Control)
    ensures r.value == c.value && r.errors == c.errors && r.disabled == c.disabled
    ensures r.touched == c.touched && r.dirty == c.dirty
    ensures r.pending <==> c.pending || (!c.disabled && c.errors == NoErrors && !IdCheck.TooShort(TextOf(c.value)))
  {
    if c.disabled || c.errors != NoErrors || IdCheck.TooShort(TextOf(c.value)) then c
    else c.(pending := true)
  }

  /** `id.setValue(v)` with the asynchronous check it triggers. */
  function SetId(c: Control, v: Option<string>): (r: Control)
    ensures r.value == v && r.disabled == c.disabled
    ensures !c.disabled ==> (Invalid(r) <==> !Conforms(Id, TextOf(v)))
    ensures !c.disabled ==> (r.pending <==> Conforms(Id, TextOf(v)) && !IdCheck.TooShort(TextOf(v)))
  {
    StartIdCheck(SetValue(Id, c, v))
  }

  /**
   * Constructor and `ngOnInit`: the mode comes from the route parameter, the
   * form from the field table with `date_revision` disabled, and in edit mode
   * `id` is patched with the parameter.
   */
  function Open(idParam: Option<string>): (e: Editor)
    ensures e.idParam == idParam
    ensures e.isEditMode <==> IsEditRoute(idParam)
    ensures e.isEditMode ==> e.productId == idParam && e.form.id.value == idParam
    ensures !e.isEditMode ==> e.productId == None && e.form.id.value == Some([])
    ensures forall f :: f != Id ==> e.form.Get(f).value == Some([])
    ensures forall f :: e.form.Get(f).disabled <==> f == DateRevision
    ensures forall f :: f != DateRevision ==> (Invalid(e.form.Get(f)) <==> !Conforms(f, TextOf(e.form.Get(f).value)))
    ensures forall f :: !e.form.Get(f).touched && !e.form.Get(f).dirty
  {
    var blank := BlankForm(true);
    if IsEditRoute(idParam) then
      Editor(blank.Set(Id, SetId(blank.id, idParam)), true, idParam, idParam)
    else
      Editor(blank, false, None, idParam)
  }

  /** How the release rule reads the release value: `if (value)`, then `new Date(value)`. */
  datatype ReleaseReading = Blank | NotADate | InPast(release: Date) | Accepted(release: Date)

  function ReadRelease(value: Option<string>, today: Date): (k: ReleaseReading)
    ensures k.Blank? <==> TextOf(value) == []
    ensures k.NotADate? <==> TextOf(value) != [] && IsoDate.Parse(TextOf(value)).None?
    ensures k.InPast? <==> IsoDate.Parse(TextOf(value)).Some? && Before(IsoDate.Parse(TextOf(value)).value, today)
    ensures k.Accepted? <==> IsoDate.Parse(TextOf(value)).Some? && !Before(IsoDate.Parse(TextOf(value)).value, today)
    ensures k.InPast? || k.Accepted? ==> IsoDate.Parse(TextOf(value)) == Some(k.release)
  {
    if TextOf(value) == [] then Blank
    else match IsoDate.Parse(TextOf(value))
      case None => NotADate
      case Some(d) => if Before(d, today) then InPast(d) else Accepted(d)
  }

  /** `date_revision.setValue(text)`; nothing else changes. */
  function WriteRevision(form: Form, text: string): (r: Form)
    ensures r.dateRevision.value == Some(text) && r.dateRevision.disabled == form.dateRevision.disabled
    ensures forall f :: f != DateRevision ==> r.Get(f) == form.Get(f)
  {
    form.Set(DateRevision, SetValue(DateRevision, form.dateRevision, Some(text)))
  }

  /** `date_release.setErrors(errors)`; nothing else changes. */
  function SetReleaseErrors(form: Form, errors: Errors): (r: Form)
    ensures r.dateRelease == form.dateRelease.(errors := errors)
    ensures forall f :: f != DateRelease ==> r.Get(f) == form.Get(f)
  {
    form.Set(DateRelease, form.dateRelease.(errors := errors))
  }

  /**
   * The `date_release` value-change subscription. A blank release blanks the
   * revision. A release before `today` is flagged `invalidRelease` and blanks
   * the revision. Any other release clears the release's errors and sets the
   * revision to one year later. A string that is not a date reaches
   * `toISOString`, which throws before anything changes.
   */
  function ReleaseRule(form: Form, today: Date): (r: Form)
    ensures r.dateRelease == form.dateRelease.(errors := r.dateRelease.errors)
    ensures forall f :: f != DateRelease && f != DateRevision ==> r.Get(f) == form.Get(f)
    ensures r.dateRevision.disabled == form.dateRevision.disabled
    ensures ReadRelease(form.dateRelease.value, today).Blank? ==>
              r.dateRelease == form.dateRelease && r.dateRevision.value == Some([])
    ensures ReadRelease(form.dateRelease.value, today).NotADate? ==> r == form
    ensures ReadRelease(form.dateRelease.value, today).InPast? ==>
              r.dateRelease.errors == ReleaseInPast && r.dateRevision.value == Some([])
    ensures ReadRelease(form.dateRelease.value, today).Accepted? ==>
              r.dateRelease.errors == NoErrors
              && r.dateRevision.value == Some(IsoDate.Format(AddOneYear(ReadRelease(form.dateRelease.value, today).release)))
    ensures r.dateRelease.errors.invalidRelease && !form.dateRelease.errors.invalidRelease ==>
              ReadRelease(form.dateRelease.value, today).InPast?
  {
    match ReadRelease(form.dateRelease.value, today)
    case Blank => WriteRevision(form, [])
    case NotADate => form
    case InPast(_) => SetReleaseErrors(WriteRevision(form, []), ReleaseInPast)
    case Accepted(release) => SetReleaseErrors(WriteRevision(form, IsoDate.Format(AddOneYear(release))), NoErrors)
  }

  /** An accepted release's revision parses back to exactly one year later. */
  lemma AcceptedRevisionParses(form: Form, today: Date, release: Date)
    requires ReadRelease(form.dateRelease.value, today) == Accepted(release)
    requires release.year < 9999
    ensures IsoDate.Parse(TextOf(ReleaseRule(form, today).dateRevision.value)) == Some(AddOneYear(release))
  {
    IsoDate.ParseFormat(AddOneYear(release));
  }

  /** A release dated today is accepted: only earlier days are in the past. */
  lemma ReleaseOfTodayAccepted(today: Date)
    requires Valid(today) && 0 <= today.year <= 9999
    ensures ReadRelease(Some(IsoDate.Format(today)), today) == Accepted(today)
  {
    IsoDate.ParseFormat(today);
  }

  /** Re-running the rule on the state it produced changes nothing. */
  lemma ReleaseRuleIdempotent(form: Form, today: Date)
    ensures ReleaseRule(ReleaseRule(form, today), today) == ReleaseRule(form, today)
  {
  }

  /**
   * The user types `v` into control `f` (dirty, new value, validators re-run),
   * followed by the id check or the release rule for those controls. A
   * disabled control takes no input.
   */
  function OnInput(e: Editor, f: Field, v: string, today: Date): (r: Editor)
    ensures e.form.Get(f).disabled ==> r == e
    ensures r.isEditMode == e.isEditMode && r.productId == e.productId && r.idParam == e.idParam
    ensures !e.form.Get(f).disabled ==> r.form.Get(f).value == Some(v) && r.form.Get(f).dirty
    ensures forall g :: g != f && !(f == DateRelease && g == DateRevision) ==> r.form.Get(g) == e.form.Get(g)
    ensures !e.form.Get(f).disabled && f != DateRelease ==> (Invalid(r.form.Get(f)) <==> !Conforms(f, v))
    ensures !e.form.Get(f).disabled && f != Id ==> !r.form.Get(f).pending
    ensures !e.form.Get(f).disabled && f == Id ==> (r.form.id.pending <==> Conforms(Id, v) && !IdCheck.TooShort(v))
    ensures !e.form.Get(f).disabled && f == DateRelease && ReadRelease(Some(v), today).Accepted? ==>
              && r.form.dateRelease.errors == NoErrors
              && r.form.dateRevision.value == Some(IsoDate.Format(AddOneYear(ReadRelease(Some(v), today).release)))
              && r.form.dateRevision.disabled == e.form.dateRevision.disabled
  {
    var c := e.form.Get(f);
    if c.disabled then e
    else
      var typed := c.(dirty := true);
      var next := if f == Id then SetId(typed, Some(v)) else SetValue(f, typed, Some(v));
      var form := e.form.Set(f, next);
      e.(form := if f == DateRelease then ReleaseRule(form, today) else form)
  }

  /** The user leaves control `f`: it becomes touched. */
  function OnBlur(e: Editor, f: Field): (r: Editor)
    ensures r.form.Get(f) == e.form.Get(f).(touched := true)
    ensures forall g :: g != f ==> r.form.Get(g) == e.form.Get(g)
    ensures r.isEditMode == e.isEditMode && r.productId == e.productId && r.idParam == e.idParam
  {
    e.(form := e.form.Set(f, e.form.Get(f).(touched := true)))
  }

  /**
   * The service answers the running id check: `{idExists: true}` for a known
   * id, otherwise no error. With no check running the answer belongs to a
   * superseded value and is ignored.
   */
  function ResolveIdCheck(e: Editor, answer: IdCheck.Oracle): (r: Editor)
    ensures !e.form.id.pending ==> r == e
    ensures e.form.id.pending ==> !r.form.id.pending && r.form.id.value == e.form.id.value
    ensures e.form.id.pending ==> (r.form.id.errors.idExists <==> answer == IdCheck.Exists)
    ensures e.form.id.pending && !e.form.id.disabled ==> (Invalid(r.form.id) <==> answer == IdCheck.Exists)
    ensures forall f :: f != Id ==> r.form.Get(f) == e.form.Get(f)
  {
    var c := e.form.id;
    if !c.pending then e
    else
      var errors := if IdCheck.Resolve(answer) == IdCheck.IdExists then IdTaken else NoErrors;
      e.(form := e.form.Set(Id, c.(errors := errors, pending := false)))
  }

  /**
   * `loadProduct`'s callback: `patchValue` of every field in declaration order
   * (so the release rule runs before the stored revision is written back),
   * then `id` is disabled.
   */
  function LoadProductArrived(e: Editor, p: Product, today: Date): (r: Editor)
    ensures e.productId.None? ==> r == e
    ensures e.productId.Some? ==>
              && r.form.id.value == e.productId && r.form.id.disabled && !Invalid(r.form.id)
              && r.form.name.value == Some(p.name) && r.form.description.value == Some(p.description)
              && r.form.logo.value == Some(p.logo) && r.form.dateRelease.value == Some(p.dateRelease)
              && r.form.dateRevision.value == Some(p.dateRevision)
    ensures e.productId.Some? && IsoDate.Parse(p.dateRelease).Some? && !e.form.dateRelease.disabled ==>
              (Invalid(r.form.dateRelease) <==> Before(IsoDate.Parse(p.dateRelease).value, today))
    ensures e.productId.Some? ==>
              forall f :: f in {Name, Description, Logo} ==> r.form.Get(f) == SetValue(f, e.form.Get(f), Some(ProductField(p, f)))
    ensures e.productId.Some? ==> r.form.dateRevision.disabled == e.form.dateRevision.disabled
    ensures e.productId.Some? && ReadRelease(Some(p.dateRelease), today).Accepted? && !e.form.dateRelease.disabled ==>
              r.form.dateRelease.errors == NoErrors && !r.form.dateRelease.pending
    ensures r.isEditMode == e.isEditMode && r.productId == e.productId && r.idParam == e.idParam
  {
    if e.productId.None? then e
    else
      var f1 := e.form.Set(Id, SetId(e.form.id, e.productId));
      var f2 := Patch(f1, Name, Some(p.name));
      var f3 := Patch(f2, Description, Some(p.description));
      var f4 := Patch(f3, Logo, Some(p.logo));
      var f5 := ReleaseRule(Patch(f4, DateRelease, Some(p.dateRelease)), today);
      var f6 := Patch(f5, DateRevision, Some(p.dateRevision));
      e.(form := f6.Set(Id, Disable(f6.id)))
  }

  /** The product's value for a field of the form. */
  function ProductField(p: Product, f: Field): string {
    match f
    case Id => p.id
    case Name => p.name
    case Description => p.description
    case Logo => p.logo
    case DateRelease => p.dateRelease
    case DateRevision => p.dateRevision
  }

  /** `form.get(f).setValue(v)` as part of `patchValue`; nothing else changes. */
  function Patch(form: Form, f: Field, v: Option<string>): (r: Form)
    ensures r.Get(f) == SetValue(f, form.Get(f), v)
    ensures forall g :: g != f ==> r.Get(g) == form.Get(g)
  {
    form.Set(f, SetValue(f, form.Get(f), v))
  }

  /** The gateway call a submit issues, if any. */
  datatype Request =
    | NoRequest
    | Create(payload: map<Field, Option<string>>)
    | Update(payload: map<Field, Option<string>>, key: Option<string>)

  datatype Step = Step(editor: Editor, request: Request)

  /**
   * `onSubmit`: an invalid (or still pending) form marks every control touched
   * and calls nothing; a valid one sends the raw value, disabled fields
   * included, to update (keyed by the route parameter) or create.
   */
  function Submit(e: Editor): (r: Step)
    ensures !IsValid(e.form) ==> r.request == NoRequest && r.editor == e.(form := MarkAllAsTouched(e.form))
    ensures IsValid(e.form) ==> r.editor == e
    ensures IsValid(e.form) && e.isEditMode ==> r.request == Update(RawValue(e.form), e.idParam)
    ensures IsValid(e.form) && !e.isEditMode ==> r.request == Create(RawValue(e.form))
    ensures r.request != NoRequest ==> forall f :: f in r.request.payload && r.request.payload[f] == e.form.Get(f).value
  {
    if IsValid(e.form) then
      Step(e, if e.isEditMode then Update(RawValue(e.form), e.idParam) else Create(RawValue(e.form)))
    else
      Step(e.(form := MarkAllAsTouched(e.form)), NoRequest)
  }

  /** The gateway's answer to a create or update: a body with an optional `message`, or an error. */
  datatype Response = Next(message: Option<string>) | Failure

  const UpdatedMessage := "Product updated successfully"
  const AddedMessage := "Product added successfully"

  /** The literal that marks success for the mode's request. */
  function SuccessMessage(isEditMode: bool): string {
    if isEditMode then UpdatedMessage else AddedMessage
  }

  /**
   * The request's `next` and `error` handlers: only the exact success literal
   * resets the form (a plain `reset()`, in both modes); anything else leaves
   * every field as it was.
   */
  function OnResponse(e: Editor, response: Response): (r: Editor)
    ensures response == Next(Some(SuccessMessage(e.isEditMode))) ==> r == e.(form := Reset(e.form))
    ensures response != Next(Some(SuccessMessage(e.isEditMode))) ==> r == e
  {
    match response
    case Next(Some(m)) => if m == SuccessMessage(e.isEditMode) then e.(form := Reset(e.form)) else e
    case Next(None) => e
    case Failure => e
  }

  /**
   * `onReset`: in edit mode every field is blanked except `id`, which gets the
   * product id back and stays disabled; in create mode every field is blanked.
   * (The release rule fires during the reset, but the revision is reset after it.)
   */
  function OnReset(e: Editor): (r: Editor)
    ensures r.isEditMode == e.isEditMode && r.productId == e.productId && r.idParam == e.idParam
    ensures forall f :: !r.form.Get(f).touched && !r.form.Get(f).dirty
    ensures forall f :: f != Id ==> r.form.Get(f) == ResetControl(f, e.form.Get(f), None)
    ensures e.isEditMode ==> r.form.id.value == e.productId && r.form.id.disabled && !Invalid(r.form.id)
    ensures !e.isEditMode ==> r.form == Reset(e.form)
  {
    if e.isEditMode then
      var form := FormOf(f => ResetControl(f, e.form.Get(f), if f == Id then e.productId else None));
      e.(form := form.Set(Id, Disable(StartIdCheck(form.id))))
    else
      e.(form := Reset(e.form))
  }

  const Priority: seq<ErrorKind> := [Required, MinLength, MaxLength, IdExists, InvalidRelease, InvalidRevision]

  /** The message for each error key. */
  function Message(k: ErrorKind, e: Errors): (m: string)
    ensures m != []
  {
    match k
    case Required => "Este campo es requerido!"
    case MinLength => "Mínimo " + Forms.DecimalString(e.minLength.GetOr(0)) + " caracteres!"
    case MaxLength => "Máximo " + Forms.DecimalString(e.maxLength.GetOr(0)) + " caracteres"
    case IdExists => "ID no válido!"
    case InvalidRelease => "La fecha de liberación debe ser hoy o posterior!"
    case InvalidRevision => "La fecha de revisión debe ser exactamente 1 año posterior a la liberación!"
  }

  /**
   * `getFieldError(f)`: nothing unless the control is invalid and touched or
   * dirty; then the message of the first key present in the priority order
   * required, minlength, maxlength, idExists, invalidRelease, invalidRevision.
   */
  function GetFieldError(form: Form, f: Field): (r: string)
    ensures r == if Shown(form.Get(f)) && FirstPresent(form.Get(f).errors, Priority).Some?
                 then Message(FirstPresent(form.Get(f).errors, Priority).value, form.Get(f).errors)
                 else []
    ensures r == [] <==> !Shown(form.Get(f)) || FirstPresent(form.Get(f).errors, Priority).None?
  {
    var c := form.Get(f);
    var e := c.errors;
    PriorityFirst(e);
    if Shown(c) then
      if e.required then Message(Required, e)
      else if e.minLength.Some? then Message(MinLength, e)
      else if e.maxLength.Some? then Message(MaxLength, e)
      else if e.idExists then Message(IdExists, e)
      else if e.invalidRelease then Message(InvalidRelease, e)
      else if e.invalidRevision then Message(InvalidRevision, e)
      else []
    else []
  }

  /** Unfolds the priority search over the six keys. */
  lemma PriorityFirst(e: Errors)
    ensures FirstPresent(e, Priority) ==
      if e.required then Some(Required)
      else if e.minLength.Some? then Some(MinLength)
      else if e.maxLength.Some? then Some(MaxLength)
      else if e.idExists then Some(IdExists)
      else if e.invalidRelease then Some(InvalidRelease)
      else if e.invalidRevision then Some(InvalidRevision)
      else None
  {
    var p5 := [InvalidRevision];
    var p4 := [InvalidRelease] + p5;
    var p3 := [IdExists] + p4;
    var p2 := [MaxLength] + p3;
    var p1 := [MinLength] + p2;
    assert Priority == [Required] + p1;
    assert FirstPresent(e, p5) == if e.invalidRevision then Some(InvalidRevision) else None by {
      assert p5[0] == InvalidRevision && p5[1..] == [];
    }
    assert FirstPresent(e, p4) == if e.invalidRelease then Some(InvalidRelease) else FirstPresent(e, p5) by {
      assert p4[0] == InvalidRelease && p4[1..] == p5;
    }
    assert FirstPresent(e, p3) == if e.idExists then Some(IdExists) else FirstPresent(e, p4) by {
      assert p3[0] == IdExists && p3[1..] == p4;
    }
    assert FirstPresent(e, p2) == if e.maxLength.Some? then Some(MaxLength) else FirstPresent(e, p3) by {
      assert p2[0] == MaxLength && p2[1..] == p3;
    }
    assert FirstPresent(e, p1) == if e.minLength.Some? then Some(MinLength) else FirstPresent(e, p2) by {
      assert p1[0] == MinLength && p1[1..] == p2;
    }
    assert ([Required] + p1)[0] == Required && ([Required] + p1)[1..] == p1;
  }

  /** A create-mode control that holds a conforming value and no running check. */
  predicate Settled(c: Control) {
    !c.disabled && !Invalid(c) && !c.pending
  }

  /** Typing conforming text into the create form's name, description and logo settles them. */
  lemma FillText(name: string, description: string, logo: string, today: Date, e1: Editor, e4: Editor)
    requires Conforms(Name, name) && Conforms(Description, description) && Conforms(Logo, logo)
    requires !e1.form.name.disabled && !e1.form.description.disabled && !e1.form.logo.disabled
    requires e4 == OnInput(OnInput(OnInput(e1, Name, name, today), Description, description, today), Logo, logo, today)
    ensures Settled(e4.form.name) && Settled(e4.form.description) && Settled(e4.form.logo)
    ensures e4.form.name.value == Some(name) && e4.form.description.value == Some(description) && e4.form.logo.value == Some(logo)
    ensures e4.form.id == e1.form.id && e4.form.dateRelease == e1.form.dateRelease && e4.form.dateRevision == e1.form.dateRevision
    ensures e4.isEditMode == e1.isEditMode
  {
    var e2 := OnInput(e1, Name, name, today);
    var e3 := OnInput(e2, Description, description, today);
    assert Settled(e2.form.name) && e2.form.description == e1.form.description && e2.form.logo == e1.form.logo;
    assert Settled(e3.form.description) && e3.form.name == e2.form.name && e3.form.logo == e1.form.logo;
  }

  /** Typing an id the guard lets through into a fresh create form starts the id check. */
  lemma EnterId(id: string, today: Date, e1: Editor)
    requires Conforms(Id, id) && !IdCheck.TooShort(id)
    requires e1 == OnInput(Open(None), Id, id, today)
    ensures !e1.isEditMode && e1.form.id.value == Some(id)
    ensures !e1.form.id.disabled && e1.form.id.pending && !Invalid(e1.form.id)
    ensures !e1.form.name.disabled && !e1.form.description.disabled && !e1.form.logo.disabled
    ensures !e1.form.dateRelease.disabled && e1.form.dateRevision.disabled
  {
    var e0 := Open(None);
    assert !e0.form.Get(Id).disabled && e0.form.Get(DateRevision).disabled;
    assert !e0.form.Get(Name).disabled && !e0.form.Get(Description).disabled;
    assert !e0.form.Get(Logo).disabled && !e0.form.Get(DateRelease).disabled;
  }

  /** Typing today's date as the release settles it and writes the revision one year on. */
  lemma EnterRelease(today: Date, e4: Editor, e5: Editor)
    requires Valid(today) && 0 <= today.year < 9999
    requires !e4.form.dateRelease.disabled
    requires e5 == OnInput(e4, DateRelease, IsoDate.Format(today), today)
    ensures Settled(e5.form.dateRelease)
    ensures e5.form.dateRevision.value == Some(IsoDate.Format(AddOneYear(today)))
    ensures e5.form.dateRevision.disabled == e4.form.dateRevision.disabled
    ensures e5.form.id == e4.form.id && e5.form.name == e4.form.name
    ensures e5.form.description == e4.form.description && e5.form.logo == e4.form.logo
    ensures e5.isEditMode == e4.isEditMode
  {
    ReleaseOfTodayAccepted(today);
  }

  /**
   * Creating a product: with conforming fields, an id without surrounding
   * whitespace, a release of today and a service that does not know the id,
   * the form is pending until the service answers and valid after; the
   * revision is today plus one year, and submit sends the whole payload to
   * create.
   */
  lemma CreateScenario(id: string, name: string, description: string, logo: string, today: Date)
    requires Conforms(Id, id) && !Text.IsSpace(id[0]) && !Text.IsSpace(id[|id| - 1])
    requires Conforms(Name, name) && Conforms(Description, description) && Conforms(Logo, logo)
    requires Valid(today) && 0 <= today.year < 9999
    ensures var e1 := OnInput(Open(None), Id, id, today);
            var e4 := OnInput(OnInput(OnInput(e1, Name, name, today), Description, description, today), Logo, logo, today);
            var e5 := OnInput(e4, DateRelease, IsoDate.Format(today), today);
            var e6 := ResolveIdCheck(e5, IdCheck.NotExists);
            && Pending(e5.form.id) && !IsValid(e5.form)
            && IsValid(e6.form)
            && Submit(e6).request == Create(RawValue(e6.form))
            && RawValue(e6.form)[Id] == Some(id)
            && RawValue(e6.form)[DateRevision] == Some(IsoDate.Format(AddOneYear(today)))
  {
    Text.TrimKeepsUnpadded(id);
    var e1 := OnInput(Open(None), Id, id, today);
    var e4 := OnInput(OnInput(OnInput(e1, Name, name, today), Description, description, today), Logo, logo, today);
    var e5 := OnInput(e4, DateRelease, IsoDate.Format(today), today);
    var e6 := ResolveIdCheck(e5, IdCheck.NotExists);
    EnterId(id, today, e1);
    FillText(name, description, logo, today, e1, e4);
    EnterRelease(today, e4, e5);
    assert !IsValid(e5.form) by {
      assert Pending(e5.form.Get(Id));
    }
    ValidFromControls(e6.form);
  }

  /**
   * Editing a product: with a loaded product whose fields conform and whose
   * release is not before today, `id` holds the route id and is disabled, the
   * form is valid, and submit sends an update keyed by the route id, with
   * that id in the payload.
   */
  lemma EditScenario(id: string, p: Product, release: Date, today: Date)
    requires id != []
    requires Conforms(Name, p.name) && Conforms(Description, p.description) && Conforms(Logo, p.logo)
    requires Valid(release) && 0 <= release.year <= 9999 && !Before(release, today)
    requires p.dateRelease == IsoDate.Format(release)
    ensures var e := LoadProductArrived(Open(Some(id)), p, today);
            && e.isEditMode && e.form.id.disabled
            && IsValid(e.form)
            && Submit(e).request == Update(RawValue(e.form), Some(id))
            && RawValue(e.form)[Id] == Some(id)
  {
    var e0 := Open(Some(id));
    var e := LoadProductArrived(e0, p, today);
    IsoDate.ParseFormat(release);
    assert e0.isEditMode && e0.productId == Some(id);
    assert ReadRelease(Some(p.dateRelease), today).Accepted?;
    forall f ensures !Invalid(e.form.Get(f)) && !Pending(e.form.Get(f)) {
      match f
      case Id =>
      case Name => assert e.form.Get(f) == SetValue(f, e0.form.Get(f), Some(p.name));
      case Description => assert e.form.Get(f) == SetValue(f, e0.form.Get(f), Some(p.description));
      case Logo => assert e.form.Get(f) == SetValue(f, e0.form.Get(f), Some(p.logo));
      case DateRelease =>
      case DateRevision =>
    }
    assert !e.form.Get(Name).disabled;
  }
}
