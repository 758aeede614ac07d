/**
 The quote wizard ("Cotizador"): a linear three-step form that collects ten
 text fields, advances on each form submission until the last step, where
 the submission marks the quote as sent, and offers a "back" control on the
 second and third steps. The success view offers a reset to a fresh form.

 Also modelled here is the step indicator drawn above the form: which step
 circles are highlighted and how wide the progress bar is.
 */
module Cotizador {

  datatype Option<+T> = None | Some(value: T)

  /** The ten named inputs of the quote form, in declaration order. */
  datatype Field =
    | NombreCompleto | Rut | Correo | Celular
    | PrevisionActual | UfActual | RegionResidencia | Cargas
    | EdadCargas | RentaImponible

  /** The `name` attribute a change event carries for each field. */
  function FieldName(f: Field): string {
    match f
    case NombreCompleto => "nombreCompleto"
    case Rut => "rut"
    case Correo => "correo"
    case Celular => "celular"
    case PrevisionActual => "previsionActual"
    case UfActual => "ufActual"
    case RegionResidencia => "regionResidencia"
    case Cargas => "cargas"
    case EdadCargas => "edadCargas"
    case RentaImponible => "rentaImponible"
  }

  /** Recovers the field a change event's `name` refers to, if any. */
  function ParseField(name: string): (r: Option<Field>)
    ensures r.Some? ==> FieldName(r.value) == name
    ensures r.None? ==> forall f: Field :: FieldName(f) != name
  {
    if name == "nombreCompleto" then Some(NombreCompleto)
    else if name == "rut" then Some(Rut)
    else if name == "correo" then Some(Correo)
    else if name == "celular" then Some(Celular)
    else if name == "previsionActual" then Some(PrevisionActual)
    else if name == "ufActual" then Some(UfActual)
    else if name == "regionResidencia" then Some(RegionResidencia)
    else if name == "cargas" then Some(Cargas)
    else if name == "edadCargas" then Some(EdadCargas)
    else if name == "rentaImponible" then Some(RentaImponible)
    else None
  }

  /** Every field's name parses back to that field, so no two fields share a name. */
  lemma ParseFieldName(f: Field)
    ensures ParseField(FieldName(f)) == Some(f)
  {
  }

  /** The record of field values the form accumulates across its steps. */
  datatype FormData = FormData(
    nombreCompleto: string,
    rut: string,
    correo: string,
    celular: string,
    previsionActual: string,
    ufActual: string,
    regionResidencia: string,
    cargas: string,
    edadCargas: string,
    rentaImponible: string)
  {
    function Get(f: Field): string {
      match f
      case NombreCompleto => nombreCompleto
      case Rut => rut
      case Correo => correo
      case Celular => celular
      case PrevisionActual => previsionActual
      case UfActual => ufActual
      case RegionResidencia => regionResidencia
      case Cargas => cargas
      case EdadCargas => edadCargas
      case RentaImponible => rentaImponible
    }

    /** The record with field `f` replaced by `v`. */
    function Set(f: Field, v: string): (d: FormData)
      ensures d.Get(f) == v
      ensures forall g: Field :: g != f ==> d.Get(g) == Get(g)
    {
      match f
      case NombreCompleto => this.(nombreCompleto := v)
      case Rut => this.(rut := v)
      case Correo => this.(correo := v)
      case Celular => this.(celular := v)
      case PrevisionActual => this.(previsionActual := v)
      case UfActual => this.(ufActual := v)
      case RegionResidencia => this.(regionResidencia := v)
      case Cargas => this.(cargas := v)
      case EdadCargas => this.(edadCargas := v)
      case RentaImponible => this.(rentaImponible := v)
    }
  }

  /** The form as first shown, and as restored by a reset: every field empty. */
  function InitialFormData(): (d: FormData)
    ensures forall f: Field :: d.Get(f) == ""
  {
    FormData("", "", "", "", "", "", "", "", "", "")
  }

  const FirstStep := 1
  const LastStep := 3

  /**
   The wizard's state: the step shown, whether the quote has been sent, the
   direction of the last step change (kept only to orient the slide
   animation) and the field values.
   */
  datatype WizardState = WizardState(
    currentStep: int,
    isSubmitted: bool,
    direction: int,
    formData: FormData)

  function Initial(): (s: WizardState)
    ensures s.currentStep == FirstStep && !s.isSubmitted && s.direction == 0
    ensures forall f: Field :: s.formData.Get(f) == ""
  {
    WizardState(FirstStep, false, 0, InitialFormData())
  }

  /**
   A change event on the input called `name`: the field of that name takes
   the new value; no other field, and nothing outside the form data, moves.
   */
  function HandleChange(s: WizardState, name: string, value: string): (t: WizardState)
    ensures t.currentStep == s.currentStep && t.isSubmitted == s.isSubmitted
    ensures t.direction == s.direction
    ensures forall f: Field ::
      t.formData.Get(f) == (if FieldName(f) == name then value else s.formData.Get(f))
  {
    match ParseField(name)
    case Some(f) => s.(formData := s.formData.Set(f, value))
    case None => s
  }

  function NextStep(s: WizardState): (t: WizardState)
    ensures t.currentStep == s.currentStep + 1
    ensures t.(currentStep := s.currentStep) == s
  {
    s.(currentStep := s.currentStep + 1)
  }

  function PrevStep(s: WizardState): (t: WizardState)
    ensures t.currentStep == s.currentStep - 1
    ensures t.(currentStep := s.currentStep) == s
  {
    s.(currentStep := s.currentStep - 1)
  }

  /** "Siguiente": record a forward move and go one step on. */
  function HandleNext(s: WizardState): (t: WizardState)
    ensures t.currentStep == s.currentStep + 1 && t.direction == 1
    ensures t.formData == s.formData && t.isSubmitted == s.isSubmitted
  {
    NextStep(s.(direction := 1))
  }

  /** "Volver": record a backward move and go one step back. */
  function HandlePrev(s: WizardState): (t: WizardState)
    ensures t.currentStep == s.currentStep - 1 && t.direction == -1
    ensures t.formData == s.formData && t.isSubmitted == s.isSubmitted
  {
    PrevStep(s.(direction := -1))
  }

  /** "Cotizar": mark the quote as sent. The fields are only logged. */
  function HandleSubmit(s: WizardState): (t: WizardState)
    ensures t.isSubmitted
    ensures t.(isSubmitted := s.isSubmitted) == s
  {
    s.(isSubmitted := true)
  }

  /** "Nueva Cotización": empty form, first step, not sent. */
  function ResetForm(s: WizardState): (t: WizardState)
    ensures t.currentStep == FirstStep && !t.isSubmitted
    ensures forall f: Field :: t.formData.Get(f) == ""
    ensures t.direction == s.direction
  {
    s.(formData := InitialFormData(), currentStep := FirstStep, isSubmitted := false)
  }

  /**
   The form's submit handler: on the last step it sends the quote, on any
   other step it advances. So a submission from a step in range never
   leaves the range.
   */
  function FormSubmit(s: WizardState): (t: WizardState)
    ensures s.currentStep == LastStep ==> t.isSubmitted && t.currentStep == LastStep
    ensures s.currentStep != LastStep ==>
      t.currentStep == s.currentStep + 1 && t.direction == 1 && t.isSubmitted == s.isSubmitted
    ensures t.formData == s.formData
    ensures FirstStep <= s.currentStep <= LastStep ==> FirstStep <= t.currentStep <= LastStep
  {
    if s.currentStep == LastStep then HandleSubmit(s) else HandleNext(s)
  }

  /** The inputs rendered on each step; the third step only shows a summary. */
  function FieldsOnStep(step: int): set<Field> {
    if step == 1 then {NombreCompleto, Rut, Correo, Celular}
    else if step == 2 then {PrevisionActual, UfActual, RegionResidencia, Cargas, RentaImponible}
    else {}
  }

  /** The inputs marked `required` on each step (the UF amount is optional). */
  function RequiredOnStep(step: int): (r: set<Field>)
    ensures r <= FieldsOnStep(step)
    ensures r == FieldsOnStep(step) - {UfActual}
  {
    if step == 1 then {NombreCompleto, Rut, Correo, Celular}
    else if step == 2 then {PrevisionActual, RegionResidencia, Cargas, RentaImponible}
    else {}
  }

  /** The browser lets a form submit through only when no required input is empty. */
  predicate StepComplete(d: FormData, step: int) {
    forall f: Field :: f in RequiredOnStep(step) ==> d.Get(f) != ""
  }

  /** The "Volver" button exists on the second and third steps only. */
  predicate BackOffered(step: int) {
    step == 2 || step == 3
  }

  /** What a user can do to the wizard. */
  datatype Event =
    | Input(name: string, value: string)
    | SubmitForm
    | Back
    | NewQuote

  /**
   Whether the control that raises `e` is on screen and lets it through:
   the form (inputs, submit, back) is shown until the quote is sent, the
   reset button only afterwards.
   */
  predicate Enabled(s: WizardState, e: Event) {
    match e
    case Input(name, _) =>
      !s.isSubmitted && ParseField(name).Some? && ParseField(name).value in FieldsOnStep(s.currentStep)
    case SubmitForm => !s.isSubmitted && StepComplete(s.formData, s.currentStep)
    case Back => !s.isSubmitted && BackOffered(s.currentStep)
    case NewQuote => s.isSubmitted
  }

  /** One user action; an action whose control is absent changes nothing. */
  function Dispatch(s: WizardState, e: Event): WizardState {
    if !Enabled(s, e) then s
    else
      match e
      case Input(name, value) => HandleChange(s, name, value)
      case SubmitForm => FormSubmit(s)
      case Back => HandlePrev(s)
      case NewQuote => ResetForm(s)
  }

  function Run(s: WizardState, es: seq<Event>): WizardState
    decreases |es|
  {
    if es == [] then s else Run(Dispatch(s, es[0]), es[1..])
  }

  /**
   What holds in every state the wizard can reach: the step is in 1..3, the
   direction is a unit or zero, a sent quote sits on the last step, every
   step passed has its required fields filled, and the field that has no
   input on any step is still empty.
   */
  predicate Valid(s: WizardState) {
    && FirstStep <= s.currentStep <= LastStep
    && s.direction in {-1, 0, 1}
    && (s.isSubmitted ==> s.currentStep == LastStep)
    && (s.currentStep >= 2 ==> StepComplete(s.formData, 1))
    && (s.currentStep >= 3 ==> StepComplete(s.formData, 2))
    && s.formData.edadCargas == ""
  }

  lemma InitialValid()
    ensures Valid(Initial())
  {
  }

  lemma DispatchPreservesValid(s: WizardState, e: Event)
    requires Valid(s)
    ensures Valid(Dispatch(s, e))
  {
    if Enabled(s, e) && e.Input? {
      var f := ParseField(e.name).value;
      var t := Dispatch(s, e);
      assert forall g: Field :: g != f ==> t.formData.Get(g) == s.formData.Get(g);
      assert t.formData.edadCargas == t.formData.Get(EdadCargas);
    }
  }

  lemma {:induction false} RunPreservesValid(s: WizardState, es: seq<Event>)
    requires Valid(s)
    ensures Valid(Run(s, es))
    decreases |es|
  {
    if es != [] {
      DispatchPreservesValid(s, es[0]);
      RunPreservesValid(Dispatch(s, es[0]), es[1..]);
    }
  }

  /**
   Whatever the user does from a fresh form: the step stays in 1..3, and a
   quote marked as sent has every required field of both input steps filled.
   */
  lemma ReachableStatesValid(es: seq<Event>)
    ensures FirstStep <= Run(Initial(), es).currentStep <= LastStep
    ensures Run(Initial(), es).isSubmitted ==>
      StepComplete(Run(Initial(), es).formData, 1) && StepComplete(Run(Initial(), es).formData, 2)
    ensures Run(Initial(), es).formData.edadCargas == ""
  {
    InitialValid();
    RunPreservesValid(Initial(), es);
  }

  /**
   A submission on step 1 or 2 followed by "Volver" lands on the same step
   with the same fields; only the recorded direction differs.
   */
  lemma NextThenBackRestores(s: WizardState)
    requires Valid(s) && !s.isSubmitted && s.currentStep < LastStep
    requires StepComplete(s.formData, s.currentStep)
    ensures Dispatch(Dispatch(s, SubmitForm), Back) == s.(direction := -1)
  {
  }

  /**
   "Volver" is offered only on steps 2 and 3 of an unsent form, so going
   back never leaves step 1 behind.
   */
  lemma BackOnlyAfterFirstStep(s: WizardState)
    requires Valid(s)
    ensures Enabled(s, Back) <==> !s.isSubmitted && s.currentStep > FirstStep
    ensures Dispatch(s, Back).currentStep >= FirstStep
    ensures Enabled(s, Back) ==>
      Dispatch(s, Back).currentStep == s.currentStep - 1 && Dispatch(s, Back).direction == -1
  {
  }

  /**
   From step 1 with both input steps filled in, two submissions reach the
   last step and a third sends the quote without moving past it.
   */
  lemma SubmissionsWalkThroughSteps(s: WizardState)
    requires Valid(s) && !s.isSubmitted && s.currentStep == FirstStep
    requires StepComplete(s.formData, 1) && StepComplete(s.formData, 2)
    ensures Run(s, [SubmitForm, SubmitForm]).currentStep == LastStep
    ensures !Run(s, [SubmitForm, SubmitForm]).isSubmitted
    ensures Run(s, [SubmitForm, SubmitForm, SubmitForm]).currentStep == LastStep
    ensures Run(s, [SubmitForm, SubmitForm, SubmitForm]).isSubmitted
  {
    var s1 := Dispatch(s, SubmitForm);
    var s2 := Dispatch(s1, SubmitForm);
    assert [SubmitForm, SubmitForm][1..] == [SubmitForm];
    assert [SubmitForm, SubmitForm, SubmitForm][1..] == [SubmitForm, SubmitForm];
    assert Run(s2, []) == s2;
  }

  /** On the last step a complete submission sends the quote and moves nothing else. */
  lemma SubmitOnLastStep(s: WizardState)
    requires Valid(s) && !s.isSubmitted && s.currentStep == LastStep
    ensures Dispatch(s, SubmitForm) == s.(isSubmitted := true)
  {
  }

  /** A reset yields the initial form from any state, except for the recorded direction. */
  lemma ResetRestoresInitial(s: WizardState)
    ensures ResetForm(s) == Initial().(direction := s.direction)
    ensures ResetForm(ResetForm(s)) == ResetForm(s)
  {
  }

  /** Field edits are independent of the step: editing then moving equals moving then editing. */
  lemma ChangeCommutesWithNavigation(s: WizardState, name: string, value: string)
    ensures HandleNext(HandleChange(s, name, value)) == HandleChange(HandleNext(s), name, value)
    ensures HandlePrev(HandleChange(s, name, value)) == HandleChange(HandlePrev(s), name, value)
  {
  }

  // --- Step indicator ---

  const StepIds: seq<int> := [1, 2, 3]

  /** How one step circle is drawn: highlighted (active) and ringed (current). */
  datatype StepMark = StepMark(id: int, isActive: bool, isCurrent: bool)

  function Mark(currentStep: int, id: int): StepMark {
    StepMark(id, currentStep >= id, currentStep == id)
  }

  function StepMarks(currentStep: int): (marks: seq<StepMark>)
    ensures |marks| == |StepIds|
    ensures forall i :: 0 <= i < |marks| ==> marks[i].id == StepIds[i]
  {
    [Mark(currentStep, StepIds[0]), Mark(currentStep, StepIds[1]), Mark(currentStep, StepIds[2])]
  }

  /** The ids of the highlighted circles. */
  function ActiveIds(currentStep: int): set<int> {
    set m | m in StepMarks(currentStep) && m.isActive :: m.id
  }

  /**
   For a step in range exactly one circle is current, it is the circle of
   that step, and the highlighted circles are exactly those of steps 1 up to
   the current one.
   */
  lemma StepMarksShowProgress(currentStep: int)
    requires FirstStep <= currentStep <= LastStep
    ensures forall i :: 0 <= i < |StepMarks(currentStep)| ==>
      (StepMarks(currentStep)[i].isCurrent <==> StepMarks(currentStep)[i].id == currentStep)
    ensures exists i :: 0 <= i < |StepMarks(currentStep)| && StepMarks(currentStep)[i].isCurrent
    ensures forall i, j :: 0 <= i < j < |StepMarks(currentStep)| ==>
      !(StepMarks(currentStep)[i].isCurrent && StepMarks(currentStep)[j].isCurrent)
    ensures forall id :: id in ActiveIds(currentStep) <==> FirstStep <= id <= currentStep
  {
    var marks := StepMarks(currentStep);
    assert marks[currentStep - 1].isCurrent;
    forall id | FirstStep <= id <= currentStep
      ensures id in ActiveIds(currentStep)
    {
      assert marks[id - 1] in marks;
    }
  }

  /** Width of the progress bar, as a percentage of the track. */
  function ProgressWidth(currentStep: int): real {
    ((currentStep - 1) as real / (|StepIds| - 1) as real) * 100.0
  }

  /** The bar is empty on the first step, half way on the second, full on the last, and grows with the step. */
  lemma ProgressWidthBounds(a: int, b: int)
    requires a < b
    ensures ProgressWidth(FirstStep) == 0.0
    ensures ProgressWidth(2) == 50.0
    ensures ProgressWidth(LastStep) == 100.0
    ensures ProgressWidth(a) < ProgressWidth(b)
  {
  }
}
