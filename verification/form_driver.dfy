/** The browser steps that fill in and submit the life-expectancy form,
    as a plan of abstract actions. */
module FormDriver {
  import opened Wrappers
  import opened Decimal

  /** The select controls of the form. */
  datatype Control = Sex | MonthOfBirth | DayOfBirth | YearOfBirth {
    /** The control's `name` attribute on the page. */
    function Name(): string {
      match this
      case Sex => "sex"
      case MonthOfBirth => "monthofbirth"
      case DayOfBirth => "dayofbirth"
      case YearOfBirth => "yearofbirth"
    }
  }

  /** Choosing the option with a given value in a select control, or
      clicking the submit button. */
  datatype Action = Select(control: Control, value: string) | ClickSubmit

  /** The request's fields: the month already read as an integer (1 is
      January), the others as the text the request carried. */
  datatype BirthProfile = BirthProfile(month: int, day: string, year: string, sex: string)

  /** The names of the four controls tell them apart, so selecting by name
      reaches exactly the intended control. */
  lemma NamesIdentifyControls(c: Control, d: Control)
    ensures c.Name() == d.Name() <==> c == d
  {
  }

  /** The option a profile asks of each control: the month as the form
      numbers it, from 0, written as `str` writes integers; the other
      fields as the request carried them. */
  function ValueFor(p: BirthProfile, c: Control): string {
    match c
    case Sex => p.sex
    case MonthOfBirth => IntToString(p.month - 1)
    case DayOfBirth => p.day
    case YearOfBirth => p.year
  }

  /** The steps of the handler's browser session, in order: sex, month, day,
      year, submit. */
  function FormPlan(p: BirthProfile): (plan: seq<Action>)
    ensures |plan| > 0 && plan[|plan| - 1] == ClickSubmit
    ensures forall k :: 0 <= k < |plan| - 1 ==>
      plan[k].Select? && plan[k].value == ValueFor(p, plan[k].control)
  {
    [ Select(Sex, p.sex),
      Select(MonthOfBirth, IntToString(p.month - 1)),
      Select(DayOfBirth, p.day),
      Select(YearOfBirth, p.year),
      ClickSubmit ]
  }

  /** How far the form has been filled in. */
  datatype FormState = PageLoaded | SexSelected | MonthSelected | DaySelected | YearSelected | Submitted

  /** The form's fixed order: each control becomes usable only after the one
      before it is chosen, and submitting needs all four. */
  function Next(s: FormState, a: Action): Option<FormState> {
    match (s, a)
    case (PageLoaded, Select(Sex, _)) => Some(SexSelected)
    case (SexSelected, Select(MonthOfBirth, _)) => Some(MonthSelected)
    case (MonthSelected, Select(DayOfBirth, _)) => Some(DaySelected)
    case (DaySelected, Select(YearOfBirth, _)) => Some(YearSelected)
    case (YearSelected, ClickSubmit) => Some(Submitted)
    case _ => None
  }

  /** Performs a plan on the form, failing at the first out-of-order step. */
  function Perform(s: FormState, plan: seq<Action>): Option<FormState>
    decreases |plan|
  {
    if |plan| == 0 then Some(s)
    else
      var t :- Next(s, plan[0]);
      Perform(t, plan[1..])
  }

  /** The controls a plan selects, in order. */
  function SelectedControls(plan: seq<Action>): seq<Control>
    decreases |plan|
  {
    if |plan| == 0 then []
    else (if plan[0].Select? then [plan[0].control] else []) + SelectedControls(plan[1..])
  }

  /** How many times a plan clicks submit. */
  function SubmitCount(plan: seq<Action>): nat
    decreases |plan|
  {
    if |plan| == 0 then 0
    else (if plan[0] == ClickSubmit then 1 else 0) + SubmitCount(plan[1..])
  }

  /** A plan that ends submitted from an unsubmitted state starts with a step
      the form accepts, and the rest of it ends submitted. */
  lemma PerformFirstStep(s: FormState, plan: seq<Action>)
    requires s != Submitted && Perform(s, plan) == Some(Submitted)
    ensures |plan| > 0 && Next(s, plan[0]).Some?
    ensures Perform(Next(s, plan[0]).value, plan[1..]) == Some(Submitted)
  {
  }

  /** Nothing can be done on a submitted form. */
  lemma PerformAfterSubmit(plan: seq<Action>)
    requires Perform(Submitted, plan) == Some(Submitted)
    ensures plan == []
  {
  }

  /** Performing, listing and counting a plan one step at a time. */
  lemma FirstStep(s: FormState, x: Action, rest: seq<Action>)
    ensures SelectedControls([x] + rest) == (if x.Select? then [x.control] else []) + SelectedControls(rest)
    ensures SubmitCount([x] + rest) == (if x == ClickSubmit then 1 else 0) + SubmitCount(rest)
    ensures Perform(s, [x] + rest) == (var t :- Next(s, x); Perform(t, rest))
  {
    assert ([x] + rest)[0] == x;
    assert ([x] + rest)[1..] == rest;
  }

  /** The handler's plan takes the form from loaded to submitted. */
  lemma FormPlanSubmits(p: BirthProfile)
    ensures Perform(PageLoaded, FormPlan(p)) == Some(Submitted)
  {
    var plan := FormPlan(p);
    FirstStep(YearSelected, plan[4], []);
    FirstStep(DaySelected, plan[3], [plan[4]]);
    FirstStep(MonthSelected, plan[2], plan[3..]);
    FirstStep(SexSelected, plan[1], plan[2..]);
    FirstStep(PageLoaded, plan[0], plan[1..]);
    assert [plan[4]] + [] == plan[4..];
    assert [plan[3]] + [plan[4]] == plan[3..];
    assert [plan[2]] + plan[3..] == plan[2..];
    assert [plan[1]] + plan[2..] == plan[1..];
    assert [plan[0]] + plan[1..] == plan;
  }

  /** The controls still to be chosen in a state, in the form's order. */
  function Remaining(s: FormState): seq<Control> {
    match s
    case PageLoaded => [Sex, MonthOfBirth, DayOfBirth, YearOfBirth]
    case SexSelected => [MonthOfBirth, DayOfBirth, YearOfBirth]
    case MonthSelected => [DayOfBirth, YearOfBirth]
    case DaySelected => [YearOfBirth]
    case YearSelected => []
    case Submitted => []
  }

  /** An accepted step either chooses the next remaining control or, when
      none remains, submits. */
  lemma AcceptedStep(s: FormState, a: Action)
    requires Next(s, a).Some?
    ensures s != Submitted
    ensures a == ClickSubmit <==> Next(s, a).value == Submitted
    ensures a == ClickSubmit ==> Remaining(s) == []
    ensures a.Select? ==> Remaining(s) == [a.control] + Remaining(Next(s, a).value)
  {
  }

  /** From any unsubmitted state, a plan that ends submitted chooses exactly
      the remaining controls in order and then submits, once, last. */
  lemma {:induction false} ShapeFrom(s: FormState, plan: seq<Action>)
    requires s != Submitted && Perform(s, plan) == Some(Submitted)
    ensures |plan| == |Remaining(s)| + 1 && plan[|plan| - 1] == ClickSubmit
    ensures SelectedControls(plan) == Remaining(s)
    ensures SubmitCount(plan) == 1
    decreases |plan|
  {
    PerformFirstStep(s, plan);
    var t := Next(s, plan[0]).value;
    AcceptedStep(s, plan[0]);
    FirstStep(s, plan[0], plan[1..]);
    assert plan == [plan[0]] + plan[1..];
    if t == Submitted {
      PerformAfterSubmit(plan[1..]);
      FirstStep(t, plan[0], []);
    } else {
      ShapeFrom(t, plan[1..]);
    }
  }

  /** Every plan that takes the form from loaded to submitted chooses sex,
      month, day and year in that order and then submits, once, last. */
  lemma SubmittingPlanShape(plan: seq<Action>)
    requires Perform(PageLoaded, plan) == Some(Submitted)
    ensures |plan| == 5 && plan[4] == ClickSubmit
    ensures SelectedControls(plan) == [Sex, MonthOfBirth, DayOfBirth, YearOfBirth]
    ensures SubmitCount(plan) == 1
  {
    ShapeFrom(PageLoaded, plan);
  }

  /** The plan selects the month, and every month option it picks is the
      profile's month minus one, written as `str` writes integers (no leading
      zero, no "-0"). */
  lemma MonthIsZeroBased(p: BirthProfile)
    ensures exists k :: 0 <= k < |FormPlan(p)| && FormPlan(p)[k].Select? && FormPlan(p)[k].control == MonthOfBirth
    ensures forall k :: 0 <= k < |FormPlan(p)| && FormPlan(p)[k].Select? && FormPlan(p)[k].control == MonthOfBirth ==>
      CanonicalInt(FormPlan(p)[k].value) && ParseInt(FormPlan(p)[k].value) == Some(p.month - 1)
  {
    assert FormPlan(p)[1].control == MonthOfBirth;
  }

  /** Born in March: the month control gets option "2". */
  lemma MarchIsOptionTwo()
    ensures FormPlan(BirthProfile(3, "15", "1960", "f"))[1] == Select(MonthOfBirth, "2")
  {
    assert NatToString(2) == "2";
  }
}
