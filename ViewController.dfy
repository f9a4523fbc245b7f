/** The page-level view controller: which of the three screens is shown and
    the registration record kept for the pass screen. */
module ViewController {
  import opened Records

  datatype Screen = Hero | Registration | Pass

  /** The two pieces of page state: `currentState` and `userData`. `None`
      is the `null` the page starts with and stores on a new registration. */
  datatype ViewState = ViewState(screen: Screen, userData: Option<PassRecord>)

  /** The five handlers the page hands to its child screens. The submit
      handler stores whatever payload the form passes it: a record, or
      `None` for a `null` payload. */
  datatype Event =
    | RegisterClick
    | RegistrationSubmit(data: Option<PassRecord>)
    | BackToHero
    | BackToRegistration
    | NewRegistration

  /** What the page renders. `ShowNothing` is the `null` of the pass case. */
  datatype View = ShowHero | ShowForm | ShowPass(record: PassRecord) | ShowNothing

  const Initial := ViewState(Hero, None)

  /** The effect of one handler on the page state. */
  function Step(s: ViewState, e: Event): ViewState {
    match e
    case RegisterClick => s.(screen := Registration)
    case RegistrationSubmit(d) => ViewState(Pass, d)
    case BackToHero => s.(screen := Hero)
    case BackToRegistration => s.(screen := Registration)
    case NewRegistration => ViewState(Registration, None)
  }

  /** The state after a sequence of handler calls, each one run to completion. */
  function Run(s: ViewState, events: seq<Event>): ViewState
    decreases |events|
  {
    if events == [] then s else Run(Step(s, events[0]), events[1..])
  }

  /** The pass screen always has a record to show. */
  ghost predicate Inv(s: ViewState) {
    s.screen == Pass ==> s.userData.Some?
  }

  /** A handler call whose payload, if it has one, is a record. */
  predicate RecordPayload(e: Event) {
    e.RegistrationSubmit? ==> e.data.Some?
  }

  /** The switch over `currentState`: the registration form, the pass (or
      nothing when there is no record), and the landing page otherwise. */
  function Render(s: ViewState): (v: View)
    ensures v == ShowForm <==> s.screen == Registration
    ensures v == ShowHero <==> s.screen == Hero
    ensures v.ShowPass? <==> s.screen == Pass && s.userData.Some?
    ensures v.ShowPass? ==> s.userData == Some(v.record)
    ensures v == ShowNothing <==> s == ViewState(Pass, None)
    ensures Inv(s) <==> v != ShowNothing
  {
    match s.screen
    case Registration => ShowForm
    case Pass => if s.userData.Some? then ShowPass(s.userData.value) else ShowNothing
    case _ => ShowHero
  }

  /** Every handler keeps the invariant, provided a submitted payload is a
      record. */
  lemma StepPreservesInv(s: ViewState, e: Event)
    requires Inv(s) && RecordPayload(e)
    ensures Inv(Step(s, e))
  {
  }

  /** A `null` payload breaks the invariant from any state: the pass screen
      is shown and renders nothing. */
  lemma NullPayloadShowsNothing(s: ViewState)
    ensures !Inv(Step(s, RegistrationSubmit(None)))
    ensures Render(Step(s, RegistrationSubmit(None))) == ShowNothing
  {
  }

  /** Every handler sequence whose payloads are records preserves the
      invariant. */
  lemma {:induction false} RunPreservesInv(s: ViewState, events: seq<Event>)
    requires Inv(s)
    requires forall i :: 0 <= i < |events| ==> RecordPayload(events[i])
    ensures Inv(Run(s, events))
    decreases |events|
  {
    if events != [] {
      StepPreservesInv(s, events[0]);
      RunPreservesInv(Step(s, events[0]), events[1..]);
    }
  }

  /** In every state reachable from the initial one through record payloads,
      the pass screen has a record, so the `null` branch of the pass case is
      dead and the pass screen renders the digital pass of the stored
      record. */
  lemma ReachablePassRendersRecord(events: seq<Event>)
    requires forall i :: 0 <= i < |events| ==> RecordPayload(events[i])
    ensures var s := Run(Initial, events);
      Inv(s) && Render(s) != ShowNothing &&
      (s.screen == Pass ==> Render(s) == ShowPass(s.userData.value))
  {
    RunPreservesInv(Initial, events);
  }

  /** The converse of the invariant does not hold: going back from the pass
      screen keeps the record while the form is shown. */
  lemma BackKeepsRecord(d: PassRecord)
    ensures Run(Initial, [RegisterClick, RegistrationSubmit(Some(d)), BackToRegistration])
            == ViewState(Registration, Some(d))
  {
    var s1 := Step(Initial, RegisterClick);
    var s2 := Step(s1, RegistrationSubmit(Some(d)));
    assert Run(s2, [BackToRegistration]) == Step(s2, BackToRegistration);
    assert Run(s1, [RegistrationSubmit(Some(d)), BackToRegistration]) == Run(s2, [BackToRegistration]);
  }

  /** The handlers each screen wires up: the landing page offers "register",
      the form offers "back" and "submit", the pass offers "back" and "new
      registration". */
  predicate Enabled(screen: Screen, e: Event) {
    match screen
    case Hero => e == RegisterClick
    case Registration => e == BackToHero || e.RegistrationSubmit?
    case Pass => e == BackToRegistration || e == NewRegistration
  }

  /** Through the handlers each screen offers, the only screen changes are
      landing to form, form to landing, form to pass and pass to form. */
  lemma EnabledTransitions(s: ViewState, e: Event)
    requires Enabled(s.screen, e)
    ensures var t := Step(s, e).screen;
      (s.screen == Hero && t == Registration) ||
      (s.screen == Registration && (t == Hero || t == Pass)) ||
      (s.screen == Pass && t == Registration)
  {
  }

  /** The page component, with its two `useState` variables as fields. */
  class IndexPage {
    var currentState: Screen
    var userData: Option<PassRecord>

    function State(): ViewState
      reads this
    {
      ViewState(currentState, userData)
    }

    ghost predicate Valid()
      reads this
    {
      Inv(State())
    }

    constructor ()
      ensures State() == Initial && Valid()
    {
      currentState := Hero;
      userData := None;
    }

    method HandleRegisterClick()
      modifies this
      ensures State() == Step(old(State()), RegisterClick) && Valid()
      ensures currentState == Registration && userData == old(userData)
    {
      currentState := Registration;
    }

    /** Stores the payload as it is; the invariant holds afterwards exactly
        when the payload is a record. */
    method HandleRegistrationSubmit(data: Option<PassRecord>)
      modifies this
      ensures State() == Step(old(State()), RegistrationSubmit(data))
      ensures currentState == Pass && userData == data
      ensures Valid() <==> data.Some?
    {
      userData := data;
      currentState := Pass;
    }

    method HandleBackToHero()
      modifies this
      ensures State() == Step(old(State()), BackToHero) && Valid()
      ensures currentState == Hero && userData == old(userData)
    {
      currentState := Hero;
    }

    method HandleBackToRegistration()
      modifies this
      ensures State() == Step(old(State()), BackToRegistration) && Valid()
      ensures currentState == Registration && userData == old(userData)
    {
      currentState := Registration;
    }

    method HandleNewRegistration()
      modifies this
      ensures State() == Step(old(State()), NewRegistration) && Valid()
      ensures currentState == Registration && userData == None
    {
      userData := None;
      currentState := Registration;
    }
  }
}
