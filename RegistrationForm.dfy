/** The registration form's submit handler: two ordered local checks, then
    one registration request bracketed by the `isSubmitting` flag. The
    network result is an input; everything the handler does is recorded, in
    order, as a list of effects. */
module RegistrationForm {
  import opened Records
  import opened JsText
  import ViewController

  /** The title of each notice the handler shows. */
  datatype Notice = MissingInformation | InvalidEmail | RegistrationSuccessful | RegistrationFailed

  /** How the request ended: a 2xx response with its parsed body (a record,
      or `None` for a `null` body), a non-2xx response, or a thrown error
      (network failure or a body that does not parse). */
  datatype FetchOutcome = Responded(body: Option<PassRecord>) | NotOk | Throws

  /** What the handler does, in the order it does it. */
  datatype Effect =
    | SetSubmitting(on: bool)
    | PostRegister(name: string, email: string)
    | OnSubmit(payload: Option<PassRecord>)
    | Toast(notice: Notice)

  /** The two local checks, in order: blank fields first, then a missing "@".
      A field is blank when it trims to the empty string, which is exactly
      when every character of it is whitespace (`BlankIffAllWhitespace`). */
  function Validate(name: string, email: string): (r: Option<Notice>)
    ensures r == Some(MissingInformation) <==> IsBlank(name) || IsBlank(email)
    ensures r == Some(InvalidEmail) <==> !IsBlank(name) && !IsBlank(email) && '@' !in email
    ensures r == None <==> !IsBlank(name) && !IsBlank(email) && '@' in email
  {
    if IsBlank(name) || IsBlank(email) then Some(MissingInformation)
    else if '@' !in email then Some(InvalidEmail)
    else None
  }

  /** The effects of one call of the submit handler. */
  function SubmitEffects(name: string, email: string, outcome: FetchOutcome): seq<Effect> {
    match Validate(name, email)
    case Some(notice) => [Toast(notice)]
    case None => [SetSubmitting(true), PostRegister(name, email)] + AfterRequest(outcome)
  }

  /** The effects once the request has settled: the callback on success, the
      flag cleared on every path, then the notice. */
  function AfterRequest(outcome: FetchOutcome): seq<Effect> {
    match outcome
    case Responded(body) => [OnSubmit(body), SetSubmitting(false), Toast(RegistrationSuccessful)]
    case _ => [SetSubmitting(false), Toast(RegistrationFailed)]
  }

  /** The three paths of the handler, by the checks as the source writes
      them. */
  lemma SubmitEffectsCases(name: string, email: string, outcome: FetchOutcome)
    ensures IsBlank(name) || IsBlank(email) ==>
              SubmitEffects(name, email, outcome) == [Toast(MissingInformation)]
    ensures !IsBlank(name) && !IsBlank(email) && '@' !in email ==>
              SubmitEffects(name, email, outcome) == [Toast(InvalidEmail)]
    ensures !IsBlank(name) && !IsBlank(email) && '@' in email ==>
              SubmitEffects(name, email, outcome) ==
                [SetSubmitting(true), PostRegister(name, email)] + AfterRequest(outcome)
  {
  }

  /** The number of registration requests among `effects`. */
  function RequestCount(effects: seq<Effect>): nat {
    if effects == [] then 0
    else (if effects[0].PostRegister? then 1 else 0) + RequestCount(effects[1..])
  }

  /** The value of `isSubmitting` after `effects`, starting from `flag`. */
  function FlagAfter(flag: bool, effects: seq<Effect>): bool
    decreases |effects|
  {
    if effects == [] then flag
    else FlagAfter(if effects[0].SetSubmitting? then effects[0].on else flag, effects[1..])
  }

  lemma {:induction false} RequestCountAppend(a: seq<Effect>, b: seq<Effect>)
    ensures RequestCount(a + b) == RequestCount(a) + RequestCount(b)
    decreases |a|
  {
    if a != [] {
      assert (a + b)[1..] == a[1..] + b;
      RequestCountAppend(a[1..], b);
    } else {
      assert a + b == b;
    }
  }

  lemma {:induction false} FlagAfterAppend(flag: bool, a: seq<Effect>, b: seq<Effect>)
    ensures FlagAfter(flag, a + b) == FlagAfter(FlagAfter(flag, a), b)
    decreases |a|
  {
    if a != [] {
      assert (a + b)[1..] == a[1..] + b;
      FlagAfterAppend(if a[0].SetSubmitting? then a[0].on else flag, a[1..], b);
    } else {
      assert a + b == b;
    }
  }

  /** The checks in terms of characters: a field is missing when it is all
      whitespace (the empty string included). The checks are ordered, so a
      blank email is reported as missing, never as invalid, and an email
      holding "@" is never blank. */
  lemma ValidateByCharacters(name: string, email: string)
    ensures Validate(name, email) == Some(MissingInformation) <==>
              AllWhitespace(name) || AllWhitespace(email)
    ensures Validate(name, email) == Some(InvalidEmail) <==>
              !AllWhitespace(name) && !AllWhitespace(email) && '@' !in email
    ensures Validate(name, email) == None <==> !AllWhitespace(name) && '@' in email
  {
    BlankIffAllWhitespace(name);
    BlankIffAllWhitespace(email);
    if '@' in email {
      var k :| 0 <= k < |email| && email[k] == '@';
      PrintableAsciiNotWhitespace(email[k]);
    }
  }

  /** After the request no further request is made and the flag ends false. */
  lemma AfterRequestSettles(flag: bool, outcome: FetchOutcome)
    ensures RequestCount(AfterRequest(outcome)) == 0
    ensures !FlagAfter(flag, AfterRequest(outcome))
    ensures forall j :: 0 <= j < |AfterRequest(outcome)| ==> !AfterRequest(outcome)[j].PostRegister?
  {
    var tail := AfterRequest(outcome);
    match outcome
    case Responded(r) =>
      assert tail[1..] == [SetSubmitting(false), Toast(RegistrationSuccessful)];
      assert tail[1..][1..] == [Toast(RegistrationSuccessful)];
      assert tail[1..][1..][1..] == [];
      assert FlagAfter(flag, tail) == FlagAfter(flag, tail[1..]);
      assert FlagAfter(flag, tail[1..]) == FlagAfter(false, tail[1..][1..]);
      assert FlagAfter(false, tail[1..][1..]) == FlagAfter(false, []);
      assert RequestCount(tail) == RequestCount(tail[1..]) == RequestCount(tail[1..][1..]);
      assert RequestCount(tail[1..][1..]) == RequestCount([]);
    case _ =>
      assert tail == [SetSubmitting(false), Toast(RegistrationFailed)];
      assert tail[1..] == [Toast(RegistrationFailed)];
      assert tail[1..][1..] == [];
      assert FlagAfter(flag, tail) == FlagAfter(false, tail[1..]);
      assert FlagAfter(false, tail[1..]) == FlagAfter(false, []);
      assert RequestCount(tail) == RequestCount(tail[1..]) == RequestCount([]);
  }

  /** A request is made exactly once when both checks pass and never
      otherwise, and it carries the untrimmed field values. */
  lemma RequestIffValid(name: string, email: string, outcome: FetchOutcome)
    ensures RequestCount(SubmitEffects(name, email, outcome)) ==
            if Validate(name, email) == None then 1 else 0
    ensures Validate(name, email) == None ==>
            PostRegister(name, email) in SubmitEffects(name, email, outcome)
  {
    if Validate(name, email) == None {
      var head := [SetSubmitting(true), PostRegister(name, email)];
      RequestCountAppend(head, AfterRequest(outcome));
      AfterRequestSettles(false, outcome);
      assert head[1..][1..] == [];
      assert (head + AfterRequest(outcome))[1] == PostRegister(name, email);
    }
  }

  /** When a check fails the flag is untouched; otherwise it ends false,
      whatever the outcome of the request. */
  lemma FlagCleared(flag: bool, name: string, email: string, outcome: FetchOutcome)
    ensures FlagAfter(flag, SubmitEffects(name, email, outcome)) ==
            if Validate(name, email) == None then false else flag
  {
    if Validate(name, email) == None {
      var head := [SetSubmitting(true), PostRegister(name, email)];
      FlagAfterAppend(flag, head, AfterRequest(outcome));
      AfterRequestSettles(FlagAfter(flag, head), outcome);
    }
  }

  /** The flag is set when the request is issued. */
  lemma SubmittingDuringRequest(flag: bool, name: string, email: string, outcome: FetchOutcome, i: nat)
    requires i < |SubmitEffects(name, email, outcome)|
    requires SubmitEffects(name, email, outcome)[i].PostRegister?
    ensures FlagAfter(flag, SubmitEffects(name, email, outcome)[..i])
  {
    var effects := SubmitEffects(name, email, outcome);
    AfterRequestSettles(flag, outcome);
    if Validate(name, email) == None {
      var tail := AfterRequest(outcome);
      assert effects == [SetSubmitting(true), PostRegister(name, email)] + tail;
      assert forall j :: 2 <= j < |effects| ==> effects[j] == tail[j - 2];
      assert i == 1;
      assert effects[..1] == [SetSubmitting(true)];
    }
  }

  /** The completion callback receives exactly the parsed body of a
      successful response, and is never called on a failed check, a non-ok
      response or a thrown error. Each call ends with one notice saying which
      case it was. */
  lemma CallbackOnlyOnSuccess(name: string, email: string, outcome: FetchOutcome, r: Option<PassRecord>)
    ensures OnSubmit(r) in SubmitEffects(name, email, outcome) <==>
            Validate(name, email) == None && outcome == Responded(r)
    ensures var effects := SubmitEffects(name, email, outcome);
      effects[|effects| - 1] ==
        Toast(match Validate(name, email)
              case Some(notice) => notice
              case None => if outcome.Responded? then RegistrationSuccessful else RegistrationFailed)
  {
  }

  /** The page handler calls that the effects make, in order: each
      `OnSubmit` is a call of the page's submit handler. */
  function CallbackEvents(effects: seq<Effect>): seq<ViewController.Event>
    decreases |effects|
  {
    if effects == [] then []
    else (if effects[0].OnSubmit? then [ViewController.RegistrationSubmit(effects[0].payload)] else [])
         + CallbackEvents(effects[1..])
  }

  lemma {:induction false} CallbackEventsAppend(a: seq<Effect>, b: seq<Effect>)
    ensures CallbackEvents(a + b) == CallbackEvents(a) + CallbackEvents(b)
    decreases |a|
  {
    if a != [] {
      assert (a + b)[1..] == a[1..] + b;
      CallbackEventsAppend(a[1..], b);
    } else {
      assert a + b == b;
    }
  }

  /** One submission seen from the page: it stores the response body and
      shows the pass exactly when both checks pass and the server answers
      ok; otherwise the page state is untouched. */
  lemma SubmitDrivesPage(s: ViewController.ViewState, name: string, email: string, outcome: FetchOutcome)
    ensures ViewController.Run(s, CallbackEvents(SubmitEffects(name, email, outcome))) ==
            if Validate(name, email) == None && outcome.Responded?
            then ViewController.ViewState(ViewController.Pass, outcome.body)
            else s
  {
    var effects := SubmitEffects(name, email, outcome);
    match Validate(name, email)
    case Some(notice) =>
      assert effects == [Toast(notice)];
      assert CallbackEvents(effects) == [] + CallbackEvents(effects[1..]);
      assert effects[1..] == [];
    case None =>
      var head, tail := [SetSubmitting(true), PostRegister(name, email)], AfterRequest(outcome);
      CallbackEventsAppend(head, tail);
      assert CallbackEvents(head) == [] by {
        assert head[1..][1..] == [];
        assert CallbackEvents(head) == CallbackEvents(head[1..]) == CallbackEvents(head[1..][1..]);
      }
      if outcome.Responded? {
        assert tail[1..][1..][1..] == [];
        assert CallbackEvents(tail) == [ViewController.RegistrationSubmit(outcome.body)] by {
          assert CallbackEvents(tail[1..]) == CallbackEvents(tail[1..][1..]) == CallbackEvents(tail[1..][1..][1..]);
        }
        var e := ViewController.RegistrationSubmit(outcome.body);
        assert ViewController.Run(s, [e]) == ViewController.Run(ViewController.Step(s, e), []);
      } else {
        assert tail[1..][1..] == [];
        assert CallbackEvents(tail) == [] by {
          assert CallbackEvents(tail) == CallbackEvents(tail[1..]) == CallbackEvents(tail[1..][1..]);
        }
      }
  }

  /** A submission answered with a record leaves the page on the pass
      screen rendering that record, with the page invariant intact. */
  lemma RecordResponseShowsPass(s: ViewController.ViewState, name: string, email: string, r: PassRecord)
    requires Validate(name, email) == None
    ensures var t := ViewController.Run(s, CallbackEvents(SubmitEffects(name, email, Responded(Some(r)))));
      ViewController.Inv(t) && ViewController.Render(t) == ViewController.ShowPass(r)
  {
    SubmitDrivesPage(s, name, email, Responded(Some(r)));
  }

  /** The form component: its field values, its busy flag, and the effects
      its handler has produced so far. */
  class FormView {
    var name: string
    var email: string
    var isSubmitting: bool
    var effects: seq<Effect>

    constructor ()
      ensures name == "" && email == "" && !isSubmitting && effects == []
    {
      name, email, isSubmitting, effects := "", "", false, [];
    }

    /** The `onChange` handler of the name field. */
    method SetName(value: string)
      modifies this`name
      ensures name == value
    {
      name := value;
    }

    /** The `onChange` handler of the email field. */
    method SetEmail(value: string)
      modifies this`email
      ensures email == value
    {
      email := value;
    }

    /** The submit handler; `outcome` is how the request would end if one
        is made. */
    method HandleSubmit(outcome: FetchOutcome)
      modifies this`isSubmitting, this`effects
      ensures effects == old(effects) + SubmitEffects(name, email, outcome)
      ensures isSubmitting == FlagAfter(old(isSubmitting), SubmitEffects(name, email, outcome))
      ensures isSubmitting == if Validate(name, email) == None then false else old(isSubmitting)
    {
      ghost var before := effects;
      SubmitEffectsCases(name, email, outcome);
      FlagCleared(isSubmitting, name, email, outcome);
      if IsBlank(name) || IsBlank(email) {
        effects := effects + [Toast(MissingInformation)];
        return;
      }
      if '@' !in email {
        effects := effects + [Toast(InvalidEmail)];
        return;
      }
      isSubmitting := true;
      effects := effects + [SetSubmitting(true), PostRegister(name, email)];
      match outcome {
        case Responded(body) =>
          effects := effects + [OnSubmit(body)];
          isSubmitting := false;
          effects := effects + [SetSubmitting(false), Toast(RegistrationSuccessful)];
        case _ =>
          isSubmitting := false;
          effects := effects + [SetSubmitting(false), Toast(RegistrationFailed)];
      }
      assert effects == before + ([SetSubmitting(true), PostRegister(name, email)] + AfterRequest(outcome));
    }
  }
}
