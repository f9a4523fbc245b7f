/** The `POST /register` handler of the registration service and the
    process-wide, append-only list of registrations it keeps in memory. */
module RegistrationService {

  /** A field of the parsed JSON request body, as the handler sees it after
      destructuring: a missing key is `Undefined`; arrays and objects are
      kept opaque because the handler only tests their truthiness. */
  datatype JsonValue =
    | Undefined
    | Null
    | Bool(b: bool)
    | Number(n: real)
    | Str(s: string)
    | Structured

  /** JavaScript truthiness of a JSON field (`!v` is its negation). JSON
      cannot carry NaN, so zero is the only falsy number. */
  predicate Truthy(v: JsonValue) {
    match v
    case Undefined => false
    case Null => false
    case Bool(b) => b
    case Number(n) => n != 0.0
    case Str(s) => s != []
    case Structured => true
  }

  /** The stored registration and the 200 response body. */
  datatype Registration = Registration(name: JsonValue, email: JsonValue, passId: string)

  datatype Response = Ok(record: Registration) | BadRequest(error: string) {
    /** The HTTP status code the handler sends with this body. */
    function Status(): int {
      if Ok? then 200 else 400
    }
  }

  const MissingFieldsError := "Name and email are required."

  /** The presence test of the handler: both fields truthy. */
  predicate HasRequiredFields(name: JsonValue, email: JsonValue) {
    Truthy(name) && Truthy(email)
  }

  /** For string fields the presence test is non-emptiness and nothing
      more: the service has no trimming and no email-shape check, so a
      whitespace-only name and an email without "@" are both accepted. */
  lemma NoServerSideFormatCheck(name: string, email: string)
    ensures HasRequiredFields(Str(name), Str(email)) <==> name != [] && email != []
  {
  }

  /** The falsy field values are exactly a missing field, `null`, `false`,
      zero and the empty string, and a falsy field is rejected in either
      position whatever the other field holds. */
  lemma FalsyFieldsRejected(v: JsonValue, w: JsonValue)
    ensures !Truthy(v) <==> v in {Undefined, Null, Bool(false), Number(0.0), Str([])}
    ensures !Truthy(v) ==> !HasRequiredFields(v, w) && !HasRequiredFields(w, v)
  {
  }

  /** The in-memory `registrations` list of the module. */
  class RegistrationStore {
    var registrations: seq<Registration>

    constructor ()
      ensures registrations == []
    {
      registrations := [];
    }

    /** Handles one request body `{name, email}`; `passId` stands for the
        value `uuidv4()` produces for this call. */
    method Register(name: JsonValue, email: JsonValue, passId: string) returns (res: Response)
      modifies this
      ensures res.BadRequest? <==> !HasRequiredFields(name, email)
      ensures res.BadRequest? ==>
                res.error == MissingFieldsError && res.Status() == 400 &&
                registrations == old(registrations)
      ensures res.Ok? ==>
                res.record == Registration(name, email, passId) && res.Status() == 200 &&
                registrations == old(registrations) + [res.record]
    {
      if !Truthy(name) || !Truthy(email) {
        return BadRequest(MissingFieldsError);
      }
      var registration := Registration(name, email, passId);
      registrations := registrations + [registration];
      res := Ok(registration);
    }
  }

  /** Two identical valid requests store two records: there is no duplicate
      detection, and every earlier record is kept in place. */
  method RegisterTwice(store: RegistrationStore, name: JsonValue, email: JsonValue, id1: string, id2: string)
    returns (first: Response, second: Response)
    requires HasRequiredFields(name, email)
    modifies store
    ensures first == Ok(Registration(name, email, id1))
    ensures second == Ok(Registration(name, email, id2))
    ensures store.registrations == old(store.registrations) + [first.record, second.record]
    ensures store.registrations[..|old(store.registrations)|] == old(store.registrations)
  {
    first := store.Register(name, email, id1);
    second := store.Register(name, email, id2);
  }
}
