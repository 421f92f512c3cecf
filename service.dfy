/**
 * The patient service: the business rules of the registry. Each operation is
 * given twice: as a pure transition from the table before the call to the
 * result and the table after it (whose contract states the rule), and as a
 * method of the `PatientService` class that updates its table field step by
 * step, as the service does through its repository, proved to perform that
 * transition.
 */
module Service {
  import opened Model
  import opened Repository

  /** What one call returns and the table it leaves behind. */
  datatype Outcome = Outcome(result: Result<PatientResponse, ServiceError>, table: Table)

  /** The row after an update: the four mutable fields are taken from the
      request, the id and the registered date are kept. */
  ghost predicate UpdatedFrom(before: Patient, after: Patient, conversions: Conversions, request: PatientRequest) {
    && after.id == before.id
    && after.registeredDate == before.registeredDate
    && after.name == request.name
    && after.email == request.email
    && after.address == request.address
    && after.dateOfBirth == conversions.parseDate(request.dateOfBirth)
  }

  /** `getPatients`: one response per listed row, in the order listed. */
  function ToResponses(toDTO: Patient -> PatientResponse, rows: seq<Patient>): (r: seq<PatientResponse>)
    ensures |r| == |rows|
    ensures forall i :: 0 <= i < |rows| ==> r[i] == toDTO(rows[i])
  {
    if rows == [] then [] else [toDTO(rows[0])] + ToResponses(toDTO, rows[1..])
  }

  /** `createPatient`, where `newId` is the id the store generates on save. */
  function Create(t: Table, conversions: Conversions, request: PatientRequest, newId: Uuid): (o: Outcome)
    ensures o.result.Err? <==> ExistsByEmail(t, request.email)
    ensures o.result.Err? ==> o.result.error == EmailAlreadyExists(request.email) && o.table == t
    ensures o.result.Ok? ==>
              && o.table.Keys == t.Keys + {newId}
              && o.table[newId] == conversions.toEntity(request).(id := newId)
              && (forall k :: k in t && k != newId ==> o.table[k] == t[k])
              && o.result.value == conversions.toDTO(o.table[newId])
    ensures o.result.Ok? && newId !in t ==> |o.table| == |t| + 1
  {
    if ExistsByEmail(t, request.email) then
      Outcome(Err(EmailAlreadyExists(request.email)), t)
    else
      var entity := conversions.toEntity(request).(id := newId);
      Outcome(Ok(conversions.toDTO(entity)), Save(t, entity))
  }

  /** `updatePatient` of row `id`. */
  function Update(t: Table, conversions: Conversions, request: PatientRequest, id: Uuid): (o: Outcome)
    ensures id !in t ==> o.result == Err(PatientNotFound(id)) && o.table == t
    ensures id in t ==> (o.result.Err? <==> ExistsByEmailAndIdNot(t, request.email, id))
    ensures id in t && o.result.Err? ==> o.result.error == EmailAlreadyExists(request.email)
    ensures o.result.Err? ==> o.table == t
    ensures o.result.Ok? ==>
              && id in t
              && o.table.Keys == t.Keys
              && UpdatedFrom(t[id], o.table[id], conversions, request)
              && (forall k :: k in t && k != id ==> o.table[k] == t[k])
              && o.result.value == conversions.toDTO(o.table[id])
  {
    match FindById(t, id)
    case None => Outcome(Err(PatientNotFound(id)), t)
    case Some(patient) =>
      if ExistsByEmailAndIdNot(t, request.email, id) then
        Outcome(Err(EmailAlreadyExists(request.email)), t)
      else
        var updated := patient.(name := request.name, email := request.email,
                                address := request.address,
                                dateOfBirth := conversions.parseDate(request.dateOfBirth));
        Outcome(Ok(conversions.toDTO(updated)), Save(t, updated))
  }

  /** Re-submitting a row's own current email is not a conflict. */
  lemma ResubmittingOwnEmailSucceeds(t: Table, conversions: Conversions, request: PatientRequest, id: Uuid)
    requires UniqueEmails(t)
    requires id in t && t[id].email == request.email
    ensures Update(t, conversions, request, id).result.Ok?
  {
  }

  /** Creating the same request twice: the second call is refused, whatever
      the first did, and leaves the table alone. */
  lemma SecondCreateWithSameEmailFails(t: Table, conversions: Conversions, request: PatientRequest, id1: Uuid, id2: Uuid)
    requires CopiesEmail(conversions)
    ensures var first := Create(t, conversions, request, id1);
            Create(first.table, conversions, request, id2) == Outcome(Err(EmailAlreadyExists(request.email)), first.table)
  {
  }

  /** A successful update leaves the row's registered date as it was. */
  lemma UpdateKeepsRegisteredDate(t: Table, conversions: Conversions, request: PatientRequest, id: Uuid)
    requires id in t
    ensures id in Update(t, conversions, request, id).table
    ensures Update(t, conversions, request, id).table[id].registeredDate == t[id].registeredDate
  {
  }

  lemma CreatePreservesUniqueEmails(t: Table, conversions: Conversions, request: PatientRequest, newId: Uuid)
    requires CopiesEmail(conversions)
    requires UniqueEmails(t)
    ensures UniqueEmails(Create(t, conversions, request, newId).table)
  {
  }

  lemma UpdatePreservesUniqueEmails(t: Table, conversions: Conversions, request: PatientRequest, id: Uuid)
    requires UniqueEmails(t)
    ensures UniqueEmails(Update(t, conversions, request, id).table)
  {
  }

  lemma DeletePreservesUniqueEmails(t: Table, id: Uuid)
    requires UniqueEmails(t)
    ensures UniqueEmails(DeleteById(t, id))
  {
  }

  /** One state-changing call to the service. Listing changes nothing and is
      not a command. */
  datatype Command =
    | CreateCall(request: PatientRequest, newId: Uuid)
    | UpdateCall(request: PatientRequest, id: Uuid)
    | DeleteCall(id: Uuid)

  /** The table after a sequential history of calls. */
  function Replay(t: Table, conversions: Conversions, history: seq<Command>): Table
    decreases |history|
  {
    if history == [] then t
    else
      var next := match history[0]
        case CreateCall(request, newId) => Create(t, conversions, request, newId).table
        case UpdateCall(request, id) => Update(t, conversions, request, id).table
        case DeleteCall(id) => DeleteById(t, id);
      Replay(next, conversions, history[1..])
  }

  /** In any sequential history that starts from a table with unique emails,
      in particular from the empty table, no two rows ever share an email. */
  lemma {:induction false} ReplayPreservesUniqueEmails(t: Table, conversions: Conversions, history: seq<Command>)
    requires CopiesEmail(conversions)
    requires UniqueEmails(t)
    ensures UniqueEmails(Replay(t, conversions, history))
    decreases |history|
  {
    if history != [] {
      match history[0]
      case CreateCall(request, newId) =>
        CreatePreservesUniqueEmails(t, conversions, request, newId);
        ReplayPreservesUniqueEmails(Create(t, conversions, request, newId).table, conversions, history[1..]);
      case UpdateCall(request, id) =>
        UpdatePreservesUniqueEmails(t, conversions, request, id);
        ReplayPreservesUniqueEmails(Update(t, conversions, request, id).table, conversions, history[1..]);
      case DeleteCall(id) =>
        DeletePreservesUniqueEmails(t, id);
        ReplayPreservesUniqueEmails(DeleteById(t, id), conversions, history[1..]);
    }
  }

  /** The registry service over its repository's table. */
  class PatientService {
    var store: Table
    const conversions: Conversions

    /** The service receives its repository (here, the table it holds) and
        its collaborators. */
    constructor (repository: Table, conversions: Conversions)
      ensures store == repository
      ensures this.conversions == conversions
    {
      store := repository;
      this.conversions := conversions;
    }

    /** `getPatients`: every stored row, mapped to a response, in the order
        the store lists them; `rows` is that listing. */
    method GetPatients() returns (responses: seq<PatientResponse>, ghost rows: seq<Patient>)
      ensures Lists(store, rows)
      ensures |responses| == |store|
      ensures forall i :: 0 <= i < |responses| ==> responses[i] == conversions.toDTO(rows[i])
    {
      var patients := FindAll(store);
      responses := ToResponses(conversions.toDTO, patients);
      rows := patients;
    }

    /** `createPatient`: refuses a taken email before saving anything;
        otherwise saves the mapped request under an unused id. `newId` is the
        id the store generated. */
    method CreatePatient(request: PatientRequest) returns (r: Result<PatientResponse, ServiceError>, ghost newId: Uuid)
      modifies this
      ensures newId !in old(store)
      ensures Outcome(r, store) == Create(old(store), conversions, request, newId)
      ensures CopiesEmail(conversions) && UniqueEmails(old(store)) ==> UniqueEmails(store)
    {
      ghost var bound := UnusedIdAbove(store.Keys);
      newId := bound;
      if ExistsByEmail(store, request.email) {
        r := Err(EmailAlreadyExists(request.email));
        return;
      }
      assert bound !in store;
      var id :| id !in store;
      newId := id;
      var entity := conversions.toEntity(request).(id := id);
      store := Save(store, entity);
      r := Ok(conversions.toDTO(entity));
      if CopiesEmail(conversions) && UniqueEmails(old(store)) {
        CreatePreservesUniqueEmails(old(store), conversions, request, newId);
      }
    }

    /** `updatePatient`: looks the row up first, then checks the email
        against the other rows, then sets the four mutable fields of the
        fetched row and saves it. */
    method UpdatePatient(request: PatientRequest, id: Uuid) returns (r: Result<PatientResponse, ServiceError>)
      modifies this
      ensures Outcome(r, store) == Update(old(store), conversions, request, id)
      ensures UniqueEmails(old(store)) ==> UniqueEmails(store)
    {
      var found := FindById(store, id);
      if found.None? {
        r := Err(PatientNotFound(id));
        return;
      }
      var patient := found.value;
      if ExistsByEmailAndIdNot(store, request.email, id) {
        r := Err(EmailAlreadyExists(request.email));
        return;
      }
      patient := patient.(name := request.name);
      patient := patient.(email := request.email);
      patient := patient.(address := request.address);
      patient := patient.(dateOfBirth := conversions.parseDate(request.dateOfBirth));
      store := Save(store, patient);
      r := Ok(conversions.toDTO(patient));
      if UniqueEmails(old(store)) {
        UpdatePreservesUniqueEmails(old(store), conversions, request, id);
      }
    }

    /** `deletePatient`: removes row `id`; an absent id is not an error. */
    method DeletePatient(id: Uuid)
      modifies this
      ensures store == DeleteById(old(store), id)
      ensures UniqueEmails(old(store)) ==> UniqueEmails(store)
    {
      store := DeleteById(store, id);
    }
  }
}
