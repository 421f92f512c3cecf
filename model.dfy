/**
 * The records of the patient registry: the stored Patient entity, the request
 * and response shapes that cross the HTTP boundary, the failures the service
 * raises, and the collaborators whose code is not part of this model (the
 * entity/DTO mapper and the ISO date parser), passed in as plain functions.
 */
module Model {

  datatype Option<+T> = None | Some(value: T)

  datatype Result<+T, +E> = Ok(value: T) | Err(error: E)

  /** A patient id. The store generates it on insertion (a UUID in the
      service); only its identity matters here, so it is a natural number and
      ids never collide. */
  type Uuid = nat

  /** A calendar date, the value `LocalDate.parse` yields. It is only stored,
      copied and compared, so its representation is immaterial. */
  datatype Date = Date(epochDay: int)

  /** The stored entity: one row of the patient table. */
  datatype Patient = Patient(
    id: Uuid,
    name: string,
    email: string,
    address: string,
    dateOfBirth: Date,
    registeredDate: Date)

  /** The request body of create and update. The registered date is only
      supplied (and only validated) on create. */
  datatype PatientRequest = PatientRequest(
    name: string,
    email: string,
    address: string,
    dateOfBirth: string,
    registeredDate: Option<string>)

  /** The response body: every field of the row except the registered date. */
  datatype PatientResponse = PatientResponse(
    id: Uuid,
    name: string,
    email: string,
    address: string,
    dateOfBirth: string)

  /** The two business-rule failures the service raises. Each carries the
      value that went into its exception message, which is only logged. */
  datatype ServiceError =
    | EmailAlreadyExists(email: string)
    | PatientNotFound(id: Uuid)

  /** The code the service calls but whose behaviour is outside this model:
      the mapper from request to entity and from entity to response, and the
      date parser applied to a pre-validated ISO date string. Nothing is
      assumed about them unless a lemma says so. */
  datatype Conversions = Conversions(
    toEntity: PatientRequest -> Patient,
    toDTO: Patient -> PatientResponse,
    parseDate: string -> Date)

  /** The one property of the mapper that email uniqueness depends on: the
      entity built from a request carries the request's email. */
  ghost predicate CopiesEmail(conversions: Conversions) {
    forall request :: conversions.toEntity(request).email == request.email
  }
}
