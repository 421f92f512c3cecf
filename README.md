# Patient registry: a verified model of the service core

This project models the business rules of the patient-service microservice. The service keeps patient records. Each record has an id, name, email, address, date of birth and registered date. Clients list, create, update and delete records. The rules modelled here:

- no two records share an email;
- an update changes only the four mutable fields of one record;
- a failed call leaves the store untouched;
- every failure becomes a fixed 400 response.

The model is sequential. The store is a map from id to record (`Repository.Table`). Every row in it is stored under its own id.

- `Model` holds the records, the two service failures and the collaborators whose code is not part of this model. Those collaborators are the entity/DTO mapper and `LocalDate.parse`. They are passed in as plain functions, with no properties assumed.
- `Repository` holds the two derived queries and the inherited lookup, save, delete and list operations, all over the table.
- `Service` holds each operation twice. One copy is a pure transition from the table before the call to the result and the table after it. The other is a method of the class `PatientService`, which holds the table in a field. The method updates the table in the same steps as the Java code, and it is proved to perform the transition. `Replay` runs a whole sequential history of calls.
- `ExceptionHandler` holds the three handlers. The validation handler folds the field errors into a map with a loop, as the Java `forEach` does.

The HTTP controller answers 200 for list, create and update, and 204 for delete (`PatientController.java` lines 39, 52, 66 and 79). It only routes requests and is not modelled.

## Model

All source paths are under `patient-service/src/main/java/com/icebear/patientservice/`.

| member | source | states |
|---|---|---|
| Repository.ExistsByEmail | patient-service/src/main/java/com/icebear/patientservice/repository/PatientRepository.java:17-23 | true exactly when the email is among the emails held by the stored rows |
| Repository.ExistsByEmailAndIdNot | patient-service/src/main/java/com/icebear/patientservice/repository/PatientRepository.java:24-29 | a hit implies `ExistsByEmail`; when row `id` is absent or holds a different email, the answer is the same as `ExistsByEmail` |
| Repository.ExistsByEmailAndIdNotIgnoresOnlyThatRow | patient-service/src/main/java/com/icebear/patientservice/repository/PatientRepository.java:24-29 | excluding `id` is the same as asking `existsByEmail` of the table without row `id` |
| Repository.FindById | patient-service/src/main/java/com/icebear/patientservice/repository/PatientRepository.java:10 | finds a row exactly when `id` is stored, and returns that row, whose id is `id` |
| Repository.Save | patient-service/src/main/java/com/icebear/patientservice/repository/PatientRepository.java:10 | insert-or-overwrite at the row's id: the key set gains that id, every other row is unchanged, and the size grows by one exactly when the id was new |
| Repository.DeleteById | patient-service/src/main/java/com/icebear/patientservice/repository/PatientRepository.java:10 | row `id` is gone, every other row is unchanged, and deleting an absent id changes nothing |
| Repository.DeleteIsIdempotent | patient-service/src/main/java/com/icebear/patientservice/repository/PatientRepository.java:10 | deleting twice leaves the same table as deleting once |
| Repository.FindAll | patient-service/src/main/java/com/icebear/patientservice/repository/PatientRepository.java:10 | lists every stored row exactly once, in an order the store chooses |
| Repository.UnusedIdAbove | patient-service/src/main/java/com/icebear/patientservice/service/PatientService.java:55 | every finite set of ids has a bound above all of them, so saving a new row can always get an unused id |
| Service.ToResponses | patient-service/src/main/java/com/icebear/patientservice/service/PatientService.java:40 | one response per row, with the `i`th response being `toDTO` of the `i`th row |
| Service.Create | patient-service/src/main/java/com/icebear/patientservice/service/PatientService.java:43-60 | fails, with EmailAlreadyExists and the table unchanged, exactly when the email is taken; on success it adds `toEntity(request)` under the new id, changes no other row, and returns `toDTO` of the saved row |
| Service.Update | patient-service/src/main/java/com/icebear/patientservice/service/PatientService.java:67-89 | an absent id gives PatientNotFound whatever the email; for a present id it fails with EmailAlreadyExists exactly when another row holds the email; a failure leaves the table unchanged; a success sets name, email, address and parsed date of birth of row `id`, keeps its id and registered date, and leaves every other row unchanged |
| Service.ResubmittingOwnEmailSucceeds | patient-service/src/main/java/com/icebear/patientservice/service/PatientService.java:76-78 | with unique emails, updating a row with its own current email succeeds |
| Service.SecondCreateWithSameEmailFails | patient-service/src/main/java/com/icebear/patientservice/service/PatientService.java:45-55 | repeating a create with the same request fails with EmailAlreadyExists and leaves the table as the first call left it |
| Service.UpdateKeepsRegisteredDate | patient-service/src/main/java/com/icebear/patientservice/service/PatientService.java:79-88 | after an update of a stored row, its registered date is the one it had before |
| Service.CreatePreservesUniqueEmails | patient-service/src/main/java/com/icebear/patientservice/service/PatientService.java:45-55 | if emails are pairwise distinct before a create, they are distinct after it, provided the mapper copies the email |
| Service.UpdatePreservesUniqueEmails | patient-service/src/main/java/com/icebear/patientservice/service/PatientService.java:75-88 | if emails are pairwise distinct before an update, they are distinct after it |
| Service.DeletePreservesUniqueEmails | patient-service/src/main/java/com/icebear/patientservice/service/PatientService.java:98 | a delete keeps emails pairwise distinct |
| Service.ReplayPreservesUniqueEmails | patient-service/src/main/java/com/icebear/patientservice/service/PatientService.java:43-99 | in every sequential history of creates, updates and deletes that starts from a table with unique emails, no two rows ever share an email |
| Service.PatientService.GetPatients | patient-service/src/main/java/com/icebear/patientservice/service/PatientService.java:29-41 | returns one response per stored row, `toDTO` of the rows in the store's listing order, and changes nothing |
| Service.PatientService.CreatePatient | patient-service/src/main/java/com/icebear/patientservice/service/PatientService.java:43-65 | checks the email before saving, then saves under an id not in use; result and new table are those of `Create`, and unique emails are kept |
| Service.PatientService.UpdatePatient | patient-service/src/main/java/com/icebear/patientservice/service/PatientService.java:67-89 | looks up, checks the email, sets the four fields of the fetched row and saves; result and new table are those of `Update`, and unique emails are kept |
| Service.PatientService.DeletePatient | patient-service/src/main/java/com/icebear/patientservice/service/PatientService.java:91-99 | the new table is the old one without row `id`, and unique emails are kept |
| ExceptionHandler.CollectedKeys | patient-service/src/main/java/com/icebear/patientservice/exception/GlobalExceptionHandler.java:24-25 | the keys of the folded map are exactly the fields that have errors |
| ExceptionHandler.CollectedKeepsLast | patient-service/src/main/java/com/icebear/patientservice/exception/GlobalExceptionHandler.java:25 | a field with several errors maps to the message of the last one, because a later `put` overwrites |
| ExceptionHandler.HandleValidationException | patient-service/src/main/java/com/icebear/patientservice/exception/GlobalExceptionHandler.java:21-33 | status 400; the body's keys are exactly the failed fields, and each maps to the message of its last error |
| ExceptionHandler.HandleEmailAlreadyExists | patient-service/src/main/java/com/icebear/patientservice/exception/GlobalExceptionHandler.java:37-43 | status 400 and body exactly `{"message": "Email already exists!"}` |
| ExceptionHandler.HandlePatientNotFound | patient-service/src/main/java/com/icebear/patientservice/exception/GlobalExceptionHandler.java:45-51 | status 400 (not 404) and body exactly `{"message": "Patient not found!"}` |
| ExceptionHandler.Handle | patient-service/src/main/java/com/icebear/patientservice/exception/GlobalExceptionHandler.java:37-51 | every service failure gives 400 and a one-key `message` body whose text is fixed by the failure's kind |
| ExceptionHandler.ResponseHidesDetail | patient-service/src/main/java/com/icebear/patientservice/exception/GlobalExceptionHandler.java:39-42 | two failures of the same kind give the same response, so the email or id in the exception (which is only logged) never reaches the body |

## Left out

- The mapper and the DTO classes are not part of this model. `toEntity`, `toDTO` and the date parser are uninterpreted function parameters, and no round trip between them is assumed.
- Email uniqueness after a create needs one assumption about the mapper: the entity built from a request carries the request's email (`Model.CopiesEmail`). The lemmas that need it say so in their `requires`.
- UUID generation is a nondeterministic choice of an id not in the table. Ids are natural numbers, so the model does not cover UUID collisions or the fixed width of a UUID.
- `LocalDate.parse` is assumed to succeed, because its input is validated beforehand. Dates are values that are only stored and compared.
- Request validation, its two validation groups, HTTP routing and the building of `ResponseEntity` objects are framework work and are not modelled. The validation handler starts from the list of field errors the framework collected.
- The order of `findAll` is whatever the database returns. `FindAll` promises every row exactly once and no particular order.
- Persistence, transactions and JPA behaviour are not modelled. That includes what `deleteById` does inside Spring Data on an absent id; here it is plain map removal.
- The service fetches a managed entity and changes it through four setters before saving it. Here that is a record value updated four times and then saved, so the model has no aliasing between the fetched entity and the stored row.
- The check-then-act race between concurrent requests with the same email is not modelled, because the model is sequential.
- Logging is not modelled. That includes the exact text of the two exception messages, which only reaches the log. Each service failure carries the email or id that goes into its message.
- Dependency injection is reduced to the service's constructor receiving its table and its collaborators. The Swagger annotations are not modelled.
