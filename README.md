# Academics registry in Dafny

A model of `academics.js`, an in-memory registry of academics and courses.
The registry holds two collections. The academics collection holds
`{academicId, name, hobby}` records. The courses collection holds
`{courseId, name, description, staffMembers, allMembers}` records, where both
member lists hold snapshots of academics in enrolment order. Seven operations
read or update the registry, and `clear` empties it. Every failure is returned
as a value and never thrown.

- `records.dfy` (module `Records`) holds the value types and the error kinds:
  NotFound, Validation, NotEnrolled and AlreadyEnrolled. It also holds the
  `find`-style lookups (`FirstIndex`, `FindAcademic`, `CourseIndex`) and the
  registry invariant `Consistent`. Each operation that changes the registry
  has a lemma proving it keeps that invariant.
- `registry.dfy` (module `Academics`) holds the class `Registry`. Its fields
  `academics` and `courses` are updated in place by `AcademicCreate`,
  `CourseCreate`, `CourseEnrol` and `Clear`. `AcademicDetails` is a function
  of the state. `CourseDetails`, `AcademicsList` and `CoursesList` are
  read-only methods with the loops the source has. `ScanMembers` is the
  member scan shared by courseDetails and courseEnrol.
- `idgen.dfy` (module `IdGeneration`) models how new ids are drawn. It holds
  the loop as written and the reject-and-redraw generator the documentation
  promises (see Findings).
- `scenarios.dfy` (module `Scenarios`) holds callers of the registry. Some
  replay the cases of `academics.test.js`. The others state properties that
  link two operations, for every registry and every input.

`Registry.Valid()` is the invariant. Academic ids are distinct, and so are
course ids. Names, hobbies and descriptions are non-empty. Each course's
creator is the first staff member and the first member. Within a course,
member ids are distinct and staff ids are distinct. Every staff snapshot is
also a member snapshot, and every member snapshot is a registered academic.

## Model

| member | source | states |
|---|---|---|
| `Records.FirstIndex` | academics.js:107-115 | `find` stops at the first entry carrying the id: the index holds the id, no earlier entry does, and there is no result exactly when the id is absent |
| `Records.FindAcademic` | academics.js:107-115 | the academic lookup fails exactly when no academic has the id; otherwise it returns a stored academic carrying that id |
| `Records.CourseIndex` | academics.js:340-345 | `indexOf(find(...))` fails exactly when no course has the id; otherwise it gives the position of a course carrying that id |
| `Records.FindAcademicUnique` | academics.js:66-72 | when academic ids are unique, looking up any stored academic's id returns exactly that record |
| `Records.FindAcademicAfterAppend` | academics.js:88-94 | after a fresh academic is pushed, its id finds the new record and every other id finds what it found before |
| `Records.CourseIndexAfterAppend` | academics.js:136-156 | after a fresh course is pushed, it is found at the end and every other course id is found where it was before |
| `Records.EnrolMembership` | academics.js:366-377 | enrolling a non-member makes them a member, and makes them staff if and only if `isStaff` is true |
| `Records.AppendAcademicConsistent` | academics.js:74-92 | appending a valid academic with a fresh id keeps the registry invariant |
| `Records.AppendCourseConsistent` | academics.js:134-154 | appending a course with a fresh id, non-empty strings and the creator's snapshot as its only staff member and only member keeps the invariant |
| `Records.EnrolConsistent` | academics.js:359-377 | appending a registered non-member's snapshot to one course keeps the invariant: member ids stay distinct and staff stay members |
| `Academics.ScanMembers` | academics.js:235-247 | the member scan finds a snapshot exactly when the academic's id is among the member ids |
| `Academics.Registry.constructor` | academics.test.js:29-31 | the registry starts empty, as every test leaves it after `clear()`, and satisfies the invariant |
| `Academics.Registry.AcademicCreate` | academics.js:74-95 | fails with Validation and changes nothing if and only if name or hobby is empty; otherwise it returns the new id and appends exactly `{id, name, hobby}`; courses never change and the invariant is kept |
| `Academics.Registry.CourseCreate` | academics.js:106-157 | an unknown academic gives NotFound, checked before the strings; an empty name or description then gives Validation; both failures change nothing; otherwise it returns the new id and appends one course whose staff list and member list are each exactly the creator's snapshot |
| `Academics.Registry.AcademicDetails` | academics.js:167-199 | succeeds if and only if both ids are registered, otherwise NotFound; on success it returns a stored record carrying the viewed id, whatever the requester; it reads the state and changes nothing |
| `Academics.Registry.CourseDetails` | academics.js:215-252 | an unknown academic or an unknown course gives NotFound; a requester who is not in the course's member list gets NotEnrolled; otherwise it returns the stored course with both member lists as stored |
| `Academics.Registry.AcademicsList` | academics.js:264-287 | succeeds if and only if the requester is registered, otherwise NotFound; the list has one entry per academic, in registration order, and entry i is academic i's id and name |
| `Academics.Registry.CoursesList` | academics.js:300-322 | succeeds if and only if the requester is registered, otherwise NotFound; the list has one entry per course, in creation order, and entry i is course i's id and name |
| `Academics.Registry.CourseEnrol` | academics.js:336-379 | an unknown academic or an unknown course gives NotFound, and a current member gives AlreadyEnrolled; all three change nothing; otherwise only that course changes: one snapshot is added to its member list, and to its staff list when `isStaff` is true; the invariant is kept |
| `Academics.Registry.Clear` | academics.js:381-385 | both collections are empty afterwards and the result is the empty success |
| `Academics.AcademicDetailsShowsRecord` | academics.js:186-198 | any registered requester who views any registered academic gets exactly that academic's stored record |
| `IdGeneration.RedrawAsWritten` | academics.js:82-86 | the id loop as written returns the last of its draws, one more draw than there are entries, without ever comparing a draw with the ids in use |
| `IdGeneration.RedrawAsWrittenCanCollide` | academics.js:128-132 | as soon as one id is in use, some run of draws makes the loop as written return that id again |
| `IdGeneration.DrawFreshId` | academics.js:66-68 | the reject-and-redraw generator returns only a draw that is not in use, and returns nothing exactly when every draw is in use |
| `Scenarios.CreateThenView` | academics.test.js:137-157 | after a successful academicCreate, any registered requester, the new academic included, sees exactly the given name and hobby |
| `Scenarios.CreateThenCourseDetails` | academics.test.js:192-214 | after a successful courseCreate, the creator sees the course with their own snapshot as its only staff member and only member |
| `Scenarios.EnrolThenCourseDetails` | academics.test.js:388-397 | after a successful courseEnrol the academic can view the course, is a member, and is staff if and only if enrolled as staff |
| `Scenarios.EnrolTwice` | academics.js:359-365 | once an enrolment succeeds, enrolling the same academic in the same course again fails with AlreadyEnrolled, whatever either staff flag is |
| `Scenarios.ClearThenRequest` | academics.js:381-384 | after clear, academicDetails, courseDetails, academicsList, coursesList and courseEnrol all fail with NotFound for every id |
| `Scenarios.ListsIgnoreRequester` | academics.test.js:300-353 | any two registered requesters get identical academic lists and identical course lists |

## Left out

- Random id generation: `Math.round(Math.random() * N)` is replaced by an id the caller passes in (`newId`). The range 0..N is kept as `MaxAcademicId` (1000000) and `MaxCourseId` (10000).
- Academics.Registry.AcademicCreate: requires `newId` not already in use. This is stronger than the source, whose loop never checks for collisions (see Findings).
- Academics.Registry.CourseCreate: requires `newId` not already in use, for the same reason.
- Seed data (academics.js:25-55): the registry starts empty. The seed is inconsistent with itself: the member snapshot's name differs from the academic record, and the course has a stray `academicId` field. Every test clears the registry before it runs.
- Error message text: only the error kind is modelled. The tests check only that the message is a string.
- The `academicId === ""` and `academicToViewId === ""` checks (academics.js:111, 175, 178). With integer ids these cases fall into NotFound. Both paths return an error, so nothing observable is lost.
- JavaScript's dynamic typing: ids are `int`, strings are `seq<char>`, and `isStaff` is a `bool`. Truthy non-boolean flags are not modelled.
- Aliasing: courseDetails returns the course's live member arrays (academics.js:242-243). The model returns them as values.

## Findings

| source | as written | input that shows it | evidently intended | confidence | as-written member | corrected member |
|---|---|---|---|---|---|---|
| academics.js:82-86 | `for (newAcademicId in dataStore.academics)` re-draws once per existing academic and never compares a draw with the ids in use, so academicCreate can return an id that is already taken | one academic with id 7, and random draws 3 then 7: the new academic also gets id 7 | a "unique academic id" (academics.js:66-68): reject a draw that is in use and draw again | high; not executed | `IdGeneration.RedrawAsWritten`, `IdGeneration.RedrawAsWrittenCanCollide` | `IdGeneration.DrawFreshId`; `Academics.Registry.AcademicCreate` accepts only an id not in use |
| academics.js:128-132 | the same loop over `dataStore.courses` for course ids, drawn from only 0..10000 | one course with id 7, and random draws 3 then 7 | a course id not used by any other course | high; not executed | `IdGeneration.RedrawAsWritten`, `IdGeneration.RedrawAsWrittenCanCollide` | `IdGeneration.DrawFreshId`; `Academics.Registry.CourseCreate` accepts only an id not in use |
