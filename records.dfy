/** Values held by the academics registry: academic and course records, the
 *  summaries the list operations return, the error kinds, the `find`-style
 *  lookups every operation starts with, and the invariant the registry keeps. */
module Records {

  /** An academic. A course's member lists hold snapshots of the same shape:
   *  copies of the academic's id, name and hobby taken at enrolment. */
  datatype Academic = Academic(academicId: int, name: string, hobby: string)

  /** A course with its staff snapshots and all-member snapshots, both in
   *  enrolment order. */
  datatype Course = Course(
    courseId: int,
    name: string,
    description: string,
    staffMembers: seq<Academic>,
    allMembers: seq<Academic>)

  /** An entry of the result of academicsList. */
  datatype AcademicSummary = AcademicSummary(academicId: int, academicName: string)

  /** An entry of the result of coursesList. */
  datatype CourseSummary = CourseSummary(courseId: int, courseName: string)

  /** The kinds of `{error: ...}` the operations return; the message text is
   *  not part of the behaviour. */
  datatype Error = NotFound | Validation | NotEnrolled | AlreadyEnrolled

  datatype Result<T> = Ok(value: T) | Err(error: Error)

  datatype Option<T> = None | Some(value: T)

  function AcademicIds(s: seq<Academic>): seq<int>
  {
    seq(|s|, i requires 0 <= i < |s| => s[i].academicId)
  }

  function CourseIds(s: seq<Course>): seq<int>
  {
    seq(|s|, i requires 0 <= i < |s| => s[i].courseId)
  }

  predicate Distinct(ids: seq<int>)
  {
    forall i, j | 0 <= i < j < |ids| :: ids[i] != ids[j]
  }

  /** The position `Array.prototype.find` stops at when it looks for `id`:
   *  the first occurrence, or none. */
  function FirstIndex(ids: seq<int>, id: int): (r: Option<nat>)
    ensures r.None? <==> id !in ids
    ensures r.Some? ==> r.value < |ids| && ids[r.value] == id && id !in ids[..r.value]
  {
    if ids == [] then None
    else if ids[0] == id then Some(0)
    else
      assert ids == [ids[0]] + ids[1..];
      match FirstIndex(ids[1..], id)
      case None => None
      case Some(k) =>
        assert ids[..k + 1] == [ids[0]] + ids[1..][..k];
        Some(k + 1)
  }

  /** `academics.find(a => a.academicId === id)`. */
  function FindAcademic(academics: seq<Academic>, id: int): (r: Option<Academic>)
    ensures r.Some? <==> id in AcademicIds(academics)
    ensures r.Some? ==> r.value in academics && r.value.academicId == id
  {
    match FirstIndex(AcademicIds(academics), id)
    case None => None
    case Some(k) => Some(academics[k])
  }

  /** `courses.indexOf(courses.find(c => c.courseId === id))`, with the
   *  not-found case as None. */
  function CourseIndex(courses: seq<Course>, id: int): (r: Option<nat>)
    ensures r.Some? <==> id in CourseIds(courses)
    ensures r.Some? ==> r.value < |courses| && courses[r.value].courseId == id
  {
    FirstIndex(CourseIds(courses), id)
  }

  /** A course after `academic` is enrolled: a snapshot is appended to
   *  allMembers, and to staffMembers when `isStaff` holds. */
  function WithMember(course: Course, academic: Academic, isStaff: bool): Course
  {
    course.(
      staffMembers := if isStaff then course.staffMembers + [academic] else course.staffMembers,
      allMembers := course.allMembers + [academic])
  }

  /** What every course in the registry satisfies. */
  ghost predicate CourseConsistent(course: Course, academics: seq<Academic>)
  {
    && course.name != ""
    && course.description != ""
    // the creator is the first staff member and the first member
    && course.staffMembers != []
    && course.allMembers != []
    && course.staffMembers[0] == course.allMembers[0]
    // an academic is a member at most once, staff at most once
    && Distinct(AcademicIds(course.allMembers))
    && Distinct(AcademicIds(course.staffMembers))
    // every staff member is a member, every member a registered academic
    && (forall m | m in course.staffMembers :: m in course.allMembers)
    && (forall m | m in course.allMembers :: m in academics)
  }

  /** The registry invariant: ids unique in each collection, required strings
   *  non-empty, every course consistent. */
  ghost predicate Consistent(academics: seq<Academic>, courses: seq<Course>)
  {
    && Distinct(AcademicIds(academics))
    && Distinct(CourseIds(courses))
    && (forall a | a in academics :: a.name != "" && a.hobby != "")
    && (forall k | 0 <= k < |courses| :: CourseConsistent(courses[k], academics))
  }

  lemma AcademicIdsAppend(s: seq<Academic>, a: Academic)
    ensures AcademicIds(s + [a]) == AcademicIds(s) + [a.academicId]
  {
  }

  lemma CourseIdsAppend(s: seq<Course>, c: Course)
    ensures CourseIds(s + [c]) == CourseIds(s) + [c.courseId]
  {
  }

  lemma DistinctAppend(ids: seq<int>, id: int)
    requires Distinct(ids) && id !in ids
    ensures Distinct(ids + [id])
  {
  }

  /** Looking up an id after an append finds the old entry when there is one,
   *  and the appended entry otherwise. */
  lemma {:induction false} FirstIndexAppend(ids: seq<int>, x: int, id: int)
    ensures FirstIndex(ids + [x], id)
         == if id in ids then FirstIndex(ids, id) else if x == id then Some(|ids|) else None
  {
    if ids != [] {
      assert (ids + [x])[1..] == ids[1..] + [x];
      FirstIndexAppend(ids[1..], x, id);
    }
  }

  /** With distinct ids, `find` returns THE academic that carries the id. */
  lemma FindAcademicUnique(academics: seq<Academic>, a: Academic)
    requires Distinct(AcademicIds(academics))
    requires a in academics
    ensures FindAcademic(academics, a.academicId) == Some(a)
  {
    var j :| 0 <= j < |academics| && academics[j] == a;
    assert AcademicIds(academics)[j] == a.academicId;
  }

  /** A newly appended academic is found by its id, and every lookup that
   *  succeeded before returns the same record. */
  lemma FindAcademicAfterAppend(academics: seq<Academic>, a: Academic, id: int)
    requires a.academicId !in AcademicIds(academics)
    ensures FindAcademic(academics + [a], id)
         == if id == a.academicId then Some(a) else FindAcademic(academics, id)
  {
    AcademicIdsAppend(academics, a);
    FirstIndexAppend(AcademicIds(academics), a.academicId, id);
  }

  /** A newly appended course is found at the end, and every course that was
   *  found before is found at the same index. */
  lemma CourseIndexAfterAppend(courses: seq<Course>, c: Course, id: int)
    requires c.courseId !in CourseIds(courses)
    ensures CourseIndex(courses + [c], id)
         == if id == c.courseId then Some(|courses|) else CourseIndex(courses, id)
  {
    CourseIdsAppend(courses, c);
    FirstIndexAppend(CourseIds(courses), c.courseId, id);
  }

  /** Staff ids are member ids. */
  lemma StaffIdsAreMemberIds(course: Course, academics: seq<Academic>, id: int)
    requires CourseConsistent(course, academics)
    requires id in AcademicIds(course.staffMembers)
    ensures id in AcademicIds(course.allMembers)
  {
    var i :| 0 <= i < |course.staffMembers| && course.staffMembers[i].academicId == id;
    var m := course.staffMembers[i];
    assert m in course.staffMembers;
    var j :| 0 <= j < |course.allMembers| && course.allMembers[j] == m;
    assert AcademicIds(course.allMembers)[j] == id;
  }

  /** Enrolling an academic who is not yet a member makes them a member, and a
   *  staff member exactly when `isStaff` holds. */
  lemma EnrolMembership(course: Course, academics: seq<Academic>, a: Academic, isStaff: bool)
    requires CourseConsistent(course, academics)
    requires a.academicId !in AcademicIds(course.allMembers)
    ensures a.academicId in AcademicIds(WithMember(course, a, isStaff).allMembers)
    ensures a.academicId in AcademicIds(WithMember(course, a, isStaff).staffMembers) <==> isStaff
  {
    var after := WithMember(course, a, isStaff);
    AcademicIdsAppend(course.allMembers, a);
    if isStaff {
      AcademicIdsAppend(course.staffMembers, a);
    } else if a.academicId in AcademicIds(course.staffMembers) {
      StaffIdsAreMemberIds(course, academics, a.academicId);
    }
  }

  /** academicCreate keeps the registry consistent. */
  lemma AppendAcademicConsistent(academics: seq<Academic>, courses: seq<Course>, a: Academic)
    requires Consistent(academics, courses)
    requires a.academicId !in AcademicIds(academics)
    requires a.name != "" && a.hobby != ""
    ensures Consistent(academics + [a], courses)
  {
    AcademicIdsAppend(academics, a);
    DistinctAppend(AcademicIds(academics), a.academicId);
  }

  /** courseCreate keeps the registry consistent. */
  lemma AppendCourseConsistent(academics: seq<Academic>, courses: seq<Course>, creator: Academic,
                               courseId: int, name: string, description: string)
    requires Consistent(academics, courses)
    requires creator in academics
    requires courseId !in CourseIds(courses)
    requires name != "" && description != ""
    ensures Consistent(academics, courses + [Course(courseId, name, description, [creator], [creator])])
  {
    CourseIdsAppend(courses, Course(courseId, name, description, [creator], [creator]));
    DistinctAppend(CourseIds(courses), courseId);
  }

  /** courseEnrol keeps the registry consistent. */
  lemma EnrolConsistent(academics: seq<Academic>, courses: seq<Course>, k: nat, a: Academic, isStaff: bool)
    requires Consistent(academics, courses)
    requires k < |courses|
    requires a in academics
    requires a.academicId !in AcademicIds(courses[k].allMembers)
    ensures Consistent(academics, courses[k := WithMember(courses[k], a, isStaff)])
  {
    var course := courses[k];
    var after := WithMember(course, a, isStaff);
    var courses' := courses[k := after];
    assert CourseIds(courses') == CourseIds(courses);
    AcademicIdsAppend(course.allMembers, a);
    DistinctAppend(AcademicIds(course.allMembers), a.academicId);
    if isStaff {
      AcademicIdsAppend(course.staffMembers, a);
      if a.academicId in AcademicIds(course.staffMembers) {
        StaffIdsAreMemberIds(course, academics, a.academicId);
      }
      DistinctAppend(AcademicIds(course.staffMembers), a.academicId);
    }
    assert CourseConsistent(after, academics);
  }
}
