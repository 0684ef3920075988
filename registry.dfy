/** The academics registry: two collections updated in place by the
 *  create, enrol and clear operations, and read by the detail and list
 *  operations. Every failure is returned as an `Err` value. */
module Academics {
  import opened Records

  /** New academic ids are drawn from 0 .. MaxAcademicId, course ids from
   *  0 .. MaxCourseId (the scale factors of the random draws). */
  const MaxAcademicId := 1000000
  const MaxCourseId := 10000

  /** The membership scan of courseDetails and courseEnrol: walks the member
   *  list by index and stops at the first snapshot carrying `academicId`. */
  method ScanMembers(members: seq<Academic>, academicId: int) returns (found: bool)
    ensures found <==> academicId in AcademicIds(members)
  {
    var i := 0;
    while i < |members|
      invariant 0 <= i <= |members|
      invariant forall j | 0 <= j < i :: members[j].academicId != academicId
    {
      if members[i].academicId == academicId {
        assert AcademicIds(members)[i] == academicId;
        return true;
      }
      i := i + 1;
    }
    found := false;
  }

  class Registry {
    var academics: seq<Academic>
    var courses: seq<Course>

    ghost predicate Valid()
      reads this
    {
      Consistent(academics, courses)
    }

    /** The registry as `clear()` leaves it, the state every use starts from. */
    constructor ()
      ensures Valid()
      ensures academics == [] && courses == []
    {
      academics := [];
      courses := [];
    }

    /** academicCreate(name, hobby). `newId` is the drawn id; it must be in
     *  range and not already in use. */
    method AcademicCreate(name: string, hobby: string, newId: int) returns (r: Result<int>)
      requires Valid()
      requires 0 <= newId <= MaxAcademicId
      requires newId !in AcademicIds(academics)
      modifies this
      ensures Valid()
      ensures r.Err? <==> name == "" || hobby == ""
      ensures r.Err? ==> r.error == Validation && academics == old(academics)
      ensures r.Ok? ==> r.value == newId && academics == old(academics) + [Academic(newId, name, hobby)]
      ensures courses == old(courses)
    {
      if name == "" {
        return Err(Validation);
      }
      if hobby == "" {
        return Err(Validation);
      }
      var academic := Academic(newId, name, hobby);
      AppendAcademicConsistent(academics, courses, academic);
      academics := academics + [academic];
      r := Ok(newId);
    }

    /** courseCreate(academicId, name, description). The creator must exist
     *  (checked first), then name and description must be non-empty. */
    method CourseCreate(academicId: int, name: string, description: string, newId: int) returns (r: Result<int>)
      requires Valid()
      requires 0 <= newId <= MaxCourseId
      requires newId !in CourseIds(courses)
      modifies this
      ensures Valid()
      ensures academics == old(academics)
      ensures academicId !in AcademicIds(academics) ==> r == Err(NotFound) && courses == old(courses)
      ensures academicId in AcademicIds(academics) && (name == "" || description == "")
          ==> r == Err(Validation) && courses == old(courses)
      ensures r.Ok? <==> academicId in AcademicIds(academics) && name != "" && description != ""
      ensures r.Ok? ==>
          var creator := FindAcademic(academics, academicId).value;
          && r.value == newId
          && courses == old(courses) + [Course(newId, name, description, [creator], [creator])]
    {
      var creator := FindAcademic(academics, academicId);
      if creator.None? {
        return Err(NotFound);
      }
      if name == "" {
        return Err(Validation);
      }
      if description == "" {
        return Err(Validation);
      }
      AppendCourseConsistent(academics, courses, creator.value, newId, name, description);
      courses := courses + [Course(newId, name, description, [creator.value], [creator.value])];
      r := Ok(newId);
    }

    /** academicDetails(academicId, academicToViewId): both must exist; the
     *  first only has to exist, the record returned is the second's. */
    function AcademicDetails(academicId: int, academicToViewId: int): (r: Result<Academic>)
      reads this
      ensures r.Ok? <==> academicId in AcademicIds(academics) && academicToViewId in AcademicIds(academics)
      ensures r.Err? ==> r.error == NotFound
      ensures r.Ok? ==> r.value in academics && r.value.academicId == academicToViewId
    {
      if FindAcademic(academics, academicId).None? then Err(NotFound)
      else match FindAcademic(academics, academicToViewId)
        case None => Err(NotFound)
        case Some(view) => Ok(view)
    }

    /** courseDetails(academicId, courseId): the academic must exist, then the
     *  course, then the academic must be one of the course's members. */
    method CourseDetails(academicId: int, courseId: int) returns (r: Result<Course>)
      ensures academicId !in AcademicIds(academics) ==> r == Err(NotFound)
      ensures courseId !in CourseIds(courses) ==> r == Err(NotFound)
      ensures academicId in AcademicIds(academics) && courseId in CourseIds(courses) ==>
          var course := courses[CourseIndex(courses, courseId).value];
          r == if academicId in AcademicIds(course.allMembers) then Ok(course) else Err(NotEnrolled)
    {
      if FindAcademic(academics, academicId).None? {
        return Err(NotFound);
      }
      var k := CourseIndex(courses, courseId);
      if k.None? {
        return Err(NotFound);
      }
      var course := courses[k.value];
      var enrolled := ScanMembers(course.allMembers, academicId);
      if enrolled {
        return Ok(course);
      }
      r := Err(NotEnrolled);
    }

    /** academicsList(academicId): every academic's id and name, in
     *  registration order, for any registered requester. */
    method AcademicsList(academicId: int) returns (r: Result<seq<AcademicSummary>>)
      ensures r.Ok? <==> academicId in AcademicIds(academics)
      ensures r.Err? ==> r.error == NotFound
      ensures r.Ok? ==> |r.value| == |academics|
      ensures r.Ok? ==> forall i | 0 <= i < |academics| ::
          r.value[i] == AcademicSummary(academics[i].academicId, academics[i].name)
    {
      if FindAcademic(academics, academicId).None? {
        return Err(NotFound);
      }
      var summaries := [];
      var i := 0;
      while i < |academics|
        invariant 0 <= i <= |academics|
        invariant |summaries| == i
        invariant forall j | 0 <= j < i ::
            summaries[j] == AcademicSummary(academics[j].academicId, academics[j].name)
      {
        summaries := summaries + [AcademicSummary(academics[i].academicId, academics[i].name)];
        i := i + 1;
      }
      r := Ok(summaries);
    }

    /** coursesList(academicId): every course's id and name, in creation
     *  order, for any registered requester. */
    method CoursesList(academicId: int) returns (r: Result<seq<CourseSummary>>)
      ensures r.Ok? <==> academicId in AcademicIds(academics)
      ensures r.Err? ==> r.error == NotFound
      ensures r.Ok? ==> |r.value| == |courses|
      ensures r.Ok? ==> forall i | 0 <= i < |courses| ::
          r.value[i] == CourseSummary(courses[i].courseId, courses[i].name)
    {
      if FindAcademic(academics, academicId).None? {
        return Err(NotFound);
      }
      var summaries := [];
      var i := 0;
      while i < |courses|
        invariant 0 <= i <= |courses|
        invariant |summaries| == i
        invariant forall j | 0 <= j < i ::
            summaries[j] == CourseSummary(courses[j].courseId, courses[j].name)
      {
        summaries := summaries + [CourseSummary(courses[i].courseId, courses[i].name)];
        i := i + 1;
      }
      r := Ok(summaries);
    }

    /** courseEnrol(academicId, courseId, isStaff): the academic must exist,
     *  then the course, then the academic must not already be a member. On
     *  success only that course changes. */
    method CourseEnrol(academicId: int, courseId: int, isStaff: bool) returns (r: Result<()>)
      requires Valid()
      modifies this
      ensures Valid()
      ensures academics == old(academics)
      ensures academicId !in AcademicIds(academics) || courseId !in CourseIds(old(courses))
          ==> r == Err(NotFound) && courses == old(courses)
      ensures academicId in AcademicIds(academics) && courseId in CourseIds(old(courses)) ==>
          var k := CourseIndex(old(courses), courseId).value;
          var course := old(courses)[k];
          if academicId in AcademicIds(course.allMembers) then
            r == Err(AlreadyEnrolled) && courses == old(courses)
          else
            && r == Ok(())
            && courses == old(courses)[k := WithMember(course, FindAcademic(academics, academicId).value, isStaff)]
    {
      var academic := FindAcademic(academics, academicId);
      if academic.None? {
        return Err(NotFound);
      }
      var picked := CourseIndex(courses, courseId);
      if picked.None? {
        return Err(NotFound);
      }
      var k := picked.value;
      var enrolled := ScanMembers(courses[k].allMembers, academicId);
      if enrolled {
        return Err(AlreadyEnrolled);
      }
      EnrolConsistent(academics, courses, k, academic.value, isStaff);
      courses := courses[k := WithMember(courses[k], academic.value, isStaff)];
      r := Ok(());
    }

    /** clear(): empties both collections. */
    method Clear() returns (r: Result<()>)
      modifies this
      ensures Valid()
      ensures academics == [] && courses == []
      ensures r == Ok(())
    {
      academics := [];
      courses := [];
      r := Ok(());
    }
  }

  /** Any registered requester sees exactly the stored record of any
   *  registered academic. */
  lemma AcademicDetailsShowsRecord(registry: Registry, requester: int, a: Academic)
    requires registry.Valid()
    requires requester in AcademicIds(registry.academics)
    requires a in registry.academics
    ensures registry.AcademicDetails(requester, a.academicId) == Ok(a)
  {
    FindAcademicUnique(registry.academics, a);
  }
}
