/** The Course record (models/course.js). */
module CourseModel {
  import opened Common

  /** A stored course. `instructor` references a User; `enrolledStudents` holds User
      references and may be empty. `duration` is the JavaScript number, taken as an integer. */
  datatype Course = Course(
    title: string,
    description: string,
    duration: int,
    instructor: Id,
    enrolledStudents: seq<Id>)

  /** The fields whose `required` validator can fail on a value of this type. */
  datatype CourseField = Title | Description

  /** Mongoose's `required` validator, run on every `save()` of a course, new or loaded: a
      required string must be non-empty; a number, a reference and a list are always present
      here. */
  function ValidationErrors(c: Course): (errors: set<CourseField>)
    ensures errors == {} <==> c.title != "" && c.description != ""
    ensures Title in errors <==> c.title == ""
  {
    (if c.title == "" then {Title} else {}) + (if c.description == "" then {Description} else {})
  }

  /** The document `new Course({ title, description, duration, instructor })` builds:
      no student is enrolled yet. */
  function NewCourse(title: string, description: string, duration: int, instructor: Id): (c: Course)
    ensures c.enrolledStudents == []
    ensures c.instructor == instructor
    ensures ValidationErrors(c) == {} <==> title != "" && description != ""
  {
    Course(title, description, duration, instructor, [])
  }
}
