/** The database session the handlers receive: the students table and the
    attendance table, which the handlers change by adding rows and by
    updating a row in place. */
module Database {
  import opened Models

  class Session {
    var students: seq<Student>
    var attendance: seq<Attendance>

    /** A freshly created database: both tables empty. */
    constructor ()
      ensures students == [] && attendance == []
      ensures Valid()
    {
      students := [];
      attendance := [];
    }

    /** The current contents of both tables, as a value. */
    function Contents(): Models.Tables
      reads this
    {
      Models.Tables(students, attendance)
    }

    ghost predicate Valid()
      reads this
    {
      Models.Valid(Contents())
    }
  }
}
