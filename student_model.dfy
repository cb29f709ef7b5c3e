/** A row of the `student` relation, its updatable columns, and what an
    `UPDATE student SET ...` does to one row. */
module StudentModel {
  import opened Wrappers

  /** One row of `student`. Dates are kept as the strings the form sent;
      `photo` is the stored filename, never a URL. */
  datatype Student = Student(
    student_id: int,
    first_name: string,
    last_name: string,
    date_of_birth: Option<string>,
    gender: Option<string>,
    email: string,
    phone_number: Option<string>,
    address: Option<string>,
    enrollment_date: Option<string>,
    photo: Option<string>)

  /** The columns an UPDATE may set; `student_id` is not one of them. */
  datatype Column =
    | FirstName | LastName | DateOfBirth | Gender | Email
    | PhoneNumber | Address | EnrollmentDate | Photo

  /** The columns in the order the update handler lists them. */
  const Columns: seq<Column> :=
    [FirstName, LastName, DateOfBirth, Gender, Email, PhoneNumber, Address, EnrollmentDate, Photo]

  /** Position of a column in `Columns`. */
  function Rank(c: Column): (k: nat)
    ensures k < |Columns| && Columns[k] == c
  {
    match c
    case FirstName => 0
    case LastName => 1
    case DateOfBirth => 2
    case Gender => 3
    case Email => 4
    case PhoneNumber => 5
    case Address => 6
    case EnrollmentDate => 7
    case Photo => 8
  }

  /** The SQL name of a column. */
  function ColumnName(c: Column): string {
    match c
    case FirstName => "first_name"
    case LastName => "last_name"
    case DateOfBirth => "date_of_birth"
    case Gender => "gender"
    case Email => "email"
    case PhoneNumber => "phone_number"
    case Address => "address"
    case EnrollmentDate => "enrollment_date"
    case Photo => "photo"
  }

  lemma ColumnNameInjective(c: Column, d: Column)
    requires ColumnName(c) == ColumnName(d)
    ensures c == d
  {
    assert ColumnName(c)[..2] == ColumnName(d)[..2];
    assert |ColumnName(c)| == |ColumnName(d)|;
  }

  /** The value a column holds in a row, None for SQL NULL. */
  function ColumnValue(s: Student, c: Column): Option<string> {
    match c
    case FirstName => Some(s.first_name)
    case LastName => Some(s.last_name)
    case DateOfBirth => s.date_of_birth
    case Gender => s.gender
    case Email => Some(s.email)
    case PhoneNumber => s.phone_number
    case Address => s.address
    case EnrollmentDate => s.enrollment_date
    case Photo => s.photo
  }

  /** One `column = value` of a SET clause. */
  datatype Assignment = Assignment(column: Column, value: string)

  /** The row after one `SET column = value`: that column holds the value,
      the key and every other column are as they were. */
  function Assign(s: Student, a: Assignment): (t: Student)
    ensures t.student_id == s.student_id
    ensures ColumnValue(t, a.column) == Some(a.value)
    ensures forall c :: c != a.column ==> ColumnValue(t, c) == ColumnValue(s, c)
  {
    match a.column
    case FirstName => s.(first_name := a.value)
    case LastName => s.(last_name := a.value)
    case DateOfBirth => s.(date_of_birth := Some(a.value))
    case Gender => s.(gender := Some(a.value))
    case Email => s.(email := a.value)
    case PhoneNumber => s.(phone_number := Some(a.value))
    case Address => s.(address := Some(a.value))
    case EnrollmentDate => s.(enrollment_date := Some(a.value))
    case Photo => s.(photo := Some(a.value))
  }

  /** The row after a whole SET clause, assignments taken left to right. */
  function Apply(s: Student, assignments: seq<Assignment>): Student
    decreases |assignments|
  {
    if assignments == [] then s else Apply(Assign(s, assignments[0]), assignments[1..])
  }

  /** The value the last assignment to `c` in the clause gives it, if any. */
  function Lookup(assignments: seq<Assignment>, c: Column): Option<string>
    decreases |assignments|
  {
    if assignments == [] then None
    else if Lookup(assignments[1..], c).Some? then Lookup(assignments[1..], c)
    else if assignments[0].column == c then Some(assignments[0].value)
    else None
  }

  /** A SET clause changes exactly the columns it names, to the values it
      gives them, and keeps the key. */
  lemma {:induction false} ApplyEffect(s: Student, assignments: seq<Assignment>, c: Column)
    ensures Apply(s, assignments).student_id == s.student_id
    ensures ColumnValue(Apply(s, assignments), c)
         == if Lookup(assignments, c).Some? then Lookup(assignments, c) else ColumnValue(s, c)
    decreases |assignments|
  {
    if assignments != [] {
      ApplyEffect(Assign(s, assignments[0]), assignments[1..], c);
    }
  }
}
