/** The pure part of the update handler: which columns a PUT sets (the
    None-dropping dict comprehension), the `updated_fields` it reports, and
    the parameterised `UPDATE student SET ... WHERE student_id = %s`. */
module UpdateFields {
  import opened Wrappers
  import opened StudentModel

  /** The optional form fields of an update, None where the caller sent none. */
  datatype UpdateForm = UpdateForm(
    first_name: Option<string>,
    last_name: Option<string>,
    date_of_birth: Option<string>,
    gender: Option<string>,
    email: Option<string>,
    phone_number: Option<string>,
    address: Option<string>,
    enrollment_date: Option<string>)

  /** True when the caller sent none of the eight form fields. */
  predicate FormIsEmpty(form: UpdateForm) {
    && form.first_name.None? && form.last_name.None? && form.date_of_birth.None?
    && form.gender.None? && form.email.None? && form.phone_number.None?
    && form.address.None? && form.enrollment_date.None?
  }

  /** The value offered for a column: its form field, or for `photo` the
      filename the photo step settled on. */
  function Offered(form: UpdateForm, photo: Option<string>, c: Column): Option<string> {
    match c
    case FirstName => form.first_name
    case LastName => form.last_name
    case DateOfBirth => form.date_of_birth
    case Gender => form.gender
    case Email => form.email
    case PhoneNumber => form.phone_number
    case Address => form.address
    case EnrollmentDate => form.enrollment_date
    case Photo => photo
  }

  /** One entry of the `data` dict: a column and a value that may be None. */
  datatype Field = Field(column: Column, value: Option<string>)

  predicate FieldsAscending(data: seq<Field>) {
    forall i, j :: 0 <= i < j < |data| ==> Rank(data[i].column) < Rank(data[j].column)
  }

  predicate AssignmentsAscending(sel: seq<Assignment>) {
    forall i, j :: 0 <= i < j < |sel| ==> Rank(sel[i].column) < Rank(sel[j].column)
  }

  /** The `data` dict, every column once, in the fixed column order. */
  function Candidates(form: UpdateForm, photo: Option<string>): seq<Field> {
    [ Field(FirstName, form.first_name),
      Field(LastName, form.last_name),
      Field(DateOfBirth, form.date_of_birth),
      Field(Gender, form.gender),
      Field(Email, form.email),
      Field(PhoneNumber, form.phone_number),
      Field(Address, form.address),
      Field(EnrollmentDate, form.enrollment_date),
      Field(Photo, photo)]
  }

  /** `data` lists the columns in their fixed order. */
  lemma CandidatesAscending(form: UpdateForm, photo: Option<string>)
    ensures FieldsAscending(Candidates(form, photo))
  {
  }

  /** `data` holds, for every column, the value offered for it, and no
      other entry. */
  lemma CandidatesOffer(form: UpdateForm, photo: Option<string>, f: Field)
    ensures f in Candidates(form, photo) <==> f.value == Offered(form, photo, f.column)
  {
    var data := Candidates(form, photo);
    var j := Rank(f.column);
    assert data[j] == Field(f.column, Offered(form, photo, f.column));
    if f in data {
      var i :| 0 <= i < |data| && data[i] == f;
      assert !(i < j) && !(j < i);
    }
  }

  /** `update_data`: the entries of `data` whose value is not None, in
      their original order. */
  function SelectProvided(data: seq<Field>): (sel: seq<Assignment>)
    ensures |sel| <= |data|
    decreases |data|
  {
    if data == [] then []
    else
      var rest := SelectProvided(data[1..]);
      if data[0].value.Some? then [Assignment(data[0].column, data[0].value.value)] + rest else rest
  }

  /** `update_data` holds exactly the entries of `data` that are not None. */
  lemma {:induction false} SelectProvidedMembers(data: seq<Field>)
    ensures forall a :: a in SelectProvided(data) <==> Field(a.column, Some(a.value)) in data
    decreases |data|
  {
    if data != [] {
      SelectProvidedMembers(data[1..]);
      assert forall f :: f in data <==> f == data[0] || f in data[1..];
    }
  }

  /** `update_data` keeps the order of `data`. */
  lemma {:induction false} SelectProvidedAscending(data: seq<Field>)
    requires FieldsAscending(data)
    ensures AssignmentsAscending(SelectProvided(data))
    decreases |data|
  {
    if data != [] {
      assert FieldsAscending(data[1..]);
      SelectProvidedAscending(data[1..]);
      if data[0].value.Some? {
        SelectedAfterHead(data);
        PrependAscending(Assignment(data[0].column, data[0].value.value), SelectProvided(data[1..]));
      }
    }
  }

  /** In ascending `data`, every entry selected from the tail follows the head. */
  lemma SelectedAfterHead(data: seq<Field>)
    requires FieldsAscending(data) && data != []
    ensures forall a :: a in SelectProvided(data[1..]) ==> Rank(data[0].column) < Rank(a.column)
  {
    var tail := data[1..];
    SelectProvidedMembers(tail);
    forall a | a in SelectProvided(tail)
      ensures Rank(data[0].column) < Rank(a.column)
    {
      var k :| 0 <= k < |tail| && tail[k] == Field(a.column, Some(a.value));
      assert data[k + 1] == tail[k];
    }
  }

  /** An assignment ranked below every member of an ascending clause can lead it. */
  lemma PrependAscending(x: Assignment, rest: seq<Assignment>)
    requires AssignmentsAscending(rest)
    requires forall a :: a in rest ==> Rank(x.column) < Rank(a.column)
    ensures AssignmentsAscending([x] + rest)
  {
    var sel := [x] + rest;
    forall i, j | 0 <= i < j < |sel|
      ensures Rank(sel[i].column) < Rank(sel[j].column)
    {
      assert sel[j] == rest[j - 1] && rest[j - 1] in rest;
      if i > 0 {
        assert sel[i] == rest[i - 1];
      }
    }
  }

  /** In a clause that names every column at most once, Lookup finds
      exactly the assignments the clause holds. */
  lemma {:induction false} LookupAscending(sel: seq<Assignment>, c: Column)
    requires AssignmentsAscending(sel)
    ensures Lookup(sel, c).Some? ==> Assignment(c, Lookup(sel, c).value) in sel
    ensures forall v :: Assignment(c, v) in sel ==> Lookup(sel, c) == Some(v)
    decreases |sel|
  {
    if sel != [] {
      var rest := sel[1..];
      LookupAscending(rest, c);
      forall v | Assignment(c, v) in sel
        ensures Lookup(sel, c) == Some(v)
      {
        if Assignment(c, v) !in rest {
          assert sel[0] == Assignment(c, v);
        }
      }
    }
  }

  /** The update set holds exactly the offered values that are not None,
      in the fixed column order. */
  lemma SelectionMatchesForm(form: UpdateForm, photo: Option<string>, c: Column)
    ensures AssignmentsAscending(SelectProvided(Candidates(form, photo)))
    ensures Lookup(SelectProvided(Candidates(form, photo)), c) == Offered(form, photo, c)
  {
    var data := Candidates(form, photo);
    var sel := SelectProvided(data);
    SelectProvidedMembers(data);
    CandidatesAscending(form, photo);
    SelectProvidedAscending(data);
    LookupAscending(sel, c);
    CandidatesOffer(form, photo, Field(c, Offered(form, photo, c)));
    if Lookup(sel, c).Some? {
      CandidatesOffer(form, photo, Field(c, Some(Lookup(sel, c).value)));
    }
  }

  /** An update sets each column to the value offered for it when there is
      one and leaves every other column, and the key, as they were. */
  lemma UpdatedColumns(row: Student, form: UpdateForm, photo: Option<string>, c: Column)
    ensures Apply(row, SelectProvided(Candidates(form, photo))).student_id == row.student_id
    ensures ColumnValue(Apply(row, SelectProvided(Candidates(form, photo))), c)
         == if Offered(form, photo, c).Some? then Offered(form, photo, c) else ColumnValue(row, c)
  {
    ApplyEffect(row, SelectProvided(Candidates(form, photo)), c);
    SelectionMatchesForm(form, photo, c);
  }

  /** Every entry of the update set is a value offered for its column. */
  lemma SelectedAreOffered(form: UpdateForm, photo: Option<string>, a: Assignment)
    requires a in SelectProvided(Candidates(form, photo))
    ensures Offered(form, photo, a.column) == Some(a.value)
  {
    SelectProvidedMembers(Candidates(form, photo));
    CandidatesOffer(form, photo, Field(a.column, Some(a.value)));
  }

  /** The update set is empty exactly when no form field was sent and
      there is no photo filename, new or current. */
  lemma NoFieldsExactly(form: UpdateForm, photo: Option<string>)
    ensures SelectProvided(Candidates(form, photo)) == [] <==> FormIsEmpty(form) && photo.None?
  {
    var sel := SelectProvided(Candidates(form, photo));
    if sel == [] {
      forall c ensures Offered(form, photo, c).None? {
        SelectionMatchesForm(form, photo, c);
      }
      assert Offered(form, photo, FirstName).None? && Offered(form, photo, LastName).None?;
      assert Offered(form, photo, DateOfBirth).None? && Offered(form, photo, Gender).None?;
      assert Offered(form, photo, Email).None? && Offered(form, photo, PhoneNumber).None?;
      assert Offered(form, photo, Address).None? && Offered(form, photo, EnrollmentDate).None?;
      assert Offered(form, photo, Photo).None?;
    } else {
      SelectedAreOffered(form, photo, sel[0]);
    }
  }

  /** A clause in column order that names one column only has at most
      one assignment. */
  lemma AtMostOneAssignment(sel: seq<Assignment>, c: Column)
    requires AssignmentsAscending(sel)
    requires forall a :: a in sel ==> a.column == c
    ensures |sel| <= 1
  {
    if |sel| > 1 {
      FirstTwoDiffer(sel);
      assert false;
    }
  }

  /** The first two assignments of an ascending clause set different columns. */
  lemma FirstTwoDiffer(sel: seq<Assignment>)
    requires AssignmentsAscending(sel) && |sel| > 1
    ensures sel[0] in sel && sel[1] in sel && sel[0].column != sel[1].column
  {
  }

  /** When a value is offered for one column only, the update sets that
      column alone. */
  lemma SingleOffered(form: UpdateForm, photo: Option<string>, c: Column, v: string)
    requires Offered(form, photo, c) == Some(v)
    requires forall d :: d != c ==> Offered(form, photo, d).None?
    ensures SelectProvided(Candidates(form, photo)) == [Assignment(c, v)]
  {
    var sel := SelectProvided(Candidates(form, photo));
    forall a | a in sel
      ensures a == Assignment(c, v)
    {
      SelectedAreOffered(form, photo, a);
    }
    SelectionMatchesForm(form, photo, c);
    LookupAscending(sel, c);
    AtMostOneAssignment(sel, c);
  }

  /** `list(update_data.keys())`. */
  function FieldNames(sel: seq<Assignment>): (names: seq<string>)
    ensures |names| == |sel|
    decreases |sel|
  {
    if sel == [] then [] else [ColumnName(sel[0].column)] + FieldNames(sel[1..])
  }

  /** The i-th name reported is the name of the i-th column set. */
  lemma {:induction false} FieldNameAt(sel: seq<Assignment>, i: int)
    requires 0 <= i < |sel|
    ensures FieldNames(sel)[i] == ColumnName(sel[i].column)
    decreases i
  {
    if i > 0 {
      FieldNameAt(sel[1..], i - 1);
    }
  }

  /** `updated_fields` names a column exactly when a value was offered for
      it, and lists the names in the fixed column order. */
  lemma UpdatedFieldsListing(form: UpdateForm, photo: Option<string>, c: Column)
    ensures AssignmentsAscending(SelectProvided(Candidates(form, photo)))
    ensures ColumnName(c) in FieldNames(SelectProvided(Candidates(form, photo)))
        <==> Offered(form, photo, c).Some?
  {
    var data := Candidates(form, photo);
    var sel := SelectProvided(data);
    var names := FieldNames(sel);
    SelectionMatchesForm(form, photo, c);
    if ColumnName(c) in names {
      var i :| 0 <= i < |names| && names[i] == ColumnName(c);
      FieldNameAt(sel, i);
      ColumnNameInjective(sel[i].column, c);
      LookupAscending(sel, c);
      assert sel[i] in sel;
    }
    if Offered(form, photo, c).Some? {
      LookupAscending(sel, c);
      var k :| 0 <= k < |sel| && sel[k] == Assignment(c, Lookup(sel, c).value);
      FieldNameAt(sel, k);
    }
  }

  /** `", ".join(parts)`. */
  function Join(parts: seq<string>, sep: string): string
    decreases |parts|
  {
    if |parts| == 0 then ""
    else if |parts| == 1 then parts[0]
    else parts[0] + sep + Join(parts[1..], sep)
  }

  /** The driver's placeholder for one parameter. */
  const Placeholder: string := "%s"

  /** `[f"{key} = %s" for key in update_data.keys()]`. */
  function SetItems(sel: seq<Assignment>): seq<string> {
    seq(|sel|, i requires 0 <= i < |sel| => ColumnName(sel[i].column) + " = " + Placeholder)
  }

  const UpdateHead: string := "UPDATE student SET "
  const ItemSeparator: string := ", "
  const WhereKey: string := " WHERE student_id = "

  /** The statement text the handler executes. */
  function UpdateStatement(sel: seq<Assignment>): string {
    UpdateHead + Join(SetItems(sel), ItemSeparator) + WhereKey + Placeholder
  }

  /** A parameter passed to the driver beside the statement. */
  datatype SqlParam = Text(text: string) | Key(id: int)

  /** `values`: the selected values in order, then the student id. */
  function UpdateParams(sel: seq<Assignment>, studentId: int): seq<SqlParam> {
    seq(|sel|, i requires 0 <= i < |sel| => Text(sel[i].value)) + [Key(studentId)]
  }

  /** Number of conversions the driver's `%` formatting finds in a
      statement: every '%' opens one. */
  function Conversions(s: string): nat
    decreases |s|
  {
    if s == [] then 0 else (if s[0] == '%' then 1 else 0) + Conversions(s[1..])
  }

  /** Conversions add up over concatenation. */
  lemma {:induction false} ConversionsConcat(a: string, b: string)
    ensures Conversions(a + b) == Conversions(a) + Conversions(b)
    decreases |a|
  {
    if a == [] {
      assert a + b == b;
    } else {
      assert (a + b)[1..] == a[1..] + b;
      ConversionsConcat(a[1..], b);
    }
  }

  /** Text without '%' holds no conversion. */
  lemma {:induction false} NoConversions(s: string)
    requires '%' !in s
    ensures Conversions(s) == 0
    decreases |s|
  {
    if s != [] {
      assert s == [s[0]] + s[1..];
      NoConversions(s[1..]);
    }
  }

  /** `text %s` holds one conversion when the text has no '%'. */
  lemma PlaceholderAfter(text: string)
    requires '%' !in text
    ensures Conversions(text + Placeholder) == 1
  {
    NoConversions(text);
    ConversionsConcat(text, Placeholder);
  }

  /** Joining parts that hold one placeholder each with a separator that
      holds none gives one placeholder per part. */
  lemma {:induction false} JoinConversions(parts: seq<string>, sep: string)
    requires '%' !in sep
    requires forall i :: 0 <= i < |parts| ==> Conversions(parts[i]) == 1
    ensures Conversions(Join(parts, sep)) == |parts|
    decreases |parts|
  {
    if |parts| > 1 {
      var tail := parts[1..];
      assert forall i :: 0 <= i < |tail| ==> tail[i] == parts[i + 1];
      JoinConversions(tail, sep);
      NoConversions(sep);
      ConversionsConcat(parts[0], sep);
      ConversionsConcat(parts[0] + sep, Join(tail, sep));
    }
  }

  /** Each `key = %s` item holds one conversion: column names have no '%'. */
  lemma ItemConversions(c: Column)
    ensures Conversions(ColumnName(c) + " = " + Placeholder) == 1
  {
    assert '%' !in ColumnName(c) + " = ";
    PlaceholderAfter(ColumnName(c) + " = ");
  }

  /** The SET clause holds one conversion per selected column. */
  lemma ConversionsOfSetClause(sel: seq<Assignment>)
    ensures Conversions(Join(SetItems(sel), ItemSeparator)) == |sel|
  {
    var items := SetItems(sel);
    forall i | 0 <= i < |items|
      ensures Conversions(items[i]) == 1
    {
      ItemConversions(sel[i].column);
    }
    JoinConversions(items, ItemSeparator);
  }

  /** Text around the SET clause adds the WHERE clause's single conversion. */
  lemma Framed(head: string, clause: string, where: string)
    requires '%' !in head && '%' !in where
    ensures Conversions(head + clause + where + Placeholder) == Conversions(clause) + 1
  {
    NoConversions(head);
    PlaceholderAfter(where);
    ConversionsConcat(head, clause);
    assert head + clause + where + Placeholder == (head + clause) + (where + Placeholder);
    ConversionsConcat(head + clause, where + Placeholder);
  }

  /** The whole statement holds one conversion per column plus one for the key. */
  lemma ConversionsOfStatement(sel: seq<Assignment>)
    ensures Conversions(UpdateStatement(sel)) == |sel| + 1
  {
    ConversionsOfSetClause(sel);
    Framed(UpdateHead, Join(SetItems(sel), ItemSeparator), WhereKey);
  }

  /** The statement has one placeholder per parameter: one `key = %s` per
      selected column plus the one in the WHERE clause; the parameters are
      the selected values in the same order, then the student id. */
  lemma PlaceholdersMatchParams(sel: seq<Assignment>, studentId: int)
    ensures Conversions(UpdateStatement(sel)) == |UpdateParams(sel, studentId)| == |sel| + 1
    ensures forall i :: 0 <= i < |sel| ==> UpdateParams(sel, studentId)[i] == Text(sel[i].value)
    ensures UpdateParams(sel, studentId)[|sel|] == Key(studentId)
  {
    ConversionsOfStatement(sel);
  }

  /** The statement and parameters the handler hands to `cursor.execute`;
      the driver's `%` formatting consumes every parameter. */
  method UpdateQuery(sel: seq<Assignment>, studentId: int) returns (query: string, values: seq<SqlParam>)
    ensures query == UpdateStatement(sel) && values == UpdateParams(sel, studentId)
    ensures Conversions(query) == |values| == |sel| + 1
  {
    query := UpdateStatement(sel);
    values := UpdateParams(sel, studentId);
    PlaceholdersMatchParams(sel, studentId);
  }
}
