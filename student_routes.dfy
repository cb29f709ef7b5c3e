/** The five handlers of the student routes over an abstract store: the
    `student` table, the AUTO_INCREMENT counter that hands out ids, and the
    set of filenames in the uploads directory. */
module StudentRoutes {
  import opened Wrappers
  import opened Photos
  import opened StudentModel
  import opened UpdateFields
  import opened Ordering

  /** Why a handler failed. */
  datatype Cause = ConnectionFailed | StudentNotFound | NoFieldsProvided

  /** An HTTPException as it leaves a handler. */
  datatype HttpError = HttpError(status: int, cause: Cause)

  /** What `except Exception as e: raise HTTPException(500, ...)` makes of an
      exception raised inside a handler's try block, the handler's own
      HTTPExceptions included. */
  function Rethrown(e: HttpError): HttpError {
    HttpError(500, e.cause)
  }

  /** Raised when `get_connection()` returns None. */
  const ConnectionError := HttpError(500, ConnectionFailed)

  /** The form of POST /students: three required fields, three optional. */
  datatype AddForm = AddForm(
    first_name: string,
    last_name: string,
    email: string,
    gender: Option<string>,
    phone_number: Option<string>,
    address: Option<string>)

  /** An uploaded file; only its original name matters to the store. */
  datatype Upload = Upload(filename: string)

  datatype Added = Added(id: int, photo_filename: Option<string>, photo_url: Option<string>)

  /** A fetched row together with its derived `photo_url`. */
  datatype Fetched = Fetched(student: Student, photo_url: Option<string>)

  datatype Updated = Updated(id: int, updated_fields: seq<string>, photo: Option<string>, photo_url: Option<string>)

  /** The row `INSERT INTO student(first_name, last_name, email, gender,
      phone_number, address)` creates under the generated id. */
  function InsertedRow(id: int, form: AddForm): Student {
    Student(id, form.first_name, form.last_name, None, form.gender, form.email,
            form.phone_number, form.address, None, None)
  }

  /** A row as the read handlers return it. */
  function WithPhotoUrl(base: string, s: Student): Fetched {
    Fetched(s, PhotoUrl(base, s.photo))
  }

  /** The photo filename the update handler settles on: the stored name of
      the new upload, or else the current one. */
  function PhotoAfterUpdate(studentId: int, current: Option<string>, photo: Option<Upload>): Option<string> {
    if photo.Some? then Some(PhotoFilename(studentId, photo.value.filename)) else current
  }

  /** The uploads directory after the update handler's photo step. */
  function FilesAfterUpdate(files: set<string>, studentId: int, current: Option<string>, photo: Option<Upload>): set<string> {
    if photo.None? then files
    else (files - FileOf(current)) + {PhotoFilename(studentId, photo.value.filename)}
  }

  /** The file a photo column refers to, if the column is truthy. */
  function FileOf(photo: Option<string>): set<string> {
    if Truthy(photo) then {photo.value} else {}
  }

  /** Every row is stored under its own id, below the counter, so ids are
      never handed out twice; a row's photo names an existing file that by
      its `{id}_` prefix belongs to that row and to no other. */
  ghost predicate StoreInvariant(table: map<int, Student>, nextId: int, uploads: set<string>) {
    && nextId >= 1
    && (forall id :: id in table ==> 1 <= id < nextId && table[id].student_id == id)
    && (forall id :: id in table && table[id].photo.Some? ==>
          table[id].photo.value in uploads && PhotoOwner(table[id].photo.value) == Some(id))
  }

  /** Inserting a photo-less row under the counter's id and advancing the
      counter keeps the invariant. */
  lemma InsertKeepsInvariant(table: map<int, Student>, nextId: int, uploads: set<string>, row: Student)
    requires StoreInvariant(table, nextId, uploads)
    requires row.student_id == nextId && row.photo.None?
    ensures nextId !in table
    ensures StoreInvariant(table[nextId := row], nextId + 1, uploads)
  {
  }

  /** Replacing row `id` keeps the invariant when the new row keeps the id,
      its photo file exists and belongs to it, and only files belonging to
      `id` left the directory. */
  lemma ReplaceKeepsInvariant(table: map<int, Student>, nextId: int, uploads: set<string>,
                              uploads': set<string>, id: int, row: Student)
    requires StoreInvariant(table, nextId, uploads)
    requires id in table && row.student_id == id
    requires row.photo.Some? ==> row.photo.value in uploads' && PhotoOwner(row.photo.value) == Some(id)
    requires forall f :: f in uploads && f !in uploads' ==> PhotoOwner(f) == Some(id)
    ensures StoreInvariant(table[id := row], nextId, uploads')
  {
    var t := table[id := row];
    forall j | j in t && t[j].photo.Some?
      ensures t[j].photo.value in uploads' && PhotoOwner(t[j].photo.value) == Some(j)
    {
      if j != id {
        assert t[j] == table[j];
      }
    }
  }

  /** Writing `{id}_{name}` and recording it in row `id` keeps the
      invariant. */
  lemma AttachKeepsInvariant(table: map<int, Student>, nextId: int, uploads: set<string>,
                             id: int, uploadName: string)
    requires StoreInvariant(table, nextId, uploads) && id in table
    ensures var f := PhotoFilename(id, uploadName);
      StoreInvariant(table[id := table[id].(photo := Some(f))], nextId, uploads + {f})
  {
    var f := PhotoFilename(id, uploadName);
    PhotoFilenameRoundTrip(id, uploadName);
    ReplaceKeepsInvariant(table, nextId, uploads, uploads + {f}, id, table[id].(photo := Some(f)));
  }

  /** The update handler's photo step removes at most the row's own file,
      and the filename it settles on exists and belongs to the row. */
  lemma PhotoStepKeepsOwnership(table: map<int, Student>, nextId: int, uploads: set<string>,
                                id: int, photo: Option<Upload>)
    requires StoreInvariant(table, nextId, uploads) && id in table
    ensures var files := FilesAfterUpdate(uploads, id, table[id].photo, photo);
      && (forall f :: f in uploads && f !in files ==> PhotoOwner(f) == Some(id))
      && (PhotoAfterUpdate(id, table[id].photo, photo).Some? ==>
            var name := PhotoAfterUpdate(id, table[id].photo, photo).value;
            name in files && PhotoOwner(name) == Some(id))
  {
    if photo.Some? {
      PhotoFilenameRoundTrip(id, photo.value.filename);
    }
  }

  /** A whole successful update (photo step, then the UPDATE of the
      selected columns) keeps the invariant. */
  lemma UpdateKeepsInvariant(table: map<int, Student>, nextId: int, uploads: set<string>,
                             id: int, form: UpdateForm, photo: Option<Upload>)
    requires StoreInvariant(table, nextId, uploads) && id in table
    ensures var pf := PhotoAfterUpdate(id, table[id].photo, photo);
      StoreInvariant(table[id := Apply(table[id], SelectProvided(Candidates(form, pf)))],
                     nextId, FilesAfterUpdate(uploads, id, table[id].photo, photo))
  {
    var pf := PhotoAfterUpdate(id, table[id].photo, photo);
    var row := Apply(table[id], SelectProvided(Candidates(form, pf)));
    PhotoStepKeepsOwnership(table, nextId, uploads, id, photo);
    UpdatedColumns(table[id], form, pf, Photo);
    assert row.photo == pf;
    ReplaceKeepsInvariant(table, nextId, uploads, FilesAfterUpdate(uploads, id, table[id].photo, photo), id, row);
  }

  /** Deleting row `id` keeps the invariant when only files belonging to
      `id` left the directory. */
  lemma RemoveKeepsInvariant(table: map<int, Student>, nextId: int, uploads: set<string>,
                             uploads': set<string>, id: int)
    requires StoreInvariant(table, nextId, uploads)
    requires forall f :: f in uploads && f !in uploads' ==> PhotoOwner(f) == Some(id)
    ensures StoreInvariant(table - {id}, nextId, uploads')
  {
    var t := table - {id};
    forall j | j in t && t[j].photo.Some?
      ensures t[j].photo.value in uploads'
    {
      assert t[j] == table[j];
    }
  }

  /** Rows listed in key-scan order come from the table, ascend by id and
      include every row of the table. */
  lemma ScanListing(base: string, table: map<int, Student>, nextId: int, uploads: set<string>,
                    rows: seq<Fetched>)
    requires StoreInvariant(table, nextId, uploads)
    requires var ids := KeyScan(table.Keys, 1, nextId);
      |rows| == |ids| && forall k :: 0 <= k < |ids| ==> rows[k] == WithPhotoUrl(base, table[ids[k]])
    ensures forall i :: 0 <= i < |rows| ==>
      rows[i].student.student_id in table
      && rows[i] == WithPhotoUrl(base, table[rows[i].student.student_id])
    ensures forall i, j :: 0 <= i < j < |rows| ==>
      rows[i].student.student_id < rows[j].student.student_id
    ensures forall id :: id in table ==>
      exists i :: 0 <= i < |rows| && rows[i].student.student_id == id
  {
    var ids := KeyScan(table.Keys, 1, nextId);
    assert forall k :: 0 <= k < |rows| ==> rows[k].student.student_id == ids[k];
    forall id | id in table
      ensures exists k :: 0 <= k < |rows| && rows[k].student.student_id == id
    {
      var k :| 0 <= k < |ids| && ids[k] == id;
      assert rows[k].student.student_id == id;
    }
  }

  class StudentStore {
    /** The `student` relation, keyed by student_id. */
    var table: map<int, Student>
    /** The id AUTO_INCREMENT hands to the next inserted row. */
    var nextId: int
    /** The names of the files in the uploads directory. */
    var uploads: set<string>
    /** PHOTO_BASE_URL, read from the environment. */
    const photoBaseUrl: string

    ghost predicate Valid()
      reads this
    {
      StoreInvariant(table, nextId, uploads)
    }

    /** An empty table whose uploads directory already holds `files`. */
    constructor (photoBaseUrl: string, files: set<string>)
      ensures Valid()
      ensures this.photoBaseUrl == photoBaseUrl
      ensures table == map[] && nextId == 1 && uploads == files
    {
      this.photoBaseUrl := photoBaseUrl;
      table := map[];
      nextId := 1;
      uploads := files;
    }

    /** POST /students: insert the six columns under a fresh id, then, with
        a photo, write `{id}_{name}` and record it in the row. */
    method AddStudent(connected: bool, form: AddForm, photo: Option<Upload>) returns (r: Result<Added, HttpError>)
      requires Valid()
      modifies this
      ensures Valid()
      ensures !connected ==>
        r == Err(ConnectionError) && table == old(table) && nextId == old(nextId) && uploads == old(uploads)
      ensures connected ==> old(nextId) !in old(table) && nextId == old(nextId) + 1
      ensures connected && photo.None? ==>
        && r == Ok(Added(old(nextId), None, None))
        && table == old(table)[old(nextId) := InsertedRow(old(nextId), form)]
        && uploads == old(uploads)
      ensures connected && photo.Some? ==>
        var f := PhotoFilename(old(nextId), photo.value.filename);
        && r == Ok(Added(old(nextId), Some(f), Some(photoBaseUrl + "/" + f)))
        && table == old(table)[old(nextId) := InsertedRow(old(nextId), form).(photo := Some(f))]
        && uploads == old(uploads) + {f}
    {
      if !connected {
        return Err(ConnectionError);
      }
      var photoFilename: Option<string> := None;
      var photoUrl: Option<string> := None;
      var studentId := nextId;
      InsertKeepsInvariant(table, nextId, uploads, InsertedRow(studentId, form));
      table := table[studentId := InsertedRow(studentId, form)];
      nextId := nextId + 1;
      if photo.Some? {
        var f := PhotoFilename(studentId, photo.value.filename);
        AttachKeepsInvariant(table, nextId, uploads, studentId, photo.value.filename);
        uploads := uploads + {f};
        photoFilename := Some(f);
        photoUrl := Some(photoBaseUrl + "/" + f);
        table := table[studentId := table[studentId].(photo := photoFilename)];
      }
      r := Ok(Added(studentId, photoFilename, photoUrl));
    }

    /** GET /students/{id}: the row with its photo URL. A missing id raises
        404 inside the try block, which the handler re-raises as 500. */
    method ViewSingleStudent(connected: bool, studentId: int) returns (r: Result<Fetched, HttpError>)
      requires Valid()
      ensures !connected ==> r == Err(ConnectionError)
      ensures connected && studentId !in table ==> r == Err(HttpError(500, StudentNotFound))
      ensures connected && studentId in table ==> r == Ok(WithPhotoUrl(photoBaseUrl, table[studentId]))
      ensures r.Ok? ==> r.value.student.student_id == studentId
      ensures r.Ok? ==> (r.value.photo_url.Some? <==> r.value.student.photo.Some?)
    {
      if !connected {
        return Err(ConnectionError);
      }
      if studentId !in table {
        return Err(Rethrown(HttpError(404, StudentNotFound)));
      }
      var student := table[studentId];
      var photoUrl := if Truthy(student.photo) then Some(photoBaseUrl + "/" + student.photo.value) else None;
      r := Ok(Fetched(student, photoUrl));
    }

    /** GET /students: every row once, ascending by id, each with its photo
        URL; an empty table gives an empty list. */
    method ViewAllStudents(connected: bool) returns (r: Result<seq<Fetched>, HttpError>)
      requires Valid()
      ensures !connected ==> r == Err(ConnectionError)
      ensures connected ==> r.Ok?
      ensures r.Ok? ==> forall i :: 0 <= i < |r.value| ==>
        r.value[i].student.student_id in table
        && r.value[i] == WithPhotoUrl(photoBaseUrl, table[r.value[i].student.student_id])
      ensures r.Ok? ==> forall i, j :: 0 <= i < j < |r.value| ==>
        r.value[i].student.student_id < r.value[j].student.student_id
      ensures r.Ok? ==> forall id :: id in table ==>
        exists i :: 0 <= i < |r.value| && r.value[i].student.student_id == id
    {
      if !connected {
        return Err(ConnectionError);
      }
      var ids := KeyScan(table.Keys, 1, nextId);
      var rows: seq<Fetched> := [];
      var i := 0;
      while i < |ids|
        invariant 0 <= i <= |ids|
        invariant |rows| == i
        invariant forall k :: 0 <= k < i ==> rows[k] == WithPhotoUrl(photoBaseUrl, table[ids[k]])
      {
        var student := table[ids[i]];
        var photoUrl := if Truthy(student.photo) then Some(photoBaseUrl + "/" + student.photo.value) else None;
        rows := rows + [Fetched(student, photoUrl)];
        i := i + 1;
      }
      ScanListing(photoBaseUrl, table, nextId, uploads, rows);
      r := Ok(rows);
    }

    /** PUT /students/{id}: replace the photo file when one is uploaded, then
        set exactly the columns whose value is not None. */
    method UpdateStudent(connected: bool, studentId: int, form: UpdateForm, photo: Option<Upload>)
      returns (r: Result<Updated, HttpError>)
      requires Valid()
      modifies this
      ensures Valid() && nextId == old(nextId)
      ensures !connected ==> r == Err(ConnectionError) && table == old(table) && uploads == old(uploads)
      ensures connected && studentId !in old(table) ==>
        r == Err(HttpError(500, StudentNotFound)) && table == old(table) && uploads == old(uploads)
      ensures connected && studentId in old(table) ==>
        var current := old(table)[studentId].photo;
        var pf := PhotoAfterUpdate(studentId, current, photo);
        var sel := SelectProvided(Candidates(form, pf));
        if sel == [] then
          r == Err(HttpError(500, NoFieldsProvided)) && table == old(table) && uploads == old(uploads)
        else
          && r == Ok(Updated(studentId, FieldNames(sel), pf, PhotoUrl(photoBaseUrl, pf)))
          && table == old(table)[studentId := Apply(old(table)[studentId], sel)]
          && uploads == FilesAfterUpdate(old(uploads), studentId, current, photo)
    {
      if !connected {
        return Err(ConnectionError);
      }
      if studentId !in table {
        return Err(Rethrown(HttpError(404, StudentNotFound)));
      }
      r := UpdateExisting(studentId, form, photo);
    }

    /** The update handler once the row is known to exist: the photo step,
        then the UPDATE of the selected columns, or 400 (re-raised as 500)
        when nothing is selected. */
    method UpdateExisting(studentId: int, form: UpdateForm, photo: Option<Upload>)
      returns (r: Result<Updated, HttpError>)
      requires Valid() && studentId in table
      modifies this
      ensures Valid() && nextId == old(nextId)
      ensures var current := old(table)[studentId].photo;
        var pf := PhotoAfterUpdate(studentId, current, photo);
        var sel := SelectProvided(Candidates(form, pf));
        if sel == [] then
          r == Err(HttpError(500, NoFieldsProvided)) && table == old(table) && uploads == old(uploads)
        else
          && r == Ok(Updated(studentId, FieldNames(sel), pf, PhotoUrl(photoBaseUrl, pf)))
          && table == old(table)[studentId := Apply(old(table)[studentId], sel)]
          && uploads == FilesAfterUpdate(old(uploads), studentId, current, photo)
    {
      ghost var table0, uploads0 := table, uploads;
      var currentPhoto := table[studentId].photo;
      var photoFilename := ReplacePhoto(studentId, currentPhoto, photo);
      var updateData := SelectProvided(Candidates(form, photoFilename));
      if updateData == [] {
        NoFieldsExactly(form, photoFilename);
        return Err(Rethrown(HttpError(400, NoFieldsProvided)));
      }
      // The statement and its parameters; executing them is modelled by
      // the assignment to `table` below, which applies the same selection.
      var query, values := UpdateQuery(updateData, studentId);
      UpdateKeepsInvariant(table0, nextId, uploads0, studentId, form, photo);
      table := table[studentId := Apply(table[studentId], updateData)];
      var photoUrl := if Truthy(photoFilename) then Some(photoBaseUrl + "/" + photoFilename.value) else None;
      r := Ok(Updated(studentId, FieldNames(updateData), photoFilename, photoUrl));
    }

    /** The update handler's photo step: with a new upload, remove the
        current file if the column is truthy and the file exists, then write
        `{id}_{name}`; without one, keep the current filename. */
    method ReplacePhoto(studentId: int, current: Option<string>, photo: Option<Upload>)
      returns (photoFilename: Option<string>)
      modifies this`uploads
      ensures photoFilename == PhotoAfterUpdate(studentId, current, photo)
      ensures uploads == FilesAfterUpdate(old(uploads), studentId, current, photo)
    {
      photoFilename := current;
      if photo.Some? {
        if Truthy(current) && current.value in uploads {
          uploads := uploads - {current.value};
        }
        photoFilename := Some(PhotoFilename(studentId, photo.value.filename));
        uploads := uploads + {photoFilename.value};
      }
    }

    /** DELETE /students/{id}: remove the row, then its photo file. */
    method DeleteStudent(connected: bool, studentId: int) returns (r: Result<int, HttpError>)
      requires Valid()
      modifies this
      ensures Valid() && nextId == old(nextId)
      ensures !connected ==> r == Err(ConnectionError) && table == old(table) && uploads == old(uploads)
      ensures connected && studentId !in old(table) ==>
        r == Err(HttpError(500, StudentNotFound)) && table == old(table) && uploads == old(uploads)
      ensures connected && studentId in old(table) ==>
        && r == Ok(studentId)
        && table == old(table) - {studentId}
        && uploads == old(uploads) - FileOf(old(table)[studentId].photo)
    {
      if !connected {
        return Err(ConnectionError);
      }
      if studentId !in table {
        return Err(Rethrown(HttpError(404, StudentNotFound)));
      }
      var photoName := table[studentId].photo;
      RemoveKeepsInvariant(table, nextId, uploads, uploads - FileOf(photoName), studentId);
      table := table - {studentId};
      if Truthy(photoName) && photoName.value in uploads {
        uploads := uploads - {photoName.value};
      }
      r := Ok(studentId);
    }
  }
}
