# Student records with photos — a Dafny model

This project models the five HTTP handlers of the student routes
(`routes/student_routes.py`) of a small FastAPI + MySQL CRUD service:

- `POST /students` adds a student;
- `GET /students/{id}` and `GET /students` read one or all students;
- `PUT /students/{id}` updates any subset of a student's columns;
- `DELETE /students/{id}` deletes a student.

Any handler may also store or delete the student's photo file.

The database and the uploads directory are abstract state of the class
`StudentRoutes.StudentStore`. It holds:

- `table`: the `student` relation, keyed by `student_id`;
- `nextId`: the AUTO_INCREMENT counter that hands out ids;
- `uploads`: the set of file names in the uploads directory;
- `photoBaseUrl`: the configured `PHOTO_BASE_URL`.

Each handler is a method that changes this state as the code does. It returns
either a datatype holding the data fields of the handler's JSON body or an
`HttpError`. The fixed `Message`/`message` text of each body is dropped, and
the delete handler's result is just the deleted id. Whether
`get_connection()` succeeds is a `connected` parameter.

The store keeps an invariant, `Valid()`:

- every row is stored under its own id, and that id lies below the counter;
- a row's `photo` names a file that exists;
- by its `{id}_` prefix, that file belongs to that row and to no other row.

The last point needs the naming convention to be unambiguous. It is, because
the decimal rendering of an id has no `_`. `Photos.PhotoFilenameRoundTrip`
proves this with a parser for stored names. From it, `Valid()` shows that
deleting or re-photographing one student never removes another student's
file.

The pure part of the update handler lives in `UpdateFields`. It covers:

- the `data` dict and its None-dropping comprehension;
- the reported `updated_fields`;
- the `UPDATE student SET ... WHERE student_id = %s` text with its parameters.

It proves three things. First, an update sets exactly the offered columns and
leaves the others alone. Second, the update set is empty exactly when nothing
was offered. Third, the statement has exactly one `%s` per parameter.

The handlers raise their own `HTTPException`s with status 404 for a missing id
(routes/student_routes.py lines 110, 203 and 287) and 400 for an empty update
(line 239). Each of them is raised inside the handler's `try` block, and the
`except Exception` clause catches it and re-raises it as 500. The model
follows what the code does: its handlers answer 500 with the cause
`StudentNotFound` or `NoFieldsProvided`, never 404 or 400.
`Scenarios.DeleteThenView` shows this for a read after a delete.

Python truthiness is modelled where the code tests a value with `if x:`. Both
None and `""` are false, via `Photos.Truthy`. The filter `v is not None`
keeps `""`.

## Model

| member | source | states |
|---|---|---|
| StudentRoutes.StudentStore.constructor | routes/student_routes.py:11-17 | An empty table, with the counter at 1, over an uploads directory that may already hold files; the invariant holds. |
| StudentRoutes.StudentStore.AddStudent | routes/student_routes.py:20-76 | Without a connection: error 500 and nothing changes. Otherwise the six form columns are inserted under the counter's id, which was unused, and the counter advances. With a photo, `{id}_{name}` is written, recorded in the row and returned with its URL. Without one, the photo filename and URL are None. The invariant is kept. |
| StudentRoutes.StudentStore.ViewSingleStudent | routes/student_routes.py:83-125 | Without a connection: error 500. A missing id gives 500 (StudentNotFound), not 404. Otherwise the stored row is returned with its key and with a URL exactly when the photo column is truthy. |
| StudentRoutes.StudentStore.ViewAllStudents | routes/student_routes.py:132-171 | Without a connection: error 500. Otherwise every row of the table appears, each as stored with its URL, strictly ascending by student_id. |
| StudentRoutes.ScanListing | routes/student_routes.py:140-164 | Rows listed in primary-key order come from the table, ascend by id and include every row. |
| Ordering.KeyScan | routes/student_routes.py:153 | `ORDER BY student_id ASC`: the result holds exactly the keys in range, strictly ascending. |
| StudentRoutes.StudentStore.UpdateStudent | routes/student_routes.py:179-268 | Without a connection or without the row: error 500 and nothing changes. Otherwise it behaves as UpdateExisting. The counter never moves and the invariant is kept. |
| StudentRoutes.StudentStore.UpdateExisting | routes/student_routes.py:196-260 | After the photo step, with an empty selection: error 500 (NoFieldsProvided) with table and directory unchanged. Otherwise the row becomes the old row with the selected columns assigned. The result lists their names, the photo filename and its URL. The directory is as the photo step left it. |
| StudentRoutes.StudentStore.ReplacePhoto | routes/student_routes.py:205-220 | With an upload, the current file (if truthy) is removed and `{id}_{name}` is written and becomes the photo filename. Without one, the current filename and the directory are kept. |
| StudentRoutes.StudentStore.DeleteStudent | routes/student_routes.py:273-313 | Without a connection or without the row: error 500 and nothing changes. Otherwise the row is removed, and so is its photo file if the column is truthy. The invariant is kept. |
| StudentRoutes.InsertKeepsInvariant | routes/student_routes.py:41-46 | The counter's id is unused, and inserting a photo-less row under it while advancing the counter keeps the invariant. |
| StudentRoutes.AttachKeepsInvariant | routes/student_routes.py:49-61 | Writing `{id}_{name}` and recording it in row `id` keeps the invariant. |
| StudentRoutes.ReplaceKeepsInvariant | routes/student_routes.py:246-248 | Replacing one row keeps the invariant when the row keeps its id, its photo file exists and belongs to it, and only its own files left the directory. |
| StudentRoutes.PhotoStepKeepsOwnership | routes/student_routes.py:209-220 | The photo step removes only files owned by the row, and the filename it settles on exists and belongs to the row. |
| StudentRoutes.UpdateKeepsInvariant | routes/student_routes.py:205-248 | A whole successful update (photo step, then the UPDATE of the selected columns) keeps the invariant. |
| StudentRoutes.RemoveKeepsInvariant | routes/student_routes.py:289-300 | Deleting a row while removing only its own files keeps the invariant. |
| Photos.PhotoFilenameRoundTrip | routes/student_routes.py:50 | The stored name `{id}_{name}` splits back into exactly the id and the upload name, so its owner is the id. |
| Photos.PhotoFilenameInjective | routes/student_routes.py:217 | Different (id, upload name) pairs never produce the same stored filename. |
| Photos.ParseIntRoundTrip | routes/student_routes.py:50 | Parsing Python's `str(id)` gives back the id, negative ids included. |
| Photos.IntToDecimal | routes/student_routes.py:50 | The rendering of an id is non-empty and has no `_`. |
| Photos.PhotoUrl | routes/student_routes.py:113-116 | A URL exists exactly when the photo column is truthy. |
| Photos.PhotoUrlRoundTrip | routes/student_routes.py:251 | A derived URL `{base}/{photo}` leads back to exactly the stored filename. |
| StudentModel.Assign | routes/student_routes.py:242 | One `column = value` sets that column to the value and keeps the key and every other column. |
| StudentModel.ApplyEffect | routes/student_routes.py:246-247 | After a SET clause, each column holds the last value the clause gives it, or its old value if none; the key is kept. |
| StudentModel.ColumnNameInjective | routes/student_routes.py:242 | Distinct columns have distinct SQL names. |
| UpdateFields.CandidatesOffer | routes/student_routes.py:223-233 | `data` holds, for each column, exactly the value offered for it (a form field, or the photo filename). |
| UpdateFields.SelectProvidedMembers | routes/student_routes.py:236 | `update_data` holds exactly the entries of `data` whose value is not None. |
| UpdateFields.SelectProvidedAscending | routes/student_routes.py:236 | `update_data` keeps the column order of `data`. |
| UpdateFields.SelectedAreOffered | routes/student_routes.py:236 | Every selected assignment carries the value offered for its column. |
| UpdateFields.LookupAscending | routes/student_routes.py:246-247 | In a clause naming each column at most once, the value a column ends with is the one the clause holds for it. |
| UpdateFields.SelectionMatchesForm | routes/student_routes.py:223-236 | For every column, the update set gives it exactly the offered value, or nothing when None was offered. |
| UpdateFields.UpdatedColumns | routes/student_routes.py:223-248 | The updated row holds the offered value in every column that was offered one, the old value elsewhere, and the same key. |
| UpdateFields.NoFieldsExactly | routes/student_routes.py:236-239 | The update set is empty exactly when no form field was sent and there is no photo filename, new or current. |
| UpdateFields.SingleOffered | routes/student_routes.py:223-236 | When one column alone is offered a value, the update set is that single assignment. |
| UpdateFields.FieldNames | routes/student_routes.py:257 | `updated_fields` has one name per selected column. |
| UpdateFields.FieldNameAt | routes/student_routes.py:257 | The i-th reported name is the SQL name of the i-th selected column. |
| UpdateFields.UpdatedFieldsListing | routes/student_routes.py:257 | A column's name is reported exactly when a value was offered for it, and names come in column order. |
| UpdateFields.JoinConversions | routes/student_routes.py:246 | `', '.join` of items holding one placeholder each holds one per item. |
| UpdateFields.ItemConversions | routes/student_routes.py:242 | Each `key = %s` item holds exactly one placeholder. |
| UpdateFields.ConversionsOfSetClause | routes/student_routes.py:242-246 | The SET clause holds one placeholder per selected column. |
| UpdateFields.ConversionsOfStatement | routes/student_routes.py:246 | The statement holds one placeholder per selected column plus one for the key. |
| UpdateFields.PlaceholdersMatchParams | routes/student_routes.py:242-247 | The number of placeholders equals the number of parameters. The parameters are the selected values in clause order, then the student id. |
| UpdateFields.UpdateQuery | routes/student_routes.py:242-247 | Builds the statement and parameters handed to `cursor.execute`, with as many placeholders as parameters. |
| Photos.Truthy | routes/student_routes.py:113 | Python truthiness of the photo column, as tested by `if x:` at lines 113, 159, 211, 251 and 296: None and the empty string are false. |
| Photos.PhotoFilename | routes/student_routes.py:50 | The stored name `{student_id}_{upload name}` (also line 217); what it guarantees is proved by PhotoFilenameRoundTrip and PhotoFilenameInjective. |
| StudentRoutes.Rethrown | routes/student_routes.py:120-121 | What `except Exception` makes of an HTTPException raised inside a `try` block: status 500, same cause (also lines 262-264 and 304-306). |
| StudentRoutes.InsertedRow | routes/student_routes.py:41-43 | The row the INSERT creates: the six form columns, NULL date of birth, enrollment date and photo. |
| StudentRoutes.WithPhotoUrl | routes/student_routes.py:113-116 | A fetched row with its derived `photo_url` (also lines 158-162). |
| StudentRoutes.PhotoAfterUpdate | routes/student_routes.py:205-217 | The photo filename the update handler settles on: `{id}_{name}` of a new upload, else the current value. |
| StudentRoutes.FilesAfterUpdate | routes/student_routes.py:209-220 | The uploads directory after the update handler's photo step: the current file removed if truthy, the new file added. |
| StudentRoutes.FileOf | routes/student_routes.py:296-300 | The file a photo column refers to, empty when the column is not truthy. |
| StudentRoutes.StoreInvariant | routes/student_routes.py:46-61 | Ids are unique and below the counter; a row's photo names an existing file owned by that row. Kept by every handler (see the *KeepsInvariant lemmas). |
| StudentRoutes.StudentStore.Valid | routes/student_routes.py:46-61 | The store's state satisfies StoreInvariant. |
| StudentModel.ColumnValue | routes/student_routes.py:92-102 | The value each selected column holds in a row, None for NULL. |
| StudentModel.Apply | routes/student_routes.py:247 | The row after a whole SET clause; its effect is proved by ApplyEffect. |
| StudentModel.Lookup | routes/student_routes.py:247 | The value the last assignment of a clause gives a column, if any. |
| UpdateFields.Offered | routes/student_routes.py:223-233 | The value offered for each column: its form field, or the photo filename for `photo`. |
| UpdateFields.FormIsEmpty | routes/student_routes.py:182-189 | No form field was sent. |
| UpdateFields.Candidates | routes/student_routes.py:223-233 | The `data` dict; its contents and order are proved by CandidatesOffer and CandidatesAscending. |
| UpdateFields.CandidatesAscending | routes/student_routes.py:223-233 | The `data` dict lists the columns in their fixed order. |
| UpdateFields.SelectProvided | routes/student_routes.py:236 | `update_data` is no longer than `data`; which entries it keeps and in what order is proved by SelectProvidedMembers and SelectProvidedAscending. |
| UpdateFields.SetItems | routes/student_routes.py:242 | One `key = %s` item per selected column; its placeholder count is proved by ConversionsOfSetClause. |
| UpdateFields.Join | routes/student_routes.py:246 | `', '.join(fields)`; see JoinConversions. |
| UpdateFields.UpdateStatement | routes/student_routes.py:246 | The UPDATE text; see ConversionsOfStatement. |
| UpdateFields.UpdateParams | routes/student_routes.py:243-244 | The selected values in order, then the student id; see PlaceholdersMatchParams. |
| Scenarios.AddThenView | routes/student_routes.py:41-46 | Adding to an empty store gives id 1. Reading it back gives the submitted fields, NULL elsewhere, and no URL. |
| Scenarios.UpdateAddress | routes/student_routes.py:236-257 | Updating only the address reports `["address"]` and changes only that column. |
| Scenarios.DeleteThenView | routes/student_routes.py:109-121 | Reading a deleted student fails with 500, not 404. |
| Scenarios.PhotoRoundTrip | routes/student_routes.py:49-56 | Adding with a photo stores `1_{name}`, and reading back gives `{base}/1_{name}`. |
| Scenarios.ReplaceThenDelete | routes/student_routes.py:209-220 | Replacing a photo leaves only the new file and reports `["photo"]`; deleting the student then leaves no file. |

## Left out

- Connection handling: `get_connection()`, the `finally` blocks that close cursors and connections, and `conn.rollback()`. A failed connection is the `connected` parameter. No other database or file-system failure is modelled, so the 500 raised by `except Exception` for such failures is not represented.
- Valid: its clause that a row's photo names an existing file holds only because failures are not modelled. The update handler removes the old file (routes/student_routes.py:211-214) before it writes the new one (217-220) and before the UPDATE (247-248). If that write or the UPDATE raises, `conn.rollback()` (line 263) keeps the old photo value, which then names a deleted file.
- Partial effects on failure. The add handler commits the INSERT before writing the photo. A failure after that commit leaves a photo-less row behind. The model has no failure there to show it.
- File contents and I/O: `shutil.copyfileobj`, `open` and `os.path.join`. The uploads directory is the set of its file names, and an upload is its original name.
- `PHOTO_BASE_URL` comes from the environment, where it may be unset. Python then renders it as `None` inside the URL. The model takes any string as the base.
- Form parsing: FastAPI's conversion of form fields and files is not modelled. The handlers receive optional strings and an optional upload.
- The static file mount and the application wiring in `main.py`, the connection factory in `db/database.py`, and the unused pydantic model in `models/student.py` are not part of this model.
- Concurrency: each handler is one atomic step on the store.
- Column types, lengths and database defaults: `date_of_birth` and `enrollment_date` are left NULL on insert. Any database default is not modelled.
- Photos.PhotoUrl: the `{base}/` prefix of the URL is not stated in its contract. It is stated by `Photos.PhotoUrlRoundTrip`.
