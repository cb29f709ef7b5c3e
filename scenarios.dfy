/** Clients of the store: what callers of the five handlers can rely on
    from their contracts alone. */
module Scenarios {
  import opened Wrappers
  import opened Photos
  import opened StudentModel
  import opened UpdateFields
  import opened StudentRoutes

  /** Ada Lovelace, added without a photo as the first student. */
  function Ada(): AddForm {
    AddForm("Ada", "Lovelace", "ada@x.com", None, None, None)
  }

  /** Adding to an empty store gives id 1; reading it back gives the
      supplied fields verbatim and no photo URL. */
  method AddThenView(base: string)
    returns (added: Result<Added, HttpError>, fetched: Result<Fetched, HttpError>)
    ensures added == Ok(Added(1, None, None))
    ensures fetched == Ok(Fetched(Student(1, "Ada", "Lovelace", None, None, "ada@x.com", None, None, None, None), None))
  {
    var store := new StudentStore(base, {});
    added := store.AddStudent(true, Ada(), None);
    fetched := store.ViewSingleStudent(true, 1);
  }

  /** Updating only the address reports `["address"]` and leaves every
      other column as it was. */
  method UpdateAddress(base: string, address: string)
    returns (updated: Result<Updated, HttpError>, fetched: Result<Fetched, HttpError>)
    ensures updated == Ok(Updated(1, ["address"], None, None))
    ensures fetched == Ok(Fetched(Student(1, "Ada", "Lovelace", None, None, "ada@x.com", None, Some(address), None, None), None))
  {
    var store := new StudentStore(base, {});
    var added := store.AddStudent(true, Ada(), None);
    ghost var row := store.table[1];
    assert row == Student(1, "Ada", "Lovelace", None, None, "ada@x.com", None, None, None, None);
    var form := UpdateForm(None, None, None, None, None, None, Some(address), None);
    SingleOffered(form, None, Address, address);
    assert FieldNames([Assignment(Address, address)]) == ["address"];
    assert Apply(row, [Assignment(Address, address)]) == row.(address := Some(address));
    updated := store.UpdateStudent(true, 1, form, None);
    assert store.table[1] == row.(address := Some(address));
    fetched := store.ViewSingleStudent(true, 1);
  }

  /** After a delete, reading the id fails, and, as the handler is
      written, with status 500 rather than 404. */
  method DeleteThenView(base: string) returns (fetched: Result<Fetched, HttpError>)
    ensures fetched == Err(HttpError(500, StudentNotFound))
  {
    var store := new StudentStore(base, {});
    var added := store.AddStudent(true, Ada(), None);
    var deleted := store.DeleteStudent(true, 1);
    fetched := store.ViewSingleStudent(true, 1);
  }

  /** Adding with a photo stores `1_{name}` and reading it back gives the
      URL of that file. */
  method PhotoRoundTrip(base: string, upload: string)
    returns (fetched: Result<Fetched, HttpError>, files: set<string>)
    ensures fetched.Ok? && fetched.value.photo_url == Some(base + "/" + PhotoFilename(1, upload))
    ensures files == {PhotoFilename(1, upload)}
  {
    var store := new StudentStore(base, {});
    var added := store.AddStudent(true, Ada(), Some(Upload(upload)));
    fetched := store.ViewSingleStudent(true, 1);
    files := store.uploads;
  }

  /** Replacing the photo removes the old file and keeps only the new one,
      also when the new upload has the old upload's name; deleting the
      student then removes that file too. */
  method ReplaceThenDelete(base: string, firstUpload: string, secondUpload: string)
    returns (replaced: Result<Updated, HttpError>, afterReplace: set<string>, afterDelete: set<string>)
    ensures replaced == Ok(Updated(1, ["photo"], Some(PhotoFilename(1, secondUpload)),
                                   Some(base + "/" + PhotoFilename(1, secondUpload))))
    ensures afterReplace == {PhotoFilename(1, secondUpload)}
    ensures afterDelete == {}
  {
    var store := new StudentStore(base, {});
    var added := store.AddStudent(true, Ada(), Some(Upload(firstUpload)));
    ghost var first := PhotoFilename(1, firstUpload);
    var second := PhotoFilename(1, secondUpload);
    assert store.table[1].photo == Some(first) && store.uploads == {first};
    assert Truthy(Some(first)) by {
      assert first[|IntToDecimal(1)|] == '_';
    }
    var form := UpdateForm(None, None, None, None, None, None, None, None);
    SingleOffered(form, Some(second), Photo, second);
    assert FieldNames([Assignment(Photo, second)]) == ["photo"];
    replaced := store.UpdateStudent(true, 1, form, Some(Upload(secondUpload)));
    afterReplace := store.uploads;
    assert afterReplace == {second};
    var deleted := store.DeleteStudent(true, 1);
    afterDelete := store.uploads;
  }
}
