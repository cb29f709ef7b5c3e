/** Photo bookkeeping of the student routes: the stored filename
    `{student_id}_{upload name}`, the public URL derived from it, and the
    parser that recovers the owning student id from a stored filename. */
module Photos {
  import opened Wrappers

  /** Python truthiness of an optional string: None and "" are both false. */
  predicate Truthy(s: Option<string>) {
    s.Some? && s.value != ""
  }

  predicate IsDigit(c: char) {
    '0' <= c <= '9'
  }

  predicate AllDigits(s: string) {
    |s| >= 1 && forall i :: 0 <= i < |s| ==> IsDigit(s[i])
  }

  /** The character of a decimal digit. */
  function DigitChar(d: nat): (c: char)
    requires d < 10
    ensures IsDigit(c) && c as int - '0' as int == d
  {
    ('0' as int + d) as char
  }

  /** Decimal rendering of a natural number, most significant digit first. */
  function NatToDecimal(n: nat): (s: string)
    ensures AllDigits(s)
    ensures n >= 10 ==> |s| >= 2
    decreases n
  {
    if n < 10 then [DigitChar(n)] else NatToDecimal(n / 10) + [DigitChar(n % 10)]
  }

  /** Python's `str(n)` for an int: a minus sign before the digits of |n|. */
  function IntToDecimal(n: int): (s: string)
    ensures |s| >= 1 && '_' !in s
  {
    var d := if n < 0 then "-" + NatToDecimal(-n) else NatToDecimal(n);
    assert forall i :: 0 <= i < |d| ==> d[i] != '_';
    d
  }

  /** The digit a decimal character stands for. */
  function DigitValue(c: char): (d: nat)
    requires IsDigit(c)
    ensures d < 10 && DigitChar(d) == c
  {
    c as int - '0' as int
  }

  /** Value of a string of decimal digits. */
  function DigitsValue(s: string): nat
    requires forall i :: 0 <= i < |s| ==> IsDigit(s[i])
  {
    if s == [] then 0 else DigitsValue(s[..|s| - 1]) * 10 + DigitValue(s[|s| - 1])
  }

  /** Inverse of IntToDecimal: an optional minus sign followed by digits. */
  function ParseInt(s: string): Option<int> {
    if |s| >= 1 && s[0] == '-' then
      if AllDigits(s[1..]) then Some(-(DigitsValue(s[1..]) as int)) else None
    else if AllDigits(s) then Some(DigitsValue(s))
    else None
  }

  /** Reading back the digits of a natural number gives the number. */
  lemma {:induction false} DigitsValueOfDecimal(n: nat)
    ensures DigitsValue(NatToDecimal(n)) == n
    decreases n
  {
    if n >= 10 {
      var s := NatToDecimal(n);
      DigitsValueOfDecimal(n / 10);
      assert s[..|s| - 1] == NatToDecimal(n / 10);
    }
  }

  /** Parsing the rendering of any int gives the int back. */
  lemma ParseIntRoundTrip(n: int)
    ensures ParseInt(IntToDecimal(n)) == Some(n)
  {
    var s := IntToDecimal(n);
    if n < 0 {
      var d := NatToDecimal(-n);
      assert s == "-" + d;
      assert s[0] == '-' && s[1..] == d;
      DigitsValueOfDecimal(-n);
    } else {
      assert IsDigit(s[0]);
      DigitsValueOfDecimal(n);
    }
  }

  /** Position of the first occurrence of `c` in `s`, if any. */
  function IndexOf(s: string, c: char): (r: Option<nat>)
    ensures r.None? <==> c !in s
    ensures r.Some? ==> r.value < |s| && s[r.value] == c && c !in s[..r.value]
  {
    if s == [] then None
    else if s[0] == c then Some(0)
    else match IndexOf(s[1..], c)
      case None => None
      case Some(k) =>
        assert s[..k + 1] == [s[0]] + s[1..][..k];
        Some(k + 1)
  }

  /** The stored name of an uploaded photo: `{student_id}_{upload name}`. */
  function PhotoFilename(studentId: int, uploadName: string): string {
    IntToDecimal(studentId) + "_" + uploadName
  }

  /** Splits a stored filename at its first '_' into the student id and the
      upload name; None when the part before the '_' is not an integer. */
  function SplitPhotoFilename(f: string): Option<(int, string)> {
    match IndexOf(f, '_')
    case None => None
    case Some(k) =>
      match ParseInt(f[..k])
      case None => None
      case Some(id) => Some((id, f[k + 1..]))
  }

  /** The student a stored filename belongs to by its naming convention. */
  function PhotoOwner(f: string): Option<int> {
    match SplitPhotoFilename(f)
    case None => None
    case Some(parts) => Some(parts.0)
  }

  /** The id and the upload name can be read back from the stored filename,
      because the decimal rendering of an id never contains '_'. */
  lemma PhotoFilenameRoundTrip(studentId: int, uploadName: string)
    ensures SplitPhotoFilename(PhotoFilename(studentId, uploadName)) == Some((studentId, uploadName))
    ensures PhotoOwner(PhotoFilename(studentId, uploadName)) == Some(studentId)
  {
    var d := IntToDecimal(studentId);
    var f := PhotoFilename(studentId, uploadName);
    assert f[..|d|] == d;
    assert f[|d|] == '_';
    var k := IndexOf(f, '_');
    assert k == Some(|d|);
    ParseIntRoundTrip(studentId);
    assert f[|d| + 1..] == uploadName;
  }

  /** Two students, or two different uploads of one student, never share a
      stored filename. */
  lemma PhotoFilenameInjective(id1: int, name1: string, id2: int, name2: string)
    requires PhotoFilename(id1, name1) == PhotoFilename(id2, name2)
    ensures id1 == id2 && name1 == name2
  {
    PhotoFilenameRoundTrip(id1, name1);
    PhotoFilenameRoundTrip(id2, name2);
  }

  /** `photo_url`: `{base}/{photo}` when the photo column is truthy, else None. */
  function PhotoUrl(base: string, photo: Option<string>): (url: Option<string>)
    ensures url.Some? <==> Truthy(photo)
  {
    if Truthy(photo) then Some(base + "/" + photo.value) else None
  }

  /** The stored filename a public URL points at, if it lies under `base`. */
  function UrlFilename(base: string, url: string): Option<string> {
    if |url| > |base| + 1 && url[..|base| + 1] == base + "/" then Some(url[|base| + 1..]) else None
  }

  /** A derived URL always leads back to exactly the stored filename. */
  lemma PhotoUrlRoundTrip(base: string, photo: Option<string>)
    requires Truthy(photo)
    ensures UrlFilename(base, PhotoUrl(base, photo).value) == Some(photo.value)
  {
    var url := PhotoUrl(base, photo).value;
    assert url[|base| + 1..] == photo.value;
  }
}
