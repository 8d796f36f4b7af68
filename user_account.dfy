// The account pages js/user-account.js: the checks on a chosen profile
// picture, the initials shown without one, and the edits of the stored user.
module UserAccount {
  import opened Text
  import Profile

  /** The largest picture accepted, in bytes: five mebibytes. */
  const MaxBytes: nat := 5 * 1024 * 1024

  /** The type list as the page has it: the WebP entry is written with a dot. */
  const ValidTypesAsWritten: seq<string> := ["image/jpeg", "image/png", "image/jpg", "image.webp", "image/gif"]

  /** The type list the error message announces: JPG, JPEG, PNG, WEBP or GIF. */
  const ValidTypes: seq<string> := ["image/jpeg", "image/png", "image/jpg", "image/webp", "image/gif"]

  datatype FileVerdict = WrongType | TooLarge | Accept

  /** The type is checked first; only a file of a listed type is checked for size. */
  function CheckFileWith(types: seq<string>, fileType: string, size: nat): (v: FileVerdict)
    ensures v == WrongType <==> fileType !in types
    ensures v == TooLarge <==> fileType in types && size > MaxBytes
    ensures v == Accept <==> fileType in types && size <= MaxBytes
  {
    if fileType !in types then WrongType
    else if size > MaxBytes then TooLarge
    else Accept
  }

  function CheckFileAsWritten(fileType: string, size: nat): FileVerdict {
    CheckFileWith(ValidTypesAsWritten, fileType, size)
  }

  function CheckFile(fileType: string, size: nat): FileVerdict {
    CheckFileWith(ValidTypes, fileType, size)
  }

  /** As written, a WebP picture is refused as not an image, whatever its size. */
  lemma WebpRefusedAsWritten(size: nat)
    ensures CheckFileAsWritten("image/webp", size) == WrongType
  {
    assert "image/webp" != "image.webp" by {
      assert "image/webp"[5] != "image.webp"[5];
    }
  }

  /** With the corrected list a WebP picture is accepted up to the size limit, and every type accepted before still is. */
  lemma WebpAccepted(fileType: string, size: nat)
    ensures size <= MaxBytes ==> CheckFile("image/webp", size) == Accept
    ensures fileType != "image.webp" && CheckFileAsWritten(fileType, size) == Accept ==> CheckFile(fileType, size) == Accept
  {
    assert ValidTypes[3] == "image/webp";
  }

  /**
   * `getInitials`: '' for an empty name; of the trimmed name split on
   * spaces, a single part gives its first character as it is, two or more
   * parts the first characters of the first two, upper-cased.
   */
  function Initials(name: string): (r: string)
    ensures name == [] || IsBlank(name) ==> r == []
    ensures |r| <= 2
    ensures !IsBlank(name) && ' ' !in Trim(name) ==> r == [Trim(name)[0]]
    ensures ' ' in Trim(name) ==> r != [] && r[0] == UpperChar(Trim(name)[0])
    ensures var parts := Split(Trim(name), ' ');
      |parts| >= 2 ==> (|r| == 2 <==> parts[1] != []) && (parts[1] != [] ==> r[1] == UpperChar(parts[1][0]))
  {
    if name == [] then []
    else
      var t := Trim(name);
      var parts := Split(t, ' ');
      Text.SplitFirst(t, ' ');
      assert ' ' !in t ==> parts == [t] by {
        if ' ' !in t { Text.SplitPrefix(t, [], ' '); }
      }
      if |parts| == 1 then
        if parts[0] == [] then [] else [parts[0][0]]
      else
        assert parts[0] != [] && parts[0][0] == t[0];
        Upper([parts[0][0]] + (if parts[1] == [] then [] else [parts[1][0]]))
  }

  /** A first and a last name separated by one space give both initials in capitals. */
  lemma InitialsOfTwoNames(first: string, last: string)
    requires first != [] && last != []
    requires ' ' !in first && ' ' !in last
    requires !IsSpace(first[0]) && !IsSpace(last[|last| - 1])
    ensures Initials(first + " " + last) == [UpperChar(first[0]), UpperChar(last[0])]
  {
    var name := first + " " + last;
    assert name == first + [' '] + last;
    Profile.TrimFixed(name);
    Text.SplitPrefix(first, last, ' ');
    Text.SplitFirst(last, ' ');
  }

  /** The stored user after "remove photo": the picture key is gone, every other key is kept. */
  function WithoutPhoto(u: Profile.User): (r: Profile.User)
    ensures "profileImage" !in r
    ensures r.Keys == u.Keys - {"profileImage"}
    ensures forall k :: k in r ==> r[k] == u[k]
  {
    u - {"profileImage"}
  }

  /** The stored user after an upload: the picture key holds the new address, every other key is kept. */
  function WithPhoto(u: Profile.User, url: string): (r: Profile.User)
    ensures "profileImage" in r && r["profileImage"] == url
    ensures r.Keys == u.Keys + {"profileImage"}
    ensures forall k :: k in u && k != "profileImage" ==> r[k] == u[k]
  {
    u["profileImage" := url]
  }

  /** Removing the photo undoes any upload: the stored user is as if no upload had happened. */
  lemma RemoveUndoesUpload(u: Profile.User, url: string)
    ensures WithoutPhoto(WithPhoto(u, url)) == WithoutPhoto(u)
    ensures "profileImage" !in u ==> WithoutPhoto(WithPhoto(u, url)) == u
  {
  }
}
