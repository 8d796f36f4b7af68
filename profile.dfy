// The profile page js/profile.js: the "about me" formatting, the password
// change checks, the merge of the stored user with the server's copy and the
// first name shown in the header.
module Profile {
  import opened Text

  predicate EndsSentence(c: char) {
    c == '.' || c == '!' || c == '?'
  }

  /** `s.charAt(0).toUpperCase() + s.slice(1)` */
  function Capitalise(s: string): (r: string)
    ensures |r| == |s|
    ensures s != [] ==> r[0] == UpperChar(s[0]) && r[1..] == s[1..]
  {
    if s == [] then [] else [UpperChar(s[0])] + s[1..]
  }

  /**
   * `formatAboutMe` as the page has it: the first character is upper-cased
   * before the text is trimmed, and the text is trimmed only when a full
   * stop is added.
   */
  function FormatAboutMeAsWritten(text: string): (r: string)
    ensures text == [] ==> r == []
    ensures Trim(Capitalise(text)) != [] && !EndsSentence(Trim(Capitalise(text))[|Trim(Capitalise(text))| - 1]) ==>
      r == Trim(Capitalise(text)) + "."
    ensures Trim(Capitalise(text)) == [] || EndsSentence(Trim(Capitalise(text))[|Trim(Capitalise(text))| - 1]) ==>
      r == Capitalise(text)
  {
    if text == [] then []
    else
      var formatted := Capitalise(text);
      var t := Trim(formatted);
      if t != [] && !EndsSentence(t[|t| - 1]) then t + "." else formatted
  }

  /**
   * A text that starts with a space before a lower-case word is capitalised
   * on the space, trimmed and given a full stop; formatting that result again
   * capitalises the word, so a second save stores a different text.
   */
  lemma AsWrittenNotIdempotent(w: string)
    requires w != [] && 'a' <= w[0] <= 'z' && !IsSpace(w[|w| - 1]) && !EndsSentence(w[|w| - 1])
    ensures FormatAboutMeAsWritten([' '] + w) == w + "."
    ensures FormatAboutMeAsWritten(w + ".") == Capitalise(w) + "."
    ensures FormatAboutMeAsWritten(FormatAboutMeAsWritten([' '] + w)) != FormatAboutMeAsWritten([' '] + w)
  {
    FirstSave(w);
    SecondSave(w);
    assert (Capitalise(w) + ".")[0] != (w + ".")[0];
  }

  lemma FirstSave(w: string)
    requires w != [] && !IsSpace(w[0]) && !IsSpace(w[|w| - 1]) && !EndsSentence(w[|w| - 1])
    ensures FormatAboutMeAsWritten([' '] + w) == w + "."
  {
    var text := [' '] + w;
    assert Capitalise(text) == text;
    assert TrimStart(text) == w by {
      assert text[1..] == w;
    }
    TrimFixed(w);
  }

  lemma SecondSave(w: string)
    requires w != [] && !IsSpace(w[0])
    ensures FormatAboutMeAsWritten(w + ".") == Capitalise(w) + "."
  {
    var r := w + ".";
    var c := Capitalise(r);
    assert c == Capitalise(w) + ".";
    TrimFixed(c);
  }

  /** The as-written formatting is idempotent for every text that does not start with white space. */
  lemma AsWrittenIdempotentWithoutLeadingSpace(text: string)
    requires text == [] || !IsSpace(text[0])
    ensures FormatAboutMeAsWritten(FormatAboutMeAsWritten(text)) == FormatAboutMeAsWritten(text)
  {
    if text != [] {
      var f := Capitalise(text);
      var t := Trim(f);
      assert TrimStart(f) == f;
      assert Capitalise(f) == f;
      if t != [] && !EndsSentence(t[|t| - 1]) {
        var r := t + ".";
        assert t[0] == f[0];
        assert Capitalise(r) == r;
        TrimFixed(r);
      }
    }
  }

  /** A text that starts and ends with something other than white space is its own trim. */
  lemma TrimFixed(s: string)
    requires s == [] || (!IsSpace(s[0]) && !IsSpace(s[|s| - 1]))
    ensures Trim(s) == s
  {
  }

  /**
   * The evidently intended formatting: the trimmed text is capitalised and
   * given a full stop unless it already ends a sentence; a blank text is
   * kept as it is.
   */
  function FormatAboutMe(text: string): (r: string)
    ensures text == [] ==> r == []
    ensures IsBlank(text) ==> r == text
    ensures !IsBlank(text) ==> r != [] && r[0] == UpperChar(Trim(text)[0]) && EndsSentence(r[|r| - 1])
    ensures !IsBlank(text) ==> |r| == |Trim(text)| + (if EndsSentence(Trim(text)[|Trim(text)| - 1]) then 0 else 1)
    ensures !IsBlank(text) ==> r[1..|Trim(text)|] == Trim(text)[1..]
  {
    if text == [] then []
    else
      var t := Trim(text);
      if t == [] then text
      else
        var c := Capitalise(t);
        if EndsSentence(c[|c| - 1]) then c else c + "."
  }

  /** The corrected formatting is idempotent: saving the profile twice stores the same text. */
  lemma FormatAboutMeIdempotent(text: string)
    ensures FormatAboutMe(FormatAboutMe(text)) == FormatAboutMe(text)
  {
    var r := FormatAboutMe(text);
    if !IsBlank(text) {
      assert !IsSpace(r[0]);
      assert !IsSpace(r[|r| - 1]);
      TrimFixed(r);
      assert Capitalise(r) == r;
    }
  }

  /** On a text without white space at either end the two formattings agree. */
  lemma FormatAboutMeAgrees(text: string)
    requires text == [] || (!IsSpace(text[0]) && !IsSpace(text[|text| - 1]))
    ensures FormatAboutMe(text) == FormatAboutMeAsWritten(text)
  {
    if text != [] {
      TrimFixed(text);
      TrimFixed(Capitalise(text));
      if EndsSentence(Capitalise(text)[|text| - 1]) {
        ClosedFormat(text);
        ClosedAsWritten(text);
      } else {
        OpenFormat(text);
        OpenAsWritten(text);
      }
    }
  }

  /** A trimmed text that already ends a sentence is only capitalised, by either formatting. */
  lemma ClosedFormat(text: string)
    requires text != [] && Trim(text) == text && EndsSentence(Capitalise(text)[|text| - 1])
    ensures FormatAboutMe(text) == Capitalise(text)
  {
  }

  lemma ClosedAsWritten(text: string)
    requires text != [] && Trim(Capitalise(text)) == Capitalise(text)
    requires EndsSentence(Capitalise(text)[|text| - 1])
    ensures FormatAboutMeAsWritten(text) == Capitalise(text)
  {
  }

  /** A trimmed text that does not end a sentence is capitalised and given a full stop, by either formatting. */
  lemma OpenFormat(text: string)
    requires text != [] && Trim(text) == text && !EndsSentence(Capitalise(text)[|text| - 1])
    ensures FormatAboutMe(text) == Capitalise(text) + "."
  {
  }

  lemma OpenAsWritten(text: string)
    requires text != [] && Trim(Capitalise(text)) == Capitalise(text)
    requires !EndsSentence(Capitalise(text)[|text| - 1])
    ensures FormatAboutMeAsWritten(text) == Capitalise(text) + "."
  {
  }

  datatype PasswordVerdict = TooShort | Mismatch | SendChange

  /** The password change: a new password under eight characters first, then a mismatch; only then is a request sent. */
  function CheckNewPassword(newPassword: string, confirm: string): (v: PasswordVerdict)
    ensures v == TooShort <==> |newPassword| < 8
    ensures v == Mismatch <==> |newPassword| >= 8 && newPassword != confirm
    ensures v == SendChange <==> |newPassword| >= 8 && newPassword == confirm
  {
    if |newPassword| < 8 then TooShort
    else if newPassword != confirm then Mismatch
    else SendChange
  }

  /** A stored user object: its keys and their (string) values. */
  type User = map<string, string>

  /** A key that is present with a non-empty value (a truthy property). */
  predicate Truthy(u: User, key: string) {
    key in u && u[key] != []
  }

  /** `{ ...oldUser, ...fromServer }`, with the old role put back when the result has none. */
  function MergeUser(oldUser: User, fromServer: User): (r: User)
    ensures r.Keys == oldUser.Keys + fromServer.Keys
    ensures forall k :: k in fromServer && k != "role" ==> r[k] == fromServer[k]
    ensures forall k :: k in oldUser && k !in fromServer ==> r[k] == oldUser[k]
    ensures Truthy(fromServer, "role") ==> r["role"] == fromServer["role"]
    ensures Truthy(oldUser, "role") && !Truthy(fromServer, "role") ==> r["role"] == oldUser["role"]
    ensures !Truthy(oldUser, "role") && "role" in fromServer ==> r["role"] == fromServer["role"]
  {
    var merged := oldUser + fromServer;
    if !Truthy(merged, "role") && Truthy(oldUser, "role") then merged["role" := oldUser["role"]]
    else merged
  }

  /** A role once stored is never lost by a profile update, and merging the same answer again changes nothing. */
  lemma MergeKeepsRole(oldUser: User, fromServer: User)
    ensures Truthy(oldUser, "role") ==> Truthy(MergeUser(oldUser, fromServer), "role")
    ensures MergeUser(MergeUser(oldUser, fromServer), fromServer) == MergeUser(oldUser, fromServer)
  {
    var once := MergeUser(oldUser, fromServer);
    var twice := MergeUser(once, fromServer);
    assert twice.Keys == once.Keys;
    forall k | k in once
      ensures twice[k] == once[k]
    {
      if k == "role" && !Truthy(fromServer, "role") && Truthy(oldUser, "role") {
        assert Truthy(once, "role");
      }
    }
  }

  /** `fullName.split(' ')[0]` */
  function FirstName(fullName: string): (r: string)
    ensures ' ' !in r
    ensures |r| <= |fullName| && r == fullName[..|r|]
    ensures |r| < |fullName| ==> fullName[|r|] == ' '
    ensures ' ' !in fullName ==> r == fullName
  {
    Text.SplitFirst(fullName, ' ');
    Split(fullName, ' ')[0]
  }
}
