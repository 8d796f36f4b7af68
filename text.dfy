// String helpers on `seq<char>` standing in for the JavaScript string methods
// the source calls. Case mapping and whitespace are ASCII only.
module Text {
  import opened Wrappers


  predicate IsSpace(c: char) {
    c == ' ' || c == '\t' || c == '\n' || c == '\r' || c as int == 11 || c as int == 12
  }

  function LowerChar(c: char): char {
    if 'A' <= c <= 'Z' then (c as int + 32) as char else c
  }

  function UpperChar(c: char): char {
    if 'a' <= c <= 'z' then (c as int - 32) as char else c
  }

  /** `toLowerCase()` */
  function Lower(s: string): (r: string)
    ensures |r| == |s|
    ensures forall i :: 0 <= i < |s| ==> r[i] == LowerChar(s[i])
  {
    if s == [] then [] else [LowerChar(s[0])] + Lower(s[1..])
  }

  /** `toUpperCase()` */
  function Upper(s: string): (r: string)
    ensures |r| == |s|
    ensures forall i :: 0 <= i < |s| ==> r[i] == UpperChar(s[i])
  {
    if s == [] then [] else [UpperChar(s[0])] + Upper(s[1..])
  }

  function TrimStart(s: string): (r: string)
    ensures |r| <= |s| && r == s[|s| - |r|..]
    ensures r == [] || !IsSpace(r[0])
  {
    if s != [] && IsSpace(s[0]) then TrimStart(s[1..]) else s
  }

  function TrimEnd(s: string): (r: string)
    ensures |r| <= |s| && r == s[..|r|]
    ensures r == [] || !IsSpace(r[|r| - 1])
  {
    if s != [] && IsSpace(s[|s| - 1]) then TrimEnd(s[..|s| - 1]) else s
  }

  /** `trim()` */
  function Trim(s: string): (r: string)
    ensures |r| <= |s|
    ensures r == [] || (!IsSpace(r[0]) && !IsSpace(r[|r| - 1]))
    ensures forall c :: c in r ==> c in s
  {
    TrimEnd(TrimStart(s))
  }

  predicate IsBlank(s: string) {
    Trim(s) == []
  }

  predicate StartsWith(s: string, t: string) {
    |t| <= |s| && s[..|t|] == t
  }

  /** `s.includes(t)` */
  predicate Contains(s: string, t: string)
    decreases |s|
  {
    StartsWith(s, t) || (s != [] && Contains(s[1..], t))
  }

  /** A text never contains a longer one. */
  lemma {:induction false} ContainsLonger(s: string, t: string)
    requires |t| > |s|
    ensures !Contains(s, t)
    decreases |s|
  {
    if s != [] { ContainsLonger(s[1..], t); }
  }

  /** `s.endsWith(c)` for a single character */
  predicate EndsWithChar(s: string, c: char) {
    s != [] && s[|s| - 1] == c
  }

  /** `s.split(sep)` for a one-character separator: one more piece than separators. */
  function Split(s: string, sep: char): (r: seq<string>)
    ensures |r| >= 1
    ensures forall i :: 0 <= i < |r| ==> sep !in r[i]
  {
    if s == [] then [[]]
    else if s[0] == sep then [[]] + Split(s[1..], sep)
    else
      var rest := Split(s[1..], sep);
      [[s[0]] + rest[0]] + rest[1..]
  }

  /** `parts.join(sep)` */
  function Join(parts: seq<string>, sep: string): string {
    if parts == [] then []
    else if |parts| == 1 then parts[0]
    else parts[0] + sep + Join(parts[1..], sep)
  }

  lemma {:induction false} SplitPrefix(w: string, rest: string, sep: char)
    requires sep !in w
    ensures Split(w + [sep] + rest, sep) == [w] + Split(rest, sep)
    ensures Split(w, sep) == [w]
    decreases |w|
  {
    if w == [] {
      assert [] + [sep] + rest == [sep] + rest;
      assert ([sep] + rest)[1..] == rest;
    } else {
      SplitPrefix(w[1..], rest, sep);
      assert (w + [sep] + rest)[1..] == w[1..] + [sep] + rest;
      assert [w[0]] + w[1..] == w;
    }
  }

  /** The first piece of a split is the text up to the first separator. */
  lemma {:induction false} SplitFirst(s: string, sep: char)
    ensures var w := Split(s, sep)[0];
      |w| <= |s| && w == s[..|w|] && (|w| < |s| ==> s[|w|] == sep) && (sep !in s ==> w == s)
    ensures sep in s ==> |Split(s, sep)| >= 2
  {
    if s != [] && s[0] != sep {
      SplitFirst(s[1..], sep);
      var w := Split(s[1..], sep)[0];
      assert Split(s, sep)[0] == [s[0]] + w;
      assert [s[0]] + s[1..] == s;
      if sep !in s {
        assert sep !in s[1..];
      } else {
        assert sep in s[1..];
      }
    }
  }

  /** Joining pieces that do not contain the separator and splitting again gives them back. */
  lemma {:induction false} SplitJoin(parts: seq<string>, sep: char)
    requires |parts| >= 1
    requires forall i :: 0 <= i < |parts| ==> sep !in parts[i]
    ensures Split(Join(parts, [sep]), sep) == parts
  {
    if |parts| == 1 {
      SplitPrefix(parts[0], [], sep);
    } else {
      SplitJoin(parts[1..], sep);
      SplitPrefix(parts[0], Join(parts[1..], [sep]), sep);
      assert [parts[0]] + parts[1..] == parts;
    }
  }

  /** `s.replace(/[-_]/g, ' ')` */
  function DashesToSpaces(s: string): (r: string)
    ensures |r| == |s|
    ensures forall i :: 0 <= i < |s| ==> r[i] == (if s[i] == '-' || s[i] == '_' then ' ' else s[i])
  {
    if s == [] then [] else [if s[0] == '-' || s[0] == '_' then ' ' else s[0]] + DashesToSpaces(s[1..])
  }

  /** The longest prefix of `s` without whitespace. */
  function TakeWord(s: string): (w: string)
    ensures |w| <= |s| && w == s[..|w|]
    ensures forall i :: 0 <= i < |w| ==> !IsSpace(w[i])
    ensures |w| < |s| ==> IsSpace(s[|w|])
  {
    if s == [] || IsSpace(s[0]) then [] else [s[0]] + TakeWord(s[1..])
  }

  /**
   * The non-empty pieces of `s.split(/\s+/)`, in order. (The empty first or
   * last piece that JavaScript yields for leading or trailing whitespace is
   * dropped here; every caller filters it out by length anyway.)
   */
  function Words(s: string): (r: seq<string>)
    ensures forall i :: 0 <= i < |r| ==> r[i] != [] && forall j :: 0 <= j < |r[i]| ==> !IsSpace(r[i][j])
    ensures forall i :: 0 <= i < |r| ==> forall j :: 0 <= j < |r[i]| ==> r[i][j] in s
    decreases |s|
  {
    if s == [] then []
    else if IsSpace(s[0]) then Words(s[1..])
    else
      var w := TakeWord(s);
      [w] + Words(s[|w|..])
  }

  /** A word stops at whitespace: what follows a space does not join the word before it. */
  lemma {:induction false} TakeWordBeforeSpace(a: string, b: string)
    requires b == [] || IsSpace(b[0])
    ensures TakeWord(a + b) == TakeWord(a)
    decreases |a|
  {
    if a == [] {
      assert a + b == b;
    } else {
      assert (a + b)[0] == a[0];
      assert (a + b)[1..] == a[1..] + b;
      TakeWordBeforeSpace(a[1..], b);
    }
  }

  /** Whitespace separates words: the words around a whitespace character are the words of each side. */
  lemma {:induction false} WordsAround(a: string, c: char, b: string)
    requires IsSpace(c)
    ensures Words(a + [c] + b) == Words(a) + Words(b)
    decreases |a|
  {
    var s := a + [c] + b;
    if a == [] {
      assert s == [c] + b;
      assert s[1..] == b;
    } else if IsSpace(a[0]) {
      assert s[0] == a[0];
      assert s[1..] == a[1..] + [c] + b;
      WordsAround(a[1..], c, b);
    } else {
      var w := TakeWord(a);
      TakeWordBeforeSpace(a, [c] + b);
      assert s == a + ([c] + b);
      assert s[0] == a[0];
      assert w != [];
      assert s[|w|..] == a[|w|..] + [c] + b;
      WordsAround(a[|w|..], c, b);
    }
  }

  /** A non-empty text without whitespace is a single word. */
  lemma WordsOfWord(w: string)
    requires w != [] && forall i :: 0 <= i < |w| ==> !IsSpace(w[i])
    ensures Words(w) == [w]
  {
    var t := TakeWord(w);
    assert |t| == |w|;
    assert t == w;
    assert w[|w|..] == [];
  }

  /** Lower-casing works character by character. */
  lemma LowerAppend(a: string, b: string)
    ensures Lower(a + b) == Lower(a) + Lower(b)
  {
    assert forall i :: 0 <= i < |a + b| ==> Lower(a + b)[i] == (Lower(a) + Lower(b))[i];
  }

  /** So does replacing dashes and underscores. */
  lemma DashesAppend(a: string, b: string)
    ensures DashesToSpaces(a + b) == DashesToSpaces(a) + DashesToSpaces(b)
  {
    var l, r := DashesToSpaces(a + b), DashesToSpaces(a) + DashesToSpaces(b);
    forall i | 0 <= i < |a + b| ensures l[i] == r[i] {
      if i < |a| {
        assert (a + b)[i] == a[i];
      } else {
        assert (a + b)[i] == b[i - |a|];
      }
    }
  }

  /** `c.repeat(n)` for one character */
  function Repeat(c: char, n: nat): (r: string)
    ensures |r| == n
    ensures forall i :: 0 <= i < n ==> r[i] == c
  {
    if n == 0 then [] else [c] + Repeat(c, n - 1)
  }

  function DigitChar(d: nat): char
    requires d < 10
  {
    ("0123456789")[d]
  }

  /** Decimal rendering of a natural number, as template literals print it. */
  function NatToString(n: nat): (r: string)
    ensures r != []
    ensures forall i :: 0 <= i < |r| ==> '0' <= r[i] <= '9'
    decreases n
  {
    if n < 10 then [DigitChar(n)] else NatToString(n / 10) + [DigitChar(n % 10)]
  }

  function IntToString(n: int): (r: string)
    ensures r != []
  {
    if n < 0 then "-" + NatToString(-n) else NatToString(n)
  }

  /** `String(n).padStart(2, '0')` for the zero padding of seconds below 10. */
  function Pad2(n: nat): (r: string)
    ensures n < 10 ==> |r| == 2 && r[0] == '0'
  {
    if n < 10 then "0" + NatToString(n) else NatToString(n)
  }

  predicate IsDigit(c: char) {
    '0' <= c <= '9'
  }

  /** The value of a string of decimal digits, read left to right. */
  function DigitsValue(s: string): nat
    requires forall i :: 0 <= i < |s| ==> IsDigit(s[i])
    decreases |s|
  {
    if s == [] then 0
    else
      assert IsDigit(s[|s| - 1]);
      DigitsValue(s[..|s| - 1]) * 10 + (s[|s| - 1] as int - '0' as int)
  }

  /** Reading back the decimal rendering of a number gives the number. */
  lemma {:induction false} DigitsOfNat(n: nat)
    ensures forall i :: 0 <= i < |NatToString(n)| ==> IsDigit(NatToString(n)[i])
    ensures DigitsValue(NatToString(n)) == n
    decreases n
  {
    if n >= 10 {
      DigitsOfNat(n / 10);
      var s := NatToString(n);
      assert s[..|s| - 1] == NatToString(n / 10);
    }
  }

  /** `s.replace(c, t)` with a one-character pattern: only the first occurrence is replaced. */
  function ReplaceFirst(s: string, c: char, t: string): (r: string)
    ensures c !in s ==> r == s
    ensures s != [] && s[0] == c ==> r == t + s[1..]
  {
    if s == [] then []
    else if s[0] == c then t + s[1..]
    else [s[0]] + ReplaceFirst(s[1..], c, t)
  }

  // ---------------------------------------------------------------------
  // parseInt

  /** The longest prefix of decimal digits. */
  function DigitPrefix(s: string): (d: string)
    ensures |d| <= |s| && d == s[..|d|]
    ensures forall i :: 0 <= i < |d| ==> IsDigit(d[i])
    ensures |d| < |s| ==> !IsDigit(s[|d|])
  {
    if s == [] || !IsDigit(s[0]) then [] else [s[0]] + DigitPrefix(s[1..])
  }

  predicate IsHexDigit(c: char) {
    IsDigit(c) || 'a' <= c <= 'f' || 'A' <= c <= 'F'
  }

  function HexDigitValue(c: char): nat
    requires IsHexDigit(c)
  {
    if IsDigit(c) then c as int - '0' as int
    else if 'a' <= c <= 'f' then c as int - 'a' as int + 10
    else c as int - 'A' as int + 10
  }

  /** The longest prefix of hexadecimal digits. */
  function HexPrefix(s: string): (d: string)
    ensures |d| <= |s| && d == s[..|d|]
    ensures forall i :: 0 <= i < |d| ==> IsHexDigit(d[i])
  {
    if s == [] || !IsHexDigit(s[0]) then [] else [s[0]] + HexPrefix(s[1..])
  }

  /** The value of a string of hexadecimal digits, read left to right. */
  function HexValue(s: string): nat
    requires forall i :: 0 <= i < |s| ==> IsHexDigit(s[i])
    decreases |s|
  {
    if s == [] then 0
    else
      assert IsHexDigit(s[|s| - 1]);
      HexValue(s[..|s| - 1]) * 16 + HexDigitValue(s[|s| - 1])
  }

  /** What `parseInt` reads after skipping leading whitespace and one sign. */
  function Unsigned(s: string): (u: string)
    ensures |u| <= |s| && u == s[|s| - |u|..]
  {
    var t := TrimStart(s);
    if t != [] && (t[0] == '-' || t[0] == '+') then t[1..] else t
  }

  /** The text, after leading whitespace, starts with a minus sign. */
  predicate Negative(s: string) {
    var t := TrimStart(s);
    t != [] && t[0] == '-'
  }

  /** `0x` or `0X`: `parseInt` without a radix then reads hexadecimal. */
  predicate HexForm(u: string) {
    |u| >= 2 && u[0] == '0' && (u[1] == 'x' || u[1] == 'X')
  }

  /** The digits `parseInt` reads after the sign, and their value; `None` when there are none. */
  function Magnitude(u: string): Option<nat> {
    if HexForm(u) then
      var h := HexPrefix(u[2..]);
      if h == [] then None else Some(HexValue(h))
    else
      var d := DigitPrefix(u);
      if d == [] then None else Some(DigitsValue(d))
  }

  /**
   * `parseInt(s)` with no radix: leading whitespace is skipped, one `+` or
   * `-` is taken as the sign, and then the longest run of decimal digits is
   * read, or of hexadecimal digits after `0x`; an empty run is `NaN`, here
   * `None`. Whatever follows the run is ignored.
   */
  function ParseInt(s: string): Option<int> {
    match Magnitude(Unsigned(s))
    case None => None
    case Some(m) => var v: int := m; if Negative(s) then Some(-v) else Some(v)
  }

  /** The digit run of a text that starts with digits is those digits. */
  lemma {:induction false} DigitPrefixOf(w: string, rest: string)
    requires forall i :: 0 <= i < |w| ==> IsDigit(w[i])
    requires rest == [] || !IsDigit(rest[0])
    ensures DigitPrefix(w + rest) == w
    decreases |w|
  {
    if w == [] {
      assert w + rest == rest;
    } else {
      assert (w + rest)[0] == w[0];
      assert (w + rest)[1..] == w[1..] + rest;
      DigitPrefixOf(w[1..], rest);
    }
  }

  /** A number is read only from a text that holds a digit; any other text is `NaN`. */
  lemma ParseIntNaN(s: string)
    ensures ParseInt(s).Some? ==> exists i :: 0 <= i < |s| && IsDigit(s[i])
  {
    var u := Unsigned(s);
    if HexForm(u) {
      assert IsDigit(s[|s| - |u|]);
    } else if DigitPrefix(u) != [] {
      assert DigitPrefix(u)[0] == u[0];
      assert IsDigit(s[|s| - |u|]);
    }
  }

  /** Only a leading minus sign makes the number negative. */
  lemma ParseIntSign(s: string)
    ensures ParseInt(s).Some? && ParseInt(s).value < 0 ==> Negative(s)
  {
  }

  /** `parseInt` depends only on the sign and on what follows it. */
  lemma ParseIntRead(x: string, y: string)
    requires Unsigned(x) == Unsigned(y) && Negative(x) == Negative(y)
    ensures ParseInt(x) == ParseInt(y)
  {
  }

  /** A text that starts with a non-space character is its own `TrimStart`. */
  lemma TrimStartNoSpace(s: string)
    requires s != [] && !IsSpace(s[0])
    ensures TrimStart(s) == s
  {
  }

  /** `ParseInt` once unfolded: the sign applied to the magnitude. */
  lemma ParseIntValue(s: string, m: nat)
    requires Magnitude(Unsigned(s)) == Some(m)
    ensures ParseInt(s) == Some(if Negative(s) then -(m as int) else m)
  {
  }

  lemma PositiveValue(s: string, u: string, v: nat)
    requires Unsigned(s) == u && !Negative(s) && Magnitude(u) == Some(v)
    ensures ParseInt(s) == Some(v)
  {
    ParseIntValue(s, v);
  }

  /** The magnitude of a run of decimal digits followed by a non-digit is the value of the digits. */
  lemma MagnitudeOfDigits(w: string, rest: string)
    requires w != [] && forall i :: 0 <= i < |w| ==> IsDigit(w[i])
    requires rest == [] || !IsDigit(rest[0])
    requires !(w == "0" && rest != [] && (rest[0] == 'x' || rest[0] == 'X'))
    ensures Magnitude(w + rest) == Some(DigitsValue(w))
  {
    var s := w + rest;
    assert !HexForm(s) by {
      if |w| >= 2 {
        assert s[1] == w[1];
      } else if rest != [] {
        assert s[1] == rest[0];
      }
    }
    DigitPrefixOf(w, rest);
  }

  /** A text starting with a digit has no whitespace or sign to skip. */
  lemma UnsignedDigits(s: string)
    requires s != [] && IsDigit(s[0])
    ensures Unsigned(s) == s && !Negative(s)
  {
    TrimStartNoSpace(s);
  }

  /** A run of decimal digits followed by a non-digit reads as its value. */
  lemma ParseIntDigits(w: string, rest: string)
    requires w != [] && forall i :: 0 <= i < |w| ==> IsDigit(w[i])
    requires rest == [] || !IsDigit(rest[0])
    requires !(w == "0" && rest != [] && (rest[0] == 'x' || rest[0] == 'X'))
    ensures ParseInt(w + rest) == Some(DigitsValue(w))
  {
    var s := w + rest;
    assert s[0] == w[0];
    UnsignedDigits(s);
    MagnitudeOfDigits(w, rest);
    PositiveValue(s, s, DigitsValue(w));
  }

  /** Leading whitespace is skipped. */
  lemma ParseIntSkipsSpace(c: char, s: string)
    requires IsSpace(c)
    ensures ParseInt([c] + s) == ParseInt(s)
  {
    assert ([c] + s)[1..] == s;
    assert TrimStart([c] + s) == TrimStart(s);
    ParseIntRead([c] + s, s);
  }

  /** A minus sign in front negates the number read, and `NaN` stays `NaN`. */
  lemma ParseIntMinus(s: string)
    requires s == [] || (!IsSpace(s[0]) && s[0] != '-' && s[0] != '+')
    ensures ParseInt("-" + s) == if ParseInt(s).Some? then Some(-ParseInt(s).value) else None
  {
    var m := "-" + s;
    assert m[0] == '-' && m[1..] == s;
    TrimStartNoSpace(m);
    assert Unsigned(m) == s && Negative(m);
    if s != [] {
      TrimStartNoSpace(s);
    }
    assert Unsigned(s) == s && !Negative(s);
  }

  /** Reading back the decimal rendering of a number with `parseInt` gives the number. */
  lemma ParseIntOfNat(n: nat)
    ensures ParseInt(NatToString(n)) == Some(n)
  {
    var w := NatToString(n);
    DigitsOfNat(n);
    assert w + [] == w;
    ParseIntDigits(w, []);
  }

  /** After whitespace and a sign, a text that does not start with a digit is `NaN`. */
  lemma ParseIntNoDigit(s: string)
    requires Unsigned(s) == [] || !IsDigit(Unsigned(s)[0])
    ensures ParseInt(s).None?
  {
  }
}
