/** The text `IPrintPerson` builds for one person: `FixedString` and the line
    `PrintPerson` composes before writing it out. */
module Printing {
  import opened Wrappers
  import opened Text

  /** `s.PadRight(n).Substring(0, n)`: exactly `n` characters, `s` cut or
      padded with spaces. */
  function FixedString(s: string, n: nat): (r: string)
    ensures |r| == n
    ensures forall i :: 0 <= i < n ==> r[i] == if i < |s| then s[i] else ' '
  {
    PadRight(s, n)[..n]
  }

  /** A string at least `n` long keeps its first `n` characters; a shorter one
      is kept whole and followed by spaces. */
  lemma FixedStringCutsOrPads(s: string, n: nat)
    ensures n <= |s| ==> FixedString(s, n) == s[..n]
    ensures |s| < n ==> FixedString(s, n) == s + Repeat(' ', n - |s|)
  {
    var r := FixedString(s, n);
    if |s| < n {
      var t := s + Repeat(' ', n - |s|);
      assert forall i :: 0 <= i < n ==> r[i] == t[i];
    } else {
      assert forall i :: 0 <= i < n ==> r[i] == s[..n][i];
    }
  }

  /** String interpolation writes `null` as nothing. */
  function Shown(o: Option<string>): string {
    match o
    case Some(s) => s
    case None => ""
  }

  /** `{age,3}`: the decimal age right-aligned in three columns (wider when it
      does not fit). */
  function AgeColumn(age: int): (r: string)
    ensures var t := IntToString(age);
            && |r| == (if |t| < 3 then 3 else |t|)
            && r[|r| - |t|..] == t
            && forall i :: 0 <= i < |r| - |t| ==> r[i] == ' '
  {
    PadLeft(IntToString(age), 3, ' ')
  }

  /** An age of at most three digits fills exactly the three columns. */
  lemma AgeColumnWidth(age: int)
    requires 0 <= age <= 999
    ensures |AgeColumn(age)| == 3
  {
    NatToStringLength(age, 3);
  }

  /** The tail added when the code and birth date are printed. */
  function LastFields(code: Option<string>, date: Option<string>): string {
    ", Code: " + Shown(code) + ", BirthDate: " + Shown(date) + "."
  }

  /** The message `PrintPerson` writes after its prefix. `FixedString` is called
      on the country as given, so a `null` country throws (`None`); the name
      argument is a concatenation and never `null`. */
  function PersonMessage(fname: Option<string>, sname: Option<string>, gend: Option<string>,
                         country: Option<string>, code: Option<string>, age: int,
                         date: Option<string>, printLast: bool): (r: Option<string>)
    ensures r.Some? <==> country.Some?
  {
    match country
    case None => None
    case Some(c) =>
      Some("Person: " + FixedString(Shown(fname) + " " + Shown(sname), 16)
           + " [" + Shown(gend) + "], " + FixedString(c, 8)
           + " Age: " + AgeColumn(age)
           + if printLast then LastFields(code, date) else "")
  }

  /** With a one-letter gender and an age of at most three digits the message
      is columnar: the name in columns 8-23, the gender in brackets in column
      26, the country in columns 30-37 and the age in columns 44-46, with the
      separators `" ["`, `"], "` and `" Age: "` between them; the optional tail
      starts at column 47. */
  lemma {:induction false} PersonMessageLayout(fname: Option<string>, sname: Option<string>, gend: Option<string>,
                                               country: Option<string>, code: Option<string>, age: int,
                                               date: Option<string>, printLast: bool)
    requires country.Some? && |Shown(gend)| == 1 && 0 <= age <= 999
    ensures var m := PersonMessage(fname, sname, gend, country, code, age, date, printLast).value;
            && |m| == 47 + (if printLast then |LastFields(code, date)| else 0)
            && m[..8] == "Person: "
            && m[8..24] == FixedString(Shown(fname) + " " + Shown(sname), 16)
            && m[24..26] == " [" && m[26] == Shown(gend)[0] && m[27..30] == "], "
            && m[30..38] == FixedString(country.value, 8) && m[38..44] == " Age: "
            && m[44..47] == AgeColumn(age)
            && m[47..] == if printLast then LastFields(code, date) else ""
  {
    AgeColumnWidth(age);
    Columns(FixedString(Shown(fname) + " " + Shown(sname), 16), Shown(gend), FixedString(country.value, 8),
            AgeColumn(age), if printLast then LastFields(code, date) else "");
  }

  /** Where the pieces of a message land, given their widths. */
  lemma Columns(name: string, g: string, land: string, ageCol: string, tail: string)
    requires |name| == 16 && |g| == 1 && |land| == 8 && |ageCol| == 3
    ensures var m := "Person: " + name + " [" + g + "], " + land + " Age: " + ageCol + tail;
            && |m| == 47 + |tail|
            && m[..8] == "Person: " && m[8..24] == name
            && m[24..26] == " [" && m[26] == g[0] && m[27..30] == "], "
            && m[30..38] == land && m[38..44] == " Age: "
            && m[44..47] == ageCol && m[47..] == tail
  {
    var m := "Person: " + name + " [" + g + "], " + land + " Age: " + ageCol + tail;
    assert m[8..24] == name by { assert forall i :: 0 <= i < 16 ==> m[8 + i] == name[i]; }
    assert m[30..38] == land by { assert forall i :: 0 <= i < 8 ==> m[30 + i] == land[i]; }
  }
}
