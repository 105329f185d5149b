/** Joining lines into one message text and splitting it back
    (`Array.prototype.join` and `String.prototype.split` with a one-character
    separator). */
module Lines {

  /** `lines.join(sep)`: the empty list joins to the empty string. */
  function Join(lines: seq<string>, sep: char): (text: string)
    ensures |lines| >= 1 ==> |text| >= |lines[0]| && text[..|lines[0]|] == lines[0]
    ensures |lines| >= 2 ==> |text| > |lines[0]| && text[|lines[0]|] == sep
  {
    if |lines| == 0 then ""
    else if |lines| == 1 then lines[0]
    else lines[0] + [sep] + Join(lines[1..], sep)
  }

  /** `s.split(sep)`: always at least one part, the empty string splits to `[""]`. */
  function Split(s: string, sep: char): (parts: seq<string>)
    ensures |parts| >= 1
  {
    if |s| == 0 then [""]
    else
      var rest := Split(s[1..], sep);
      if s[0] == sep then [""] + rest else [[s[0]] + rest[0]] + rest[1..]
  }

  lemma {:induction false} SplitWithoutSeparator(s: string, sep: char)
    requires sep !in s
    ensures Split(s, sep) == [s]
    decreases |s|
  {
    if |s| != 0 {
      assert sep !in s[1..];
      SplitWithoutSeparator(s[1..], sep);
      assert [s[0]] + s[1..] == s;
    }
  }

  lemma {:induction false} SplitAtFirstSeparator(a: string, b: string, sep: char)
    requires sep !in a
    ensures Split(a + [sep] + b, sep) == [a] + Split(b, sep)
    decreases |a|
  {
    var s := a + [sep] + b;
    if |a| == 0 {
      assert s[0] == sep && s[1..] == b;
    } else {
      assert s[0] == a[0];
      assert s[1..] == a[1..] + [sep] + b;
      assert sep !in a[1..];
      SplitAtFirstSeparator(a[1..], b, sep);
      assert [a[0]] + a[1..] == a;
    }
  }

  /** Splitting a joined text gives the lines back, provided no line holds the separator. */
  lemma {:induction false} SplitJoin(lines: seq<string>, sep: char)
    requires |lines| >= 1
    requires forall i :: 0 <= i < |lines| ==> sep !in lines[i]
    ensures Split(Join(lines, sep), sep) == lines
    decreases |lines|
  {
    if |lines| == 1 {
      SplitWithoutSeparator(lines[0], sep);
    } else {
      SplitAtFirstSeparator(lines[0], Join(lines[1..], sep), sep);
      SplitJoin(lines[1..], sep);
      assert [lines[0]] + lines[1..] == lines;
    }
  }
}
