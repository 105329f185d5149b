/** The failure message (`buildFailText`): a header, a blank line, one bullet
    line per not-joined channel carrying its escaped name, a blank line and a
    closing instruction, joined with newlines. */
module Messages {
  import opened Html
  import opened Lines

  const FailHeader: string := "<b>\U{26A0}\U{FE0F} Hali obuna bo'lmagan kanallar:</b>"
  // Written as three short literals: the solver reasons about the characters of
  // a short literal cheaply, but not about those of one 55-character literal.
  const FailFooter: string := "Obuna bo'lib, qayta " + "<b>Tekshirish</b> " + "tugmasini bosing."
  const BulletMark: char := '\U{2022}'

  /** `• ${escapeHtml(name)}` */
  function BulletLine(name: string): string {
    [BulletMark, ' '] + EscapeHtml(name)
  }

  function FailLines(notJoined: seq<string>): seq<string> {
    [FailHeader, ""]
    + seq(|notJoined|, j requires 0 <= j < |notJoined| => BulletLine(notJoined[j]))
    + ["", FailFooter]
  }

  /** `buildFailText(notJoined)`: the text opens with the header line. */
  function BuildFailText(notJoined: seq<string>): (text: string)
    ensures |text| > |FailHeader| && text[..|FailHeader|] == FailHeader && text[|FailHeader|] == '\n'
  {
    Join(FailLines(notJoined), '\n')
  }

  predicate IsBulletLine(line: string) {
    |line| > 0 && line[0] == BulletMark
  }

  function CountBulletLines(lines: seq<string>): nat {
    if |lines| == 0 then 0 else (if IsBulletLine(lines[0]) then 1 else 0) + CountBulletLines(lines[1..])
  }

  lemma {:induction false} CountBulletLinesAppend(a: seq<string>, b: seq<string>)
    ensures CountBulletLines(a + b) == CountBulletLines(a) + CountBulletLines(b)
    decreases |a|
  {
    if |a| == 0 {
      assert a + b == b;
    } else {
      assert (a + b)[1..] == a[1..] + b;
      CountBulletLinesAppend(a[1..], b);
    }
  }

  lemma {:induction false} CountAllBullets(lines: seq<string>)
    requires forall j :: 0 <= j < |lines| ==> IsBulletLine(lines[j])
    ensures CountBulletLines(lines) == |lines|
    decreases |lines|
  {
    if |lines| != 0 {
      CountAllBullets(lines[1..]);
    }
  }

  lemma BulletLineHasNoNewline(name: string)
    requires '\n' !in name
    ensures '\n' !in BulletLine(name)
  {
    EscapeHtmlCharacters(name);
  }

  lemma FooterHasNoNewline()
    ensures '\n' !in FailFooter
  {
    assert '\n' !in "Obuna bo'lib, qayta ";
    assert '\n' !in "<b>Tekshirish</b> ";
    assert '\n' !in "tugmasini bosing.";
  }

  lemma FailLinesHaveNoNewline(notJoined: seq<string>)
    requires forall j :: 0 <= j < |notJoined| ==> '\n' !in notJoined[j]
    ensures forall k :: 0 <= k < |FailLines(notJoined)| ==> '\n' !in FailLines(notJoined)[k]
  {
    var lines := FailLines(notJoined);
    assert '\n' !in FailHeader;
    FooterHasNoNewline();
    forall k | 0 <= k < |lines| ensures '\n' !in lines[k] {
      if 2 <= k < |notJoined| + 2 {
        assert lines[k] == BulletLine(notJoined[k - 2]);
        BulletLineHasNoNewline(notJoined[k - 2]);
      }
    }
  }

  lemma FailLinesBulletCount(notJoined: seq<string>)
    ensures CountBulletLines(FailLines(notJoined)) == |notJoined|
  {
    var bullets := seq(|notJoined|, j requires 0 <= j < |notJoined| => BulletLine(notJoined[j]));
    assert FailLines(notJoined) == [FailHeader, ""] + bullets + ["", FailFooter];
    CountBulletLinesAppend([FailHeader, ""] + bullets, ["", FailFooter]);
    CountBulletLinesAppend([FailHeader, ""], bullets);
    CountAllBullets(bullets);
    assert [FailHeader, ""][1..] == [""];
    assert CountBulletLines([FailHeader, ""]) == 0;
    assert ["", FailFooter][1..] == [FailFooter];
    assert FailFooter[0] == "Obuna bo'lib, qayta "[0] == 'O';
    assert CountBulletLines(["", FailFooter]) == 0;
  }

  /** Splitting the failure text on line breaks gives back its lines. */
  lemma FailTextLines(notJoined: seq<string>)
    requires forall j :: 0 <= j < |notJoined| ==> '\n' !in notJoined[j]
    ensures Split(BuildFailText(notJoined), '\n') == FailLines(notJoined)
  {
    FailLinesHaveNoNewline(notJoined);
    SplitJoin(FailLines(notJoined), '\n');
  }

  /** Read line by line, the failure text has exactly one bullet line per
      not-joined name, in order, and each carries that name escaped (so the
      name can be recovered from it). Channel names hold no line breaks. */
  lemma FailTextBullets(notJoined: seq<string>)
    requires forall j :: 0 <= j < |notJoined| ==> '\n' !in notJoined[j]
    ensures var lines := Split(BuildFailText(notJoined), '\n');
            && |lines| == |notJoined| + 4
            && lines[0] == FailHeader && lines[1] == "" && lines[|lines| - 2] == "" && lines[|lines| - 1] == FailFooter
            && (forall j :: 0 <= j < |notJoined| ==>
                  && |lines[j + 2]| >= 2 && lines[j + 2][..2] == [BulletMark, ' ']
                  && lines[j + 2][2..] == EscapeHtml(notJoined[j])
                  && Unescape(lines[j + 2][2..]) == notJoined[j])
            && CountBulletLines(lines) == |notJoined|
  {
    var lines := FailLines(notJoined);
    FailTextLines(notJoined);
    forall j | 0 <= j < |notJoined|
      ensures && |lines[j + 2]| >= 2 && lines[j + 2][..2] == [BulletMark, ' ']
              && lines[j + 2][2..] == EscapeHtml(notJoined[j])
              && Unescape(lines[j + 2][2..]) == notJoined[j]
    {
      assert lines[j + 2] == BulletLine(notJoined[j]);
      assert BulletLine(notJoined[j])[2..] == EscapeHtml(notJoined[j]);
      UnescapeEscapeHtml(notJoined[j]);
    }
    FailLinesBulletCount(notJoined);
  }
}
