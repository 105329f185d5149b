/** HTML escaping of text embedded in HTML-mode messages (`escapeHtml`).

    The source escapes with five global single-character replacements applied
    one after another, `&` first.  This module models that chain literally
    (`EscapeHtml`), gives an independent character-by-character reference
    (`EscapeEach`) and an inverse (`Unescape`), and proves how they relate.
 */
module Html {

  /** The five characters the escaper rewrites. */
  predicate IsSpecial(c: char) {
    c == '&' || c == '<' || c == '>' || c == '"' || c == '\''
  }

  /** The four characters that must never appear in escaped output. */
  predicate IsMarkup(c: char) {
    c == '<' || c == '>' || c == '"' || c == '\''
  }

  /** Entity that stands for one input character (the character itself when it is not special). */
  function EscapeChar(c: char): string {
    match c
    case '&' => "&amp;"
    case '<' => "&lt;"
    case '>' => "&gt;"
    case '"' => "&quot;"
    case '\'' => "&#39;"
    case _ => [c]
  }

  /** Reference definition: every character replaced by its entity, independently. */
  function EscapeEach(s: string): string {
    if |s| == 0 then [] else EscapeChar(s[0]) + EscapeEach(s[1..])
  }

  /** One global replacement of a literal character by a replacement text
      without `$` patterns, as in each step of `escapeHtml`. */
  function ReplaceAll(s: string, c: char, rep: string): string {
    if |s| == 0 then [] else (if s[0] == c then rep else [s[0]]) + ReplaceAll(s[1..], c, rep)
  }

  /** `escapeHtml` as written: five global replacements, `&` first. Each of the
      last four passes removes its character and no later pass brings it back. */
  function EscapeHtml(s: string): (r: string)
    ensures '<' !in r && '>' !in r && '"' !in r && '\'' !in r
  {
    var s1 := ReplaceAll(s, '&', "&amp;");
    var s2 := ReplaceAll(s1, '<', "&lt;");
    var s3 := ReplaceAll(s2, '>', "&gt;");
    var s4 := ReplaceAll(s3, '"', "&quot;");
    ReplaceAllRemoves(s1, '<', "&lt;");
    ReplaceAllRemoves(s2, '>', "&gt;");
    ReplaceAllRemoves(s3, '"', "&quot;");
    ReplaceAllRemoves(s4, '\'', "&#39;");
    ReplaceAllKeepsAbsent(s2, '>', "&gt;", '<');
    ReplaceAllKeepsAbsent(s3, '"', "&quot;", '<');
    ReplaceAllKeepsAbsent(s3, '"', "&quot;", '>');
    ReplaceAllKeepsAbsent(s4, '\'', "&#39;", '<');
    ReplaceAllKeepsAbsent(s4, '\'', "&#39;", '>');
    ReplaceAllKeepsAbsent(s4, '\'', "&#39;", '"');
    ReplaceAll(s4, '\'', "&#39;")
  }

  /** `escapeHtml` with the ampersand pass moved last: a counterfactual used to
      show that the order of the passes matters. */
  function EscapeAmpersandLast(s: string): string {
    ReplaceAll(ReplaceAll(ReplaceAll(ReplaceAll(ReplaceAll(s, '<', "&lt;"), '>', "&gt;"), '"', "&quot;"), '\'', "&#39;"), '&', "&amp;")
  }

  predicate StartsWith(s: string, p: string) {
    |p| <= |s| && s[..|p|] == p
  }

  /** `t` begins with one of the five entities the escaper emits. */
  predicate BeginsEntity(t: string) {
    StartsWith(t, "&amp;") || StartsWith(t, "&lt;") || StartsWith(t, "&gt;")
    || StartsWith(t, "&quot;") || StartsWith(t, "&#39;")
  }

  /** Inverse of the escaper: each of the five entities decodes to its character,
      every other character stands for itself. */
  function Unescape(s: string): string
    decreases |s|
  {
    if |s| == 0 then []
    else if s[0] != '&' then [s[0]] + Unescape(s[1..])
    else if StartsWith(s, "&amp;") then ['&'] + Unescape(s[5..])
    else if StartsWith(s, "&lt;") then ['<'] + Unescape(s[4..])
    else if StartsWith(s, "&gt;") then ['>'] + Unescape(s[4..])
    else if StartsWith(s, "&quot;") then ['"'] + Unescape(s[6..])
    else if StartsWith(s, "&#39;") then ['\''] + Unescape(s[5..])
    else [s[0]] + Unescape(s[1..])
  }

  /** Number of special characters in `s`. */
  function CountSpecial(s: string): nat {
    if |s| == 0 then 0 else (if IsSpecial(s[0]) then 1 else 0) + CountSpecial(s[1..])
  }

  // ---------------------------------------------------------------------------
  // One replacement pass

  lemma {:induction false} ReplaceAllAppend(a: string, b: string, c: char, rep: string)
    ensures ReplaceAll(a + b, c, rep) == ReplaceAll(a, c, rep) + ReplaceAll(b, c, rep)
    decreases |a|
  {
    if |a| == 0 {
      assert a + b == b;
    } else {
      assert (a + b)[1..] == a[1..] + b;
      ReplaceAllAppend(a[1..], b, c, rep);
    }
  }

  lemma {:induction false} ReplaceAllAbsent(s: string, c: char, rep: string)
    requires c !in s
    ensures ReplaceAll(s, c, rep) == s
    decreases |s|
  {
    if |s| != 0 {
      assert c !in s[1..];
      ReplaceAllAbsent(s[1..], c, rep);
    }
  }

  /** A pass never introduces a character absent from both its input and its replacement. */
  lemma {:induction false} ReplaceAllKeepsAbsent(s: string, c: char, rep: string, x: char)
    requires x !in s && x !in rep
    ensures x !in ReplaceAll(s, c, rep)
    decreases |s|
  {
    if |s| != 0 {
      assert x !in s[1..];
      ReplaceAllKeepsAbsent(s[1..], c, rep, x);
    }
  }

  /** A pass removes its character when the replacement does not contain it. */
  lemma {:induction false} ReplaceAllRemoves(s: string, c: char, rep: string)
    requires c !in rep
    ensures c !in ReplaceAll(s, c, rep)
    decreases |s|
  {
    if |s| != 0 {
      ReplaceAllRemoves(s[1..], c, rep);
    }
  }

  lemma ReplaceAllSingle(c: char, x: char, rep: string)
    ensures ReplaceAll([c], x, rep) == if c == x then rep else [c]
  {
    assert [c][1..] == [];
  }

  // One lemma per special character, then one for all other characters: proving
  // the five cases together in a single lemma exceeds the solver's resource budget.

  lemma EscapeHtmlOnAmpersand()
    ensures EscapeHtml(['&']) == "&amp;"
  {
    var s0 := ['&'];
    var s1 := ReplaceAll(s0, '&', "&amp;");
    ReplaceAllSingle('&', '&', "&amp;");
    assert s1 == "&amp;";
    var s2 := ReplaceAll(s1, '<', "&lt;");
    ReplaceAllAbsent(s1, '<', "&lt;");
    var s3 := ReplaceAll(s2, '>', "&gt;");
    ReplaceAllAbsent(s2, '>', "&gt;");
    var s4 := ReplaceAll(s3, '"', "&quot;");
    ReplaceAllAbsent(s3, '"', "&quot;");
    var s5 := ReplaceAll(s4, '\'', "&#39;");
    ReplaceAllAbsent(s4, '\'', "&#39;");
  }

  lemma EscapeHtmlOnLessThan()
    ensures EscapeHtml(['<']) == "&lt;"
  {
    var s0 := ['<'];
    var s1 := ReplaceAll(s0, '&', "&amp;");
    ReplaceAllSingle('<', '&', "&amp;");
    var s2 := ReplaceAll(s1, '<', "&lt;");
    ReplaceAllSingle('<', '<', "&lt;");
    assert s2 == "&lt;";
    var s3 := ReplaceAll(s2, '>', "&gt;");
    ReplaceAllAbsent(s2, '>', "&gt;");
    var s4 := ReplaceAll(s3, '"', "&quot;");
    ReplaceAllAbsent(s3, '"', "&quot;");
    var s5 := ReplaceAll(s4, '\'', "&#39;");
    ReplaceAllAbsent(s4, '\'', "&#39;");
  }

  lemma EscapeHtmlOnGreaterThan()
    ensures EscapeHtml(['>']) == "&gt;"
  {
    var s0 := ['>'];
    var s1 := ReplaceAll(s0, '&', "&amp;");
    ReplaceAllSingle('>', '&', "&amp;");
    var s2 := ReplaceAll(s1, '<', "&lt;");
    ReplaceAllSingle('>', '<', "&lt;");
    var s3 := ReplaceAll(s2, '>', "&gt;");
    ReplaceAllSingle('>', '>', "&gt;");
    assert s3 == "&gt;";
    var s4 := ReplaceAll(s3, '"', "&quot;");
    ReplaceAllAbsent(s3, '"', "&quot;");
    var s5 := ReplaceAll(s4, '\'', "&#39;");
    ReplaceAllAbsent(s4, '\'', "&#39;");
  }

  lemma EscapeHtmlOnQuote()
    ensures EscapeHtml(['"']) == "&quot;"
  {
    var s0 := ['"'];
    var s1 := ReplaceAll(s0, '&', "&amp;");
    ReplaceAllSingle('"', '&', "&amp;");
    var s2 := ReplaceAll(s1, '<', "&lt;");
    ReplaceAllSingle('"', '<', "&lt;");
    var s3 := ReplaceAll(s2, '>', "&gt;");
    ReplaceAllSingle('"', '>', "&gt;");
    var s4 := ReplaceAll(s3, '"', "&quot;");
    ReplaceAllSingle('"', '"', "&quot;");
    assert s4 == "&quot;";
    var s5 := ReplaceAll(s4, '\'', "&#39;");
    ReplaceAllAbsent(s4, '\'', "&#39;");
  }

  lemma EscapeHtmlOnApostrophe()
    ensures EscapeHtml(['\'']) == "&#39;"
  {
    var s0 := ['\''];
    var s1 := ReplaceAll(s0, '&', "&amp;");
    ReplaceAllSingle('\'', '&', "&amp;");
    var s2 := ReplaceAll(s1, '<', "&lt;");
    ReplaceAllSingle('\'', '<', "&lt;");
    var s3 := ReplaceAll(s2, '>', "&gt;");
    ReplaceAllSingle('\'', '>', "&gt;");
    var s4 := ReplaceAll(s3, '"', "&quot;");
    ReplaceAllSingle('\'', '"', "&quot;");
    var s5 := ReplaceAll(s4, '\'', "&#39;");
    ReplaceAllSingle('\'', '\'', "&#39;");
    assert s5 == "&#39;";
  }

  lemma EscapeHtmlOnOrdinary(c: char)
    requires !IsSpecial(c)
    ensures EscapeHtml([c]) == [c]
  {
    ReplaceAllSingle(c, '&', "&amp;");
    ReplaceAllSingle(c, '<', "&lt;");
    ReplaceAllSingle(c, '>', "&gt;");
    ReplaceAllSingle(c, '"', "&quot;");
    ReplaceAllSingle(c, '\'', "&#39;");
  }

  /** The five passes applied to a single character yield its entity. */
  lemma EscapeHtmlOnCharacter(c: char)
    ensures EscapeHtml([c]) == EscapeChar(c)
  {
    if c == '&' {
      EscapeHtmlOnAmpersand();
    } else if c == '<' {
      EscapeHtmlOnLessThan();
    } else if c == '>' {
      EscapeHtmlOnGreaterThan();
    } else if c == '"' {
      EscapeHtmlOnQuote();
    } else if c == '\'' {
      EscapeHtmlOnApostrophe();
    } else {
      EscapeHtmlOnOrdinary(c);
    }
  }

  /** The five passes act character by character: because the ampersand pass
      runs first, the entities the later passes introduce are never escaped a
      second time, and the chain agrees with the per-character reference. */
  lemma {:induction false} EscapeHtmlIsPerCharacter(s: string)
    ensures EscapeHtml(s) == EscapeEach(s)
    decreases |s|
  {
    if |s| != 0 {
      var c, t := s[0], s[1..];
      assert s == [c] + t;
      ReplaceAllAppend([c], t, '&', "&amp;");
      var a1, b1 := ReplaceAll([c], '&', "&amp;"), ReplaceAll(t, '&', "&amp;");
      ReplaceAllAppend(a1, b1, '<', "&lt;");
      var a2, b2 := ReplaceAll(a1, '<', "&lt;"), ReplaceAll(b1, '<', "&lt;");
      ReplaceAllAppend(a2, b2, '>', "&gt;");
      var a3, b3 := ReplaceAll(a2, '>', "&gt;"), ReplaceAll(b2, '>', "&gt;");
      ReplaceAllAppend(a3, b3, '"', "&quot;");
      var a4, b4 := ReplaceAll(a3, '"', "&quot;"), ReplaceAll(b3, '"', "&quot;");
      ReplaceAllAppend(a4, b4, '\'', "&#39;");
      EscapeHtmlOnCharacter(c);
      EscapeHtmlIsPerCharacter(t);
    }
  }

  // ---------------------------------------------------------------------------
  // Properties of the escaper

  lemma EscapeHtmlCons(s: string)
    requires |s| != 0
    ensures EscapeHtml(s) == EscapeChar(s[0]) + EscapeHtml(s[1..])
  {
    EscapeHtmlIsPerCharacter(s);
    EscapeHtmlIsPerCharacter(s[1..]);
  }

  lemma {:induction false} EscapeEachAppend(a: string, b: string)
    ensures EscapeEach(a + b) == EscapeEach(a) + EscapeEach(b)
    decreases |a|
  {
    if |a| == 0 {
      assert a + b == b;
    } else {
      assert (a + b)[1..] == a[1..] + b;
      EscapeEachAppend(a[1..], b);
    }
  }

  /** Escaping a concatenation is escaping each part. */
  lemma EscapeHtmlAppend(a: string, b: string)
    ensures EscapeHtml(a + b) == EscapeHtml(a) + EscapeHtml(b)
  {
    EscapeEachAppend(a, b);
    EscapeHtmlIsPerCharacter(a);
    EscapeHtmlIsPerCharacter(b);
    EscapeHtmlIsPerCharacter(a + b);
  }

  /** Every `&` of escaped text begins one of the five entities. */
  lemma {:induction false} EscapeHtmlAmpersandsBeginEntities(s: string)
    ensures forall i :: 0 <= i < |EscapeHtml(s)| && EscapeHtml(s)[i] == '&' ==> BeginsEntity(EscapeHtml(s)[i..])
    decreases |s|
  {
    if |s| != 0 {
      EscapeHtmlCons(s);
      EscapeHtmlAmpersandsBeginEntities(s[1..]);
      var e, rest := EscapeChar(s[0]), EscapeHtml(s[1..]);
      var r := e + rest;
      assert EscapeHtml(s) == r;
      forall i | 0 <= i < |r| && r[i] == '&'
        ensures BeginsEntity(r[i..])
      {
        if i >= |e| {
          assert r[i..] == rest[i - |e|..];
          assert rest[i - |e|] == '&';
        } else {
          assert i == 0 && IsSpecial(s[0]);
          assert r[..|e|] == e;
        }
      }
    }
  }

  /** Escaping changes a string exactly when it contains a special character. */
  lemma {:induction false} EscapeHtmlLength(s: string)
    ensures |EscapeHtml(s)| >= |s| + 3 * CountSpecial(s)
    ensures CountSpecial(s) == 0 <==> EscapeHtml(s) == s
    decreases |s|
  {
    if |s| != 0 {
      EscapeHtmlCons(s);
      EscapeHtmlLength(s[1..]);
      assert s == [s[0]] + s[1..];
      assert EscapeHtml(s) == EscapeChar(s[0]) + EscapeHtml(s[1..]);
    }
  }

  /** The escaper is the identity exactly on strings with none of the five
      special characters: the character-wise form of the second clause of
      `EscapeHtmlLength`, which counts them instead. */
  lemma {:induction false} EscapeHtmlIdentity(s: string)
    ensures (forall i :: 0 <= i < |s| ==> !IsSpecial(s[i])) <==> EscapeHtml(s) == s
    decreases |s|
  {
    EscapeHtmlLength(s);
    if |s| != 0 {
      EscapeHtmlIdentity(s[1..]);
      if forall i :: 0 <= i < |s| ==> !IsSpecial(s[i]) {
        assert forall i :: 0 <= i < |s[1..]| ==> !IsSpecial(s[1..][i]) by {
          forall i | 0 <= i < |s[1..]| ensures !IsSpecial(s[1..][i]) {
            assert s[1..][i] == s[i + 1];
          }
        }
      } else {
        var k :| 0 <= k < |s| && IsSpecial(s[k]);
        SpecialCounted(s, k);
      }
    }
  }

  lemma {:induction false} SpecialCounted(s: string, k: nat)
    requires k < |s| && IsSpecial(s[k])
    ensures CountSpecial(s) > 0
    decreases k
  {
    if k > 0 {
      assert s[1..][k - 1] == s[k];
      SpecialCounted(s[1..], k - 1);
    }
  }

  /** Every character of escaped text comes from the input or from an entity. */
  lemma {:induction false} EscapeHtmlCharacters(s: string)
    ensures forall c :: c in EscapeHtml(s) ==> c in s || c in "&amp;lt;gt;quot;#39"
    decreases |s|
  {
    if |s| != 0 {
      EscapeHtmlCons(s);
      EscapeHtmlCharacters(s[1..]);
      assert EscapeHtml(s) == EscapeChar(s[0]) + EscapeHtml(s[1..]);
      forall c | c in EscapeHtml(s) ensures c in s || c in "&amp;lt;gt;quot;#39" {
        if c in EscapeChar(s[0]) {
          if !IsSpecial(s[0]) {
            assert c == s[0];
          }
        } else {
          assert c in EscapeHtml(s[1..]);
          assert c in s[1..] ==> c in s;
        }
      }
    }
  }

  lemma PrefixOfAppend(e: string, t: string)
    ensures StartsWith(e + t, e)
  {
    assert (e + t)[..|e|] == e;
  }

  lemma MismatchNotPrefix(s: string, p: string, k: nat)
    requires k < |p| && k < |s| && s[k] != p[k]
    ensures !StartsWith(s, p)
  {
    if |p| <= |s| {
      assert s[..|p|][k] != p[k];
    }
  }

  lemma UnescapeEntity(c: char, t: string)
    ensures Unescape(EscapeChar(c) + t) == [c] + Unescape(t)
  {
    var e := EscapeChar(c);
    var s := e + t;
    PrefixOfAppend(e, t);
    assert s[|e|..] == t;
    if !IsSpecial(c) {
      assert s[0] == c && s[1..] == t;
    } else if c == '<' {
      MismatchNotPrefix(s, "&amp;", 1);
    } else if c == '>' {
      MismatchNotPrefix(s, "&amp;", 1);
      MismatchNotPrefix(s, "&lt;", 1);
    } else if c == '"' {
      MismatchNotPrefix(s, "&amp;", 1);
      MismatchNotPrefix(s, "&lt;", 1);
      MismatchNotPrefix(s, "&gt;", 1);
    } else if c == '\'' {
      MismatchNotPrefix(s, "&amp;", 1);
      MismatchNotPrefix(s, "&lt;", 1);
      MismatchNotPrefix(s, "&gt;", 1);
      MismatchNotPrefix(s, "&quot;", 1);
    }
  }

  /** Unescaping recovers the original text: escaping loses nothing. */
  lemma {:induction false} UnescapeEscapeHtml(s: string)
    ensures Unescape(EscapeHtml(s)) == s
    decreases |s|
  {
    if |s| != 0 {
      EscapeHtmlCons(s);
      assert EscapeHtml(s) == EscapeChar(s[0]) + EscapeHtml(s[1..]);
      UnescapeEntity(s[0], EscapeHtml(s[1..]));
      UnescapeEscapeHtml(s[1..]);
      assert s == [s[0]] + s[1..];
    }
  }

  /** Distinct texts never escape to the same output. */
  lemma EscapeHtmlInjective(a: string, b: string)
    requires EscapeHtml(a) == EscapeHtml(b)
    ensures a == b
  {
    UnescapeEscapeHtml(a);
    UnescapeEscapeHtml(b);
  }

  lemma AmpersandLastOnLessThan()
    ensures EscapeAmpersandLast(['<']) == "&amp;lt;"
  {
    var s1 := ReplaceAll(['<'], '<', "&lt;");
    ReplaceAllSingle('<', '<', "&lt;");
    assert s1 == "&lt;";
    var s2 := ReplaceAll(s1, '>', "&gt;");
    ReplaceAllAbsent(s1, '>', "&gt;");
    var s3 := ReplaceAll(s2, '"', "&quot;");
    ReplaceAllAbsent(s2, '"', "&quot;");
    var s4 := ReplaceAll(s3, '\'', "&#39;");
    ReplaceAllAbsent(s3, '\'', "&#39;");
    assert s4 == ['&'] + "lt;";
    var s5 := ReplaceAll(s4, '&', "&amp;");
    ReplaceAllAppend(['&'], "lt;", '&', "&amp;");
    ReplaceAllSingle('&', '&', "&amp;");
    ReplaceAllAbsent("lt;", '&', "&amp;");
    assert s5 == "&amp;" + "lt;";
  }

  /** With the ampersand pass last, the entities of earlier passes would be escaped again. */
  lemma AmpersandLastDoubleEscapes()
    ensures EscapeAmpersandLast("<") == "&amp;lt;"
    ensures EscapeHtml("<") == "&lt;"
  {
    assert "<" == ['<'];
    AmpersandLastOnLessThan();
    EscapeHtmlOnLessThan();
  }
}
