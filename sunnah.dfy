/** The Sunnah screen's data transforms: cleaning the HTML left in hadith
    texts, the list of offered translations, the section list, the map from
    hadith number to translated text, the hadiths of the selected section,
    and the fallbacks of the selected translation and section. The fetched
    JSON records are datatypes here. */
module Sunnah {
  import opened Wrappers
  import opened Strings
  import opened Seqs

  /** The translations the screen can fetch, by language name. */
  const LanguageCodes: map<string, string> :=
    map["English" := "eng", "French" := "fra", "Urdu" := "urd", "Turkish" := "tur",
        "Indonesian" := "ind", "Bengali" := "ben", "Russian" := "rus", "Tamil" := "tam"]

  // ---------------- hadith text ----------------

  /** Where the white space starting at index `i` of `s` ends: what `\s*`
      matches there. */
  function SpaceRunEnd(s: string, i: nat): (k: nat)
    requires i <= |s|
    ensures i <= k <= |s|
    ensures forall j :: i <= j < k ==> IsSpace(s[j])
    ensures k < |s| ==> !IsSpace(s[k])
    decreases |s| - i
  {
    if i < |s| && IsSpace(s[i]) then SpaceRunEnd(s, i + 1) else i
  }

  /** A run of white space followed by a non-space ends at that character. */
  lemma SpaceRunEndAt(s: string, i: nat, e: nat)
    requires i <= e < |s| && !IsSpace(s[e])
    requires forall j :: i <= j < e ==> IsSpace(s[j])
    ensures SpaceRunEnd(s, i) == e
  {
  }

  /** The length of a `<br\s*\/?>` tag (letters in either case) at the start
      of `s`, or 0 when there is none. */
  function BreakTagLength(s: string): (n: nat)
    ensures n <= |s|
    ensures n > 0 ==> n >= 4 && s[0] == '<' && s[n - 1] == '>'
  {
    if |s| < 3 || s[0] != '<' || LowerChar(s[1]) != 'b' || LowerChar(s[2]) != 'r' then 0
    else
      var k := SpaceRunEnd(s, 3);
      if k < |s| && s[k] == '>' then k + 1
      else if k + 1 < |s| && s[k] == '/' && s[k + 1] == '>' then k + 2
      else 0
  }

  /** `t` is exactly one `<br\s*\/?>` tag: `<`, `b` and `r` in either case,
      white space, an optional `/`, then `>`. */
  predicate IsBreakTag(t: string) {
    && |t| >= 4 && t[0] == '<' && LowerChar(t[1]) == 'b' && LowerChar(t[2]) == 'r'
    && t[|t| - 1] == '>'
    && BreakTagMiddle(t[3..|t| - 1])
  }

  /** What may stand between `<br` and `>`: white space, then at most one `/`. */
  predicate BreakTagMiddle(mid: string) {
    || IsBlank(mid)
    || (mid != [] && mid[|mid| - 1] == '/' && IsBlank(mid[..|mid| - 1]))
  }

  /** The tag found at the start of `s` is the prefix that is a break tag,
      and 0 means no prefix is one. */
  lemma BreakTagLengthSpec(s: string)
    ensures forall n :: 0 < n <= |s| ==> (BreakTagLength(s) == n <==> IsBreakTag(s[..n]))
    ensures BreakTagLength(s) == 0 <==> forall n :: 0 < n <= |s| ==> !IsBreakTag(s[..n])
  {
    forall n | 0 < n <= |s| ensures BreakTagLength(s) == n <==> IsBreakTag(s[..n]) {
      BreakTagPrefix(s, n);
    }
    if BreakTagLength(s) > 0 {
      BreakTagPrefix(s, BreakTagLength(s));
    }
  }

  lemma BreakTagPrefix(s: string, n: nat)
    requires 0 < n <= |s|
    ensures BreakTagLength(s) == n <==> IsBreakTag(s[..n])
  {
    if BreakTagLength(s) == n {
      BreakTagFound(s);
    }
    if IsBreakTag(s[..n]) {
      BreakTagRecognised(s, n);
    }
  }

  lemma BreakTagFound(s: string)
    requires BreakTagLength(s) > 0
    ensures IsBreakTag(s[..BreakTagLength(s)])
  {
    var k := SpaceRunEnd(s, 3);
    var n := BreakTagLength(s);
    var t := s[..n];
    var mid := t[3..n - 1];
    assert forall i :: 0 <= i < |mid| ==> mid[i] == s[3 + i];
    if s[k] == '>' {
      assert IsBlank(mid);
    } else {
      assert mid[|mid| - 1] == '/';
      assert IsBlank(mid[..|mid| - 1]);
    }
  }

  lemma BreakTagRecognised(s: string, n: nat)
    requires 0 < n <= |s| && IsBreakTag(s[..n])
    ensures BreakTagLength(s) == n
  {
    var t := s[..n];
    assert s[0] == t[0] && s[1] == t[1] && s[2] == t[2] && s[n - 1] == '>';
    var mid := t[3..n - 1];
    assert BreakTagMiddle(mid);
    if IsBlank(mid) {
      forall i | 3 <= i < n - 1 ensures IsSpace(s[i]) {
        assert mid[i - 3] == t[i] == s[i];
      }
      SpaceRunEndAt(s, 3, n - 1);
    } else {
      var front := mid[..|mid| - 1];
      assert s[n - 2] == mid[|mid| - 1] == '/';
      forall i | 3 <= i < n - 2 ensures IsSpace(s[i]) {
        assert front[i - 3] == mid[i - 3] == t[i] == s[i];
      }
      SpaceRunEndAt(s, 3, n - 2);
    }
  }

  /** `s.replace(/<br\s*\/?>/gi, '\n')`: each tag, left to right, becomes a
      line break. */
  function ReplaceBreaks(s: string): (r: string)
    ensures |r| <= |s|
  {
    if s == [] then []
    else if BreakTagLength(s) > 0 then "\n" + ReplaceBreaks(s[BreakTagLength(s)..])
    else [s[0]] + ReplaceBreaks(s[1..])
  }

  /** `pat` (written in lower case) starts `s`, letters compared in either case. */
  predicate StartsWithAnyCase(s: string, pat: string) {
    |pat| <= |s| && Lower(s[..|pat|]) == pat
  }

  /** `s.replace(/pat/gi, rep)` for a literal `pat`: each occurrence, left to
      right and not overlapping, becomes `rep`. */
  function ReplaceAnyCase(s: string, pat: string, rep: string): (r: string)
    requires pat != []
    ensures |rep| <= |pat| ==> |r| <= |s|
  {
    if s == [] then []
    else if StartsWithAnyCase(s, pat) then rep + ReplaceAnyCase(s[|pat|..], pat, rep)
    else [s[0]] + ReplaceAnyCase(s[1..], pat, rep)
  }

  /** `cleanHadithText`: no text gives ""; otherwise line-break tags and
      `</p>` become line breaks, `<p>` goes, `&nbsp;` becomes a space, and
      the result is trimmed. */
  function CleanHadithText(text: Option<string>): (r: string)
    ensures text.None? || text == Some("") ==> r == ""
    ensures r != [] ==> !IsSpace(r[0]) && !IsSpace(r[|r| - 1])
    ensures FreeOf(r, "&nbsp;")
  {
    if text.None? || text.value == "" then ""
    else
      var s := ReplaceBreaks(text.value);
      var s := ReplaceAnyCase(s, "</p>", "\n");
      var s := ReplaceAnyCase(s, "<p>", "");
      SpaceEntityGone(s);
      Trim(ReplaceAnyCase(s, "&nbsp;", " "))
  }

  /** After the `&nbsp;` step and the trim, no `&nbsp;` is left. */
  lemma SpaceEntityGone(s: string)
    ensures FreeOf(Trim(ReplaceAnyCase(s, "&nbsp;", " ")), "&nbsp;")
  {
    var x := ReplaceAnyCase(s, "&nbsp;", " ");
    SpaceForeignToEntity();
    ReplaceAnyCaseLeavesNone(s, "&nbsp;", " ");
    FreeOfTrimmed(x, "&nbsp;");
  }

  lemma SpaceForeignToEntity()
    ensures ForeignTo(" ", "&nbsp;")
  {
    assert LowerChar(' ') == ' ';
  }

  /** Trimming a text free of `pat` leaves it free of `pat`. */
  lemma FreeOfTrimmed(x: string, pat: string)
    requires FreeOf(x, pat)
    ensures FreeOf(Trim(x), pat)
  {
    var r := Trim(x);
    var k :| TrimmedAt(x, r, k);
    FreeOfSlice(x, r, k, pat);
  }

  /** No tag the cleaner replaces begins anywhere in `s`. */
  predicate FreeOfMarkup(s: string) {
    && (forall i :: 0 <= i < |s| ==> BreakTagLength(s[i..]) == 0)
    && FreeOf(s, "</p>") && FreeOf(s, "<p>") && FreeOf(s, "&nbsp;")
  }

  lemma {:induction false} ReplaceBreaksUnmatched(s: string)
    requires forall i :: 0 <= i < |s| ==> BreakTagLength(s[i..]) == 0
    ensures ReplaceBreaks(s) == s
  {
    if s != [] {
      assert s[0..] == s;
      forall i | 0 <= i < |s| - 1 ensures BreakTagLength(s[1..][i..]) == 0 {
        assert s[1..][i..] == s[i + 1..];
      }
      ReplaceBreaksUnmatched(s[1..]);
    }
  }

  lemma {:induction false} ReplaceAnyCaseUnmatched(s: string, pat: string, rep: string)
    requires pat != [] && FreeOf(s, pat)
    ensures ReplaceAnyCase(s, pat, rep) == s
  {
    if s != [] {
      assert s[0..] == s;
      forall i | 0 <= i < |s| - 1 ensures !StartsWithAnyCase(s[1..][i..], pat) {
        assert s[1..][i..] == s[i + 1..];
      }
      ReplaceAnyCaseUnmatched(s[1..], pat, rep);
    }
  }

  /** A break tag becomes one line break, whatever follows it. */
  lemma ReplaceBreaksOnTag(t: string, rest: string)
    requires IsBreakTag(t)
    ensures ReplaceBreaks(t + rest) == "\n" + ReplaceBreaks(rest)
  {
    var s := t + rest;
    assert s[..|t|] == t;
    BreakTagRecognised(s, |t|);
    assert s[|t|..] == rest;
  }

  /** A character that does not start a break tag is kept. */
  lemma ReplaceBreaksOnText(c: char, rest: string)
    requires forall n :: 0 < n <= |rest| + 1 ==> !IsBreakTag(([c] + rest)[..n])
    ensures ReplaceBreaks([c] + rest) == [c] + ReplaceBreaks(rest)
  {
    var s := [c] + rest;
    BreakTagLengthSpec(s);
    assert s[1..] == rest;
  }

  /** Text that starts with the pattern, in any case, has that occurrence
      replaced and the rest scanned after it. */
  lemma ReplaceAnyCaseOnMatch(t: string, rest: string, pat: string, rep: string)
    requires pat != [] && Lower(t) == pat
    ensures ReplaceAnyCase(t + rest, pat, rep) == rep + ReplaceAnyCase(rest, pat, rep)
  {
    var s := t + rest;
    assert s[..|pat|] == t;
    assert s[|pat|..] == rest;
  }

  /** A character that does not start the pattern is kept and the scan
      moves on by one. */
  lemma ReplaceAnyCaseOnText(c: char, rest: string, pat: string, rep: string)
    requires pat != [] && !StartsWithAnyCase([c] + rest, pat)
    ensures ReplaceAnyCase([c] + rest, pat, rep) == [c] + ReplaceAnyCase(rest, pat, rep)
  {
    assert ([c] + rest)[1..] == rest;
  }

  /** No occurrence of `pat`, letters in either case, begins in `s`. */
  predicate FreeOf(s: string, pat: string) {
    forall i :: 0 <= i < |s| ==> !StartsWithAnyCase(s[i..], pat)
  }

  /** No character of `rep`, lower-cased, occurs in `pat`. */
  predicate ForeignTo(rep: string, pat: string) {
    forall i :: 0 <= i < |rep| ==> LowerChar(rep[i]) !in pat
  }

  /** The first `m` characters of the output are those of the input, unless
      a replacement shows among them. */
  lemma {:induction false} ReplaceAnyCaseWindow(s: string, pat: string, rep: string, m: nat)
    requires pat != [] && rep != [] && ForeignTo(rep, pat)
    ensures var out := ReplaceAnyCase(s, pat, rep);
            m <= |out| ==>
              || (m <= |s| && out[..m] == s[..m])
              || exists j :: 0 <= j < m && LowerChar(out[j]) !in pat
  {
    var out := ReplaceAnyCase(s, pat, rep);
    if s != [] && m > 0 && m <= |out| {
      if StartsWithAnyCase(s, pat) {
        assert out[0] == rep[0];
      } else {
        var tail := ReplaceAnyCase(s[1..], pat, rep);
        assert out == [s[0]] + tail;
        ReplaceAnyCaseWindow(s[1..], pat, rep, m - 1);
        if m - 1 <= |s| - 1 && tail[..m - 1] == s[1..][..m - 1] {
          assert out[..m] == [s[0]] + tail[..m - 1];
          assert s[..m] == [s[0]] + s[1..][..m - 1];
        } else {
          var j :| 0 <= j < m - 1 && LowerChar(tail[j]) !in pat;
          assert out[j + 1] == tail[j];
        }
      }
    }
  }

  /** When no character of `rep` is in `pat`, the output does not start
      with `pat`. */
  lemma ReplaceAnyCaseNoMatchAtStart(s: string, pat: string, rep: string)
    requires pat != [] && rep != [] && ForeignTo(rep, pat)
    ensures !StartsWithAnyCase(ReplaceAnyCase(s, pat, rep), pat)
  {
    var out := ReplaceAnyCase(s, pat, rep);
    var L := |pat|;
    if L <= |out| {
      assert pat[0] in pat;
      if StartsWithAnyCase(s, pat) {
        assert out[0] == rep[0];
        assert Lower(out[..L])[0] == LowerChar(rep[0]);
      } else {
        ReplaceAnyCaseWindow(s, pat, rep, L);
        if L <= |s| && out[..L] == s[..L] {
          assert Lower(out[..L]) == Lower(s[..L]);
        } else {
          var j :| 0 <= j < L && LowerChar(out[j]) !in pat;
          assert pat[j] in pat;
          assert Lower(out[..L])[j] == LowerChar(out[j]);
        }
      }
    }
  }

  /** When no character of `rep` is in `pat`, no occurrence of `pat` is left
      in the output, not even one formed across a replacement. */
  lemma {:induction false} ReplaceAnyCaseLeavesNone(s: string, pat: string, rep: string)
    requires pat != [] && rep != [] && ForeignTo(rep, pat)
    ensures FreeOf(ReplaceAnyCase(s, pat, rep), pat)
  {
    if s != [] {
      var out := ReplaceAnyCase(s, pat, rep);
      ReplaceAnyCaseNoMatchAtStart(s, pat, rep);
      assert out[0..] == out;
      assert pat[0] in pat;
      var skip := if StartsWithAnyCase(s, pat) then |pat| else 1;
      var head := if StartsWithAnyCase(s, pat) then rep else [s[0]];
      var tail := ReplaceAnyCase(s[skip..], pat, rep);
      assert out == head + tail;
      ReplaceAnyCaseLeavesNone(s[skip..], pat, rep);
      forall i | 0 < i < |out| ensures !StartsWithAnyCase(out[i..], pat) {
        if i >= |head| {
          assert out[i..] == tail[i - |head|..];
        } else {
          assert out[i..][0] == rep[i];
          assert |pat| <= |out[i..]| ==> Lower(out[i..][..|pat|])[0] == LowerChar(rep[i]);
        }
      }
    }
  }

  /** A slice of text free of `pat` is free of it too. */
  lemma FreeOfSlice(x: string, r: string, k: nat, pat: string)
    requires FreeOf(x, pat) && k + |r| <= |x| && x[k..k + |r|] == r
    ensures FreeOf(r, pat)
  {
    assert forall j :: 0 <= j < |r| ==> r[j] == x[k + j];
    forall i | 0 <= i < |r| ensures !StartsWithAnyCase(r[i..], pat) {
      assert !StartsWithAnyCase(x[k + i..], pat);
      if |pat| <= |r| - i {
        assert r[i..][..|pat|] == x[k + i..][..|pat|];
      }
    }
  }

  /** A text with none of the tags is only trimmed by the cleaner, and
      comes out unchanged when it has no white space at its ends. */
  lemma CleanHadithTextUntouched(s: string)
    requires FreeOfMarkup(s)
    ensures CleanHadithText(Some(s)) == Trim(s)
    ensures s != [] && !IsSpace(s[0]) && !IsSpace(s[|s| - 1]) ==> CleanHadithText(Some(s)) == s
  {
    ReplaceBreaksUnmatched(s);
    ReplaceAnyCaseUnmatched(s, "</p>", "\n");
    ReplaceAnyCaseUnmatched(s, "<p>", "");
    ReplaceAnyCaseUnmatched(s, "&nbsp;", " ");
    if s != [] && !IsSpace(s[0]) && !IsSpace(s[|s| - 1]) {
      TrimUnpadded(s);
    }
  }

  /** An upper-case line-break tag with a space and a slash is recognised
      in full. */
  lemma BreakTagLengthExample()
    ensures BreakTagLength("<BR />B") == 6
  {
    var s := "<BR />B";
    SpaceRunEndAt(s, 3, 4);
    assert LowerChar('B') == 'b' && LowerChar('R') == 'r';
  }

  lemma ReplaceBreaksTagExample()
    ensures ReplaceBreaks("<BR />B") == "\nB"
  {
    BreakTagLengthExample();
    assert "<BR />B"[6..] == "B";
    assert BreakTagLength("B") == 0;
    assert ReplaceBreaks("B") == "B";
  }

  /** The tag in `A<BR />B` becomes a line break. */
  lemma ReplaceBreaksExample()
    ensures ReplaceBreaks("A<BR />B") == "A\nB"
  {
    assert BreakTagLength("A<BR />B") == 0;
    assert "A<BR />B"[1..] == "<BR />B";
    ReplaceBreaksTagExample();
  }

  /** The `<p>` step runs after the `</p>` step, so removing a `<p>` can
      join its neighbours into a `</p>` that is kept. */
  lemma ClosingTagFormedExample()
    ensures CleanHadithText(Some("<<p>/p>")) == "</p>"
  {
    var s := "<<p>/p>";
    NoBreakTagExample();
    NoClosingTagExample();
    RemovedParagraphTag();
    NoSpaceEntityExample();
    assert Trim("</p>") == "</p>" by {
      TrimUnpadded("</p>");
    }
  }

  lemma NoBreakTagExample()
    ensures ReplaceBreaks("<<p>/p>") == "<<p>/p>"
  {
    var s := "<<p>/p>";
    forall i | 0 <= i < |s| ensures BreakTagLength(s[i..]) == 0 {
      assert |s[i..]| < 3 || (s[i..][1] != 'b' && s[i..][1] != 'B');
    }
    ReplaceBreaksUnmatched(s);
  }

  lemma NoClosingTagExample()
    ensures ReplaceAnyCase("<<p>/p>", "</p>", "\n") == "<<p>/p>"
  {
    var s := "<<p>/p>";
    forall i | 0 <= i < |s| ensures !StartsWithAnyCase(s[i..], "</p>") {
      if i == 0 {
        assert Lower(s[..4])[1] == '<';
      } else if i == 1 {
        assert Lower(s[1..][..4])[1] == 'p';
      } else if i < |s| - 3 {
        assert Lower(s[i..][..4])[0] == LowerChar(s[i]) != '<';
      }
    }
    ReplaceAnyCaseUnmatched(s, "</p>", "\n");
  }

  lemma NoSpaceEntityExample()
    ensures ReplaceAnyCase("</p>", "&nbsp;", " ") == "</p>"
  {
    var t := "</p>";
    forall i | 0 <= i < |t| ensures !StartsWithAnyCase(t[i..], "&nbsp;") {
    }
    ReplaceAnyCaseUnmatched(t, "&nbsp;", " ");
  }

  lemma RemovedParagraphTag()
    ensures ReplaceAnyCase("<<p>/p>", "<p>", "") == "</p>"
  {
    var s := "<<p>/p>";
    assert !StartsWithAnyCase(s, "<p>") by {
      assert Lower(s[..3])[1] == '<';
    }
    assert s[1..] == "<p>/p>";
    assert StartsWithAnyCase(s[1..], "<p>") by {
      assert Lower("<p>") == "<p>";
      assert s[1..][..3] == "<p>";
    }
    var rest := "/p>";
    assert s[1..][3..] == rest;
    forall i | 0 <= i < |rest| ensures !StartsWithAnyCase(rest[i..], "<p>") {
      assert |rest[i..]| < 3 || Lower(rest[i..][..3])[0] == LowerChar(rest[i]) != '<';
    }
    ReplaceAnyCaseUnmatched(rest, "<p>", "");
  }

  /** A translation is shown under a hadith only when the hadith's Arabic
      text and the map's text for its number both have a character that is
      not white space. */
  predicate ShowsTranslation(item: Hadith, translationMap: map<int, string>) {
    && item.text.Some? && Trim(item.text.value) != ""
    && item.number in translationMap && Trim(translationMap[item.number]) != ""
  }

  /** Over the map built from a translated edition: shown iff the Arabic text
      is not blank and the last translated hadith with the same number has a
      text that is not blank. */
  lemma ShowsTranslationSpec(item: Hadith, translations: seq<TranslatedHadith>)
    ensures ShowsTranslation(item, ToMapBy(translations, NumberOf, TextOf)) <==>
              && item.text.Some? && !IsBlank(item.text.value)
              && exists i :: && 0 <= i < |translations| && translations[i].number == item.number
                             && IsLastKey(translations, NumberOf, i) && !IsBlank(translations[i].text)
  {
    var m := ToMapBy(translations, NumberOf, TextOf);
    ToMapByKeys(translations, NumberOf, TextOf, item.number);
    if item.number in m {
      LastKeyExists(translations, NumberOf, item.number);
      var i :| 0 <= i < |translations| && NumberOf(translations[i]) == item.number && IsLastKey(translations, NumberOf, i);
      ToMapByLastWins(translations, NumberOf, TextOf, i);
      forall i' | 0 <= i' < |translations| && translations[i'].number == item.number && IsLastKey(translations, NumberOf, i')
        ensures i' == i
      {
        assert NumberOf(translations[i']) == NumberOf(translations[i]);
      }
    } else {
      forall i | 0 <= i < |translations| ensures translations[i].number != item.number {
        assert NumberOf(translations[i]) == translations[i].number;
      }
    }
  }

  // ---------------- translations offered ----------------

  /** One entry of a book's `collection` in the editions list. */
  datatype Edition = Edition(language: string)

  predicate IsTranslation(e: Edition) {
    e.language != "Arabic"
  }

  /** The languages of the book's editions other than Arabic, in order
      (the source's `langs`). */
  function EditionLanguages(book: seq<Edition>): (langs: seq<string>)
    ensures forall l :: l in langs <==> l != "Arabic" && exists e :: e in book && e.language == l
  {
    var others := Filter(book, IsTranslation);
    var langs := seq(|others|, i requires 0 <= i < |others| => others[i].language);
    forall l | l in langs ensures l != "Arabic" && exists e :: e in book && e.language == l {
      var i :| 0 <= i < |others| && langs[i] == l;
      assert others[i] in others;
    }
    assert forall e :: e in book && e.language != "Arabic" ==> e.language in langs by {
      forall e | e in book && e.language != "Arabic" ensures e.language in langs {
        assert IsTranslation(e) && e in others;
        var i :| 0 <= i < |others| && others[i] == e;
        assert langs[i] == e.language;
      }
    }
    langs
  }

  /** The languages are listed edition by edition, in the book's order. */
  lemma EditionLanguagesAppend(a: seq<Edition>, b: seq<Edition>)
    ensures EditionLanguages(a + b) == EditionLanguages(a) + EditionLanguages(b)
  {
    FilterAppend(a, b, IsTranslation);
    var oa: seq<Edition> := Filter(a, IsTranslation);
    var ob: seq<Edition> := Filter(b, IsTranslation);
    var l := EditionLanguages(a + b);
    assert |l| == |oa| + |ob|;
    forall i | 0 <= i < |l| ensures l[i] == (EditionLanguages(a) + EditionLanguages(b))[i] {
      assert l[i] == (oa + ob)[i].language;
    }
  }

  /** One edition contributes its language unless it is Arabic. */
  lemma EditionLanguagesSingle(e: Edition)
    ensures EditionLanguages([e]) == if e.language == "Arabic" then [] else [e.language]
  {
    FilterSingle(e, IsTranslation);
  }

  predicate IsKnownLanguage(l: string) {
    l in LanguageCodes
  }

  /** The offered translations: each non-Arabic language of the book once,
      in order of first appearance, kept only when the screen knows its
      code. */
  function AvailableLanguages(book: seq<Edition>): (r: seq<string>)
    ensures forall l :: l in r ==> l in LanguageCodes
  {
    Filter(Dedup(EditionLanguages(book)), IsKnownLanguage)
  }

  lemma AvailableLanguagesSpec(book: seq<Edition>)
    ensures var r := AvailableLanguages(book);
            && (forall l :: l in r <==> l in LanguageCodes && l != "Arabic" && exists e :: e in book && e.language == l)
            && (forall i, j :: 0 <= i < j < |r| ==> r[i] != r[j])
            && (forall i, j :: 0 <= i < j < |r| ==>
                  FirstIndex(EditionLanguages(book), r[i]) < FirstIndex(EditionLanguages(book), r[j]))
  {
    var langs := EditionLanguages(book);
    var d := Dedup(langs);
    DedupFirstOccurrenceOrder(langs);
    FilterKeepsOrder(d, IsKnownLanguage, (a: string, b: string) => a != b);
    FilterKeepsOrder(d, IsKnownLanguage,
      (a: string, b: string) => a in langs && b in langs && FirstIndex(langs, a) < FirstIndex(langs, b));
  }

  /** The translation kept after the languages load: the previous one when
      it is still offered, otherwise the first offered one (none when
      nothing is offered). */
  function KeepOrFirst(prev: Option<string>, langs: seq<string>): (r: Option<string>)
    ensures prev.Some? && prev.value in langs ==> r == prev
    ensures langs != [] ==> r.Some? && r.value in langs
    ensures langs == [] ==> r.None?
    ensures r.Some? && r != prev ==> r.value == langs[0]
  {
    if prev.Some? && prev.value in langs then prev
    else if langs == [] then None
    else Some(langs[0])
  }

  /** What the translation effect does with the selected translation. */
  datatype TranslationStep =
    | Wait                   // nothing offered yet
    | ResetToEnglish         // the selection is not offered: select English, fetch nothing
    | Fetch(code: string)    // fetch the edition in this language

  function TranslationStepFor(available: seq<string>, selected: Option<string>): (r: TranslationStep)
    requires forall l :: l in available ==> l in LanguageCodes
    ensures r.Fetch? <==> available != [] && selected.Some? && selected.value in available
    ensures r.Fetch? ==> r.code == LanguageCodes[selected.value]
    ensures r == Wait <==> available == []
  {
    if available == [] then Wait
    else if selected.None? || selected.value !in available then ResetToEnglish
    else Fetch(LanguageCodes[selected.value])
  }

  // ---------------- sections and hadiths ----------------

  datatype SectionDetails = SectionDetails(first: int, last: int)

  /** A book's metadata: its sections as `Object.entries` lists them (id and
      title) and the hadith range of each section id. */
  datatype Metadata = Metadata(sections: seq<(string, string)>, details: map<string, SectionDetails>)

  datatype Section = Section(id: string, title: string, first: int, last: int)

  /** The entry as shown, or none when it has no details or an empty range. */
  function PrepareSection(entry: (string, string), details: map<string, SectionDetails>): (r: Option<Section>)
    ensures r.Some? <==> entry.0 in details && details[entry.0].last != 0
    ensures r.Some? ==> r.value.id == entry.0 && r.value.title != ""
  {
    var (id, title) := entry;
    if id !in details || details[id].last == 0 then None
    else Some(Section(id, if title == "" then "Section " + id else title, details[id].first, details[id].last))
  }

  /** `preparedSections`: the usable sections, in order. */
  function PrepareSections(entries: seq<(string, string)>, details: map<string, SectionDetails>): (r: seq<Section>)
    ensures |r| <= |entries|
  {
    if entries == [] then []
    else
      var rest := PrepareSections(entries[1..], details);
      match PrepareSection(entries[0], details)
      case Some(s) => [s] + rest
      case None => rest
  }

  /** A prepared section carries its id's range, which does not end at 0, and
      a non-empty title: its own, or `Section <id>` when the entry's is empty. */
  lemma {:induction false} PrepareSectionsSound(entries: seq<(string, string)>, details: map<string, SectionDetails>)
    ensures forall s :: s in PrepareSections(entries, details) ==>
              && s.id in details && details[s.id].last != 0 && s.last != 0
              && s.first == details[s.id].first && s.last == details[s.id].last
              && s.title != ""
              && exists t :: (s.id, t) in entries && s.title == (if t == "" then "Section " + s.id else t)
  {
    if entries != [] {
      PrepareSectionsSound(entries[1..], details);
      var rest := PrepareSections(entries[1..], details);
      forall s | s in PrepareSections(entries, details)
        ensures exists t :: (s.id, t) in entries && s.title == (if t == "" then "Section " + s.id else t)
      {
        if s in rest {
          var t :| (s.id, t) in entries[1..] && s.title == (if t == "" then "Section " + s.id else t);
          assert (s.id, t) in entries;
        } else {
          assert PrepareSection(entries[0], details) == Some(s);
          assert (s.id, entries[0].1) == entries[0];
        }
      }
    }
  }

  /** Every entry whose id has details with a range not ending at 0 is
      prepared. */
  lemma {:induction false} PrepareSectionsComplete(entries: seq<(string, string)>, details: map<string, SectionDetails>)
    ensures forall e :: e in entries && e.0 in details && details[e.0].last != 0 ==>
              PrepareSection(e, details).value in PrepareSections(entries, details)
  {
    if entries != [] {
      PrepareSectionsComplete(entries[1..], details);
      assert forall e :: e in entries ==> e == entries[0] || e in entries[1..];
    }
  }

  lemma {:induction false} PrepareSectionsAppend(a: seq<(string, string)>, b: seq<(string, string)>, details: map<string, SectionDetails>)
    ensures PrepareSections(a + b, details) == PrepareSections(a, details) + PrepareSections(b, details)
  {
    if a == [] {
      assert a + b == b;
    } else {
      assert (a + b)[0] == a[0] && (a + b)[1..] == a[1..] + b;
      PrepareSectionsAppend(a[1..], b, details);
    }
  }

  /** The section selected after a book loads: the first prepared one. */
  function FirstSectionId(sections: seq<Section>): (r: Option<string>)
    ensures r.None? <==> sections == []
    ensures r.Some? ==> r.value == sections[0].id
  {
    if sections == [] then None else Some(sections[0].id)
  }

  /** A hadith of the Arabic edition; its text may be missing. */
  datatype Hadith = Hadith(number: int, text: Option<string>)

  /** A hadith of a translated edition. */
  datatype TranslatedHadith = TranslatedHadith(number: int, text: string)

  predicate InRange(h: Hadith, d: SectionDetails) {
    d.first <= h.number <= d.last
  }

  /** `filteredHadiths`: nothing without metadata, a selected section or its
      details; otherwise the hadiths numbered within the section's range. */
  function FilteredHadiths(metadata: Option<Metadata>, hadiths: seq<Hadith>, selected: Option<string>): (r: seq<Hadith>)
    ensures |r| <= |hadiths| && forall h :: h in r ==> h in hadiths
  {
    if metadata.None? || selected.None? || selected.value == "" then []
    else if selected.value !in metadata.value.details then []
    else
      var d := metadata.value.details[selected.value];
      Filter(hadiths, (h: Hadith) => InRange(h, d))
  }

  /** The filter keeps exactly the hadiths in the selected range, in their
      original order, and is empty when anything it needs is missing. */
  lemma FilteredHadithsSpec(metadata: Option<Metadata>, hadiths: seq<Hadith>, selected: Option<string>)
    ensures (metadata.None? || selected.None? || selected == Some("")
             || selected.value !in metadata.value.details) ==> FilteredHadiths(metadata, hadiths, selected) == []
    ensures metadata.Some? && selected.Some? && selected.value != "" && selected.value in metadata.value.details ==>
              var d := metadata.value.details[selected.value];
              && (forall h :: h in FilteredHadiths(metadata, hadiths, selected) <==> h in hadiths && d.first <= h.number <= d.last)
              && (forall a, b :: FilteredHadiths(metadata, a + b, selected)
                                 == FilteredHadiths(metadata, a, selected) + FilteredHadiths(metadata, b, selected))
  {
    if metadata.Some? && selected.Some? && selected.value != "" && selected.value in metadata.value.details {
      var d := metadata.value.details[selected.value];
      forall a, b ensures FilteredHadiths(metadata, a + b, selected)
                          == FilteredHadiths(metadata, a, selected) + FilteredHadiths(metadata, b, selected) {
        FilterAppend(a, b, (h: Hadith) => InRange(h, d));
      }
    }
  }

  function NumberOf(h: TranslatedHadith): int { h.number }
  function TextOf(h: TranslatedHadith): string { h.text }

  /** `translationMap`: hadith number to the text of the last translated
      hadith with that number. */
  method BuildTranslationMap(translations: seq<TranslatedHadith>) returns (m: map<int, string>)
    ensures m == ToMapBy(translations, NumberOf, TextOf)
  {
    m := map[];
    for i := 0 to |translations|
      invariant m == ToMapBy(translations[..i], NumberOf, TextOf)
    {
      assert translations[..i + 1][..i] == translations[..i];
      m := m[translations[i].number := translations[i].text];
    }
    assert translations[..|translations|] == translations;
  }

  /** The map holds exactly the numbers that occur, each with the text of its
      last occurrence. */
  lemma TranslationMapSpec(translations: seq<TranslatedHadith>, n: int, i: int)
    ensures n in ToMapBy(translations, NumberOf, TextOf) <==>
              exists j :: 0 <= j < |translations| && translations[j].number == n
    ensures 0 <= i < |translations| && (forall j :: i < j < |translations| ==> translations[j].number != translations[i].number) ==>
              && translations[i].number in ToMapBy(translations, NumberOf, TextOf)
              && ToMapBy(translations, NumberOf, TextOf)[translations[i].number] == translations[i].text
  {
    ToMapByKeys(translations, NumberOf, TextOf, n);
    if 0 <= i < |translations| && (forall j :: i < j < |translations| ==> translations[j].number != translations[i].number) {
      ToMapByLastWins(translations, NumberOf, TextOf, i);
    }
  }

  /** The Arabic edition of a book as fetched. */
  datatype ArabicEdition = ArabicEdition(metadata: Metadata, hadiths: seq<Hadith>)

  /** The reply to a translated edition's fetch. */
  datatype TranslationReply =
    | NotOk                                       // `res.ok` is false
    | Loaded(hadiths: Option<seq<TranslatedHadith>>)
    | Failed                                      // the fetch or the JSON threw

  /** The Sunnah screen's state. */
  class SunnahScreen {
    var available: seq<string>
    var selectedTranslation: Option<string>
    var metadata: Option<Metadata>
    var hadiths: seq<Hadith>
    var sections: seq<Section>
    var selectedSection: Option<string>
    var translations: seq<TranslatedHadith>
    var loading: bool

    /** Every offered translation has a language code. */
    ghost predicate Valid()
      reads this
    {
      forall l :: l in available ==> l in LanguageCodes
    }

    constructor ()
      ensures Valid()
      ensures available == [] && selectedTranslation == Some("English")
      ensures metadata == None && hadiths == [] && sections == [] && selectedSection == None
      ensures translations == [] && !loading
    {
      available := [];
      selectedTranslation := Some("English");
      metadata := None;
      hadiths := [];
      sections := [];
      selectedSection := None;
      translations := [];
      loading := false;
    }

    /** The editions list arrived; `book` is the selected book's entry, if
        the list has one. */
    method OnLanguagesLoaded(book: Option<seq<Edition>>)
      requires Valid()
      modifies this`available, this`selectedTranslation
      ensures Valid()
      ensures book.None? ==> available == old(available) && selectedTranslation == old(selectedTranslation)
      ensures book.Some? ==> available == AvailableLanguages(book.value)
                             && selectedTranslation == KeepOrFirst(old(selectedTranslation), available)
    {
      if book.None? {
        return;
      }
      var langs := AvailableLanguages(book.value);
      available := langs;
      selectedTranslation := KeepOrFirst(selectedTranslation, langs);
    }

    /** The Arabic edition's fetch finished (`None`: it failed). */
    method OnBookLoaded(reply: Option<ArabicEdition>)
      modifies this`metadata, this`hadiths, this`sections, this`selectedSection, this`loading
      ensures !loading
      ensures reply.None? ==> metadata == old(metadata) && hadiths == old(hadiths)
                              && sections == old(sections) && selectedSection == old(selectedSection)
      ensures reply.Some? ==>
                && metadata == Some(reply.value.metadata) && hadiths == reply.value.hadiths
                && sections == PrepareSections(reply.value.metadata.sections, reply.value.metadata.details)
                && selectedSection == FirstSectionId(sections)
    {
      loading := true;
      if reply.Some? {
        metadata := Some(reply.value.metadata);
        hadiths := reply.value.hadiths;
        var prepared := PrepareSections(reply.value.metadata.sections, reply.value.metadata.details);
        sections := prepared;
        selectedSection := FirstSectionId(prepared);
      }
      loading := false;
    }

    /** The effect on the book, the selection and the offered list: either
        nothing, a reset of the selection to English, or the code of the
        edition to fetch. */
    method TranslationEffect() returns (code: Option<string>)
      requires Valid()
      modifies this`selectedTranslation
      ensures var step := TranslationStepFor(available, old(selectedTranslation));
              && (step.Fetch? <==> code.Some?)
              && (step.Fetch? ==> code.value == step.code)
              && selectedTranslation == (if step == ResetToEnglish then Some("English") else old(selectedTranslation))
    {
      code := None;
      if available == [] {
        return;
      }
      if selectedTranslation.None? || selectedTranslation.value !in available {
        selectedTranslation := Some("English");
        return;
      }
      code := Some(LanguageCodes[selectedTranslation.value]);
    }

    /** The translated edition's fetch finished. */
    method OnTranslationLoaded(reply: TranslationReply)
      modifies this`translations
      ensures translations == match reply
                              case Loaded(hs) => hs.GetOr([])
                              case _ => []
    {
      match reply
      case Loaded(hs) => translations := hs.GetOr([]);
      case _ => translations := [];
    }

    /** The hadiths listed for the selected section. */
    function Listed(): seq<Hadith>
      reads this
    {
      FilteredHadiths(metadata, hadiths, selectedSection)
    }
  }
}
