/** The Quran screen's assembly of a surah: the Arabic verses joined with
    the translated verses of the same chapter, with the Basmala put first
    for every surah but the first and the ninth. */
module Quran {
  import opened Wrappers
  import opened Seqs

  /** A verse of the Arabic file of one surah. */
  datatype Verse = Verse(id: int, text: string)

  /** A verse of a translation file, which holds the whole Quran. */
  datatype TranslatedVerse = TranslatedVerse(chapter: int, verse: int, text: string)

  /** A row of the list the screen shows. */
  datatype Ayah = Ayah(id: int, arabic: string, translation: string, isBasmala: bool)

  /** The Basmala as the screen writes it, code point by code point (shadda
      before fatha, as in the screen's text, not in normalised order). */
  const BasmalaArabic: string :=
    "\U{0628}\U{0650}\U{0633}\U{0652}\U{0645}\U{0650} \U{0671}\U{0644}\U{0644}\U{0651}\U{064E}\U{0647}\U{0650} \U{0671}\U{0644}\U{0631}\U{0651}\U{064E}\U{062D}\U{0652}\U{0645}\U{064E}\U{0670}\U{0646}\U{0650} \U{0671}\U{0644}\U{0631}\U{0651}\U{064E}\U{062D}\U{0650}\U{064A}\U{0645}\U{0650}"

  /** In the second word the shadda (U+0651) comes before the fatha (U+064E). */
  lemma BasmalaMarkOrder()
    ensures BasmalaArabic[10] == '\U{0651}' && BasmalaArabic[11] == '\U{064E}'
  {
  }

  predicate AddsBasmala(surahId: int) {
    surahId != 1 && surahId != 9
  }

  function VerseNumber(v: TranslatedVerse): int { v.verse }
  function VerseText(v: TranslatedVerse): string { v.text }

  /** The translation map of a surah: verse number to text, built from the
      entries of that chapter only. */
  function ChapterMap(quran: seq<TranslatedVerse>, surahId: int): map<int, string> {
    ToMapBy(Filter(quran, OfChapter(surahId)), VerseNumber, VerseText)
  }

  /** The test `v => v.chapter === surahId`. */
  function OfChapter(surahId: int): TranslatedVerse -> bool {
    (v: TranslatedVerse) => v.chapter == surahId
  }

  /** A matching entry appended at the end overrides its verse; any other
      entry changes nothing. */
  lemma ChapterMapSnoc(quran: seq<TranslatedVerse>, x: TranslatedVerse, surahId: int)
    ensures ChapterMap(quran + [x], surahId) ==
            if x.chapter == surahId then ChapterMap(quran, surahId)[x.verse := x.text]
            else ChapterMap(quran, surahId)
  {
    var keep := OfChapter(surahId);
    FilterAppend(quran, [x], keep);
    FilterSingle(x, keep);
    var f := Filter(quran, keep);
    if x.chapter == surahId {
      ToMapBySnoc(f, x, VerseNumber, VerseText);
    } else {
      assert f + [] == f;
    }
  }

  /** The entry is a translation of verse `n` of chapter `surahId`. */
  predicate Carries(v: TranslatedVerse, surahId: int, n: int) {
    v.chapter == surahId && v.verse == n
  }

  /** A verse number is in the map exactly when an entry of the chapter
      carries it. */
  lemma {:induction false} ChapterMapKeys(quran: seq<TranslatedVerse>, surahId: int, n: int)
    ensures n in ChapterMap(quran, surahId) <==> exists j :: 0 <= j < |quran| && Carries(quran[j], surahId, n)
  {
    if quran != [] {
      var q, x := quran[..|quran| - 1], quran[|quran| - 1];
      assert quran == q + [x];
      ChapterMapSnoc(q, x, surahId);
      ChapterMapKeys(q, surahId, n);
      if exists j :: 0 <= j < |q| && Carries(q[j], surahId, n) {
        var j :| 0 <= j < |q| && Carries(q[j], surahId, n);
        assert quran[j] == q[j];
      }
      if exists j :: 0 <= j < |quran| && Carries(quran[j], surahId, n) {
        var j :| 0 <= j < |quran| && Carries(quran[j], surahId, n);
        if j < |q| {
          assert q[j] == quran[j];
        }
      }
    }
  }

  /** A verse number in the map holds the text of the last entry of the
      chapter that carries it. */
  lemma {:induction false} ChapterMapLast(quran: seq<TranslatedVerse>, surahId: int, n: int)
    requires n in ChapterMap(quran, surahId)
    ensures exists j :: && 0 <= j < |quran| && Carries(quran[j], surahId, n)
                        && ChapterMap(quran, surahId)[n] == quran[j].text
                        && forall k :: j < k < |quran| ==> !Carries(quran[k], surahId, n)
  {
    ChapterMapKeys(quran, surahId, n);
    var q, x := quran[..|quran| - 1], quran[|quran| - 1];
    assert quran == q + [x];
    ChapterMapSnoc(q, x, surahId);
    if Carries(x, surahId, n) {
      assert Carries(quran[|quran| - 1], surahId, n);
    } else {
      ChapterMapLast(q, surahId, n);
      var j :| && 0 <= j < |q| && Carries(q[j], surahId, n)
               && ChapterMap(q, surahId)[n] == q[j].text
               && forall k :: j < k < |q| ==> !Carries(q[k], surahId, n);
      assert quran[j] == q[j];
      forall k | j < k < |quran| ensures !Carries(quran[k], surahId, n) {
        if k < |q| {
          assert quran[k] == q[k];
        }
      }
    }
  }

  /** `translationMap[v.id] || ''`. */
  function TranslationOf(m: map<int, string>, id: int): (r: string)
    ensures id !in m ==> r == ""
    ensures id in m ==> r == m[id]
  {
    if id in m then m[id] else ""
  }

  /** The row of an Arabic verse: its id and text, and its translation. */
  function VerseRow(v: Verse, m: map<int, string>): Ayah {
    Ayah(v.id, v.text, TranslationOf(m, v.id), false)
  }

  /** The rows without the Basmala: one per Arabic verse, in order. */
  function AyahRows(verses: seq<Verse>, m: map<int, string>): (r: seq<Ayah>)
    ensures |r| == |verses|
    ensures forall k :: 0 <= k < |verses| ==> r[k] == VerseRow(verses[k], m)
  {
    seq(|verses|, k requires 0 <= k < |verses| => VerseRow(verses[k], m))
  }

  /** The data part of `fetchSurah`. Reading the Basmala's translation from
      the first entry of the translation file throws when the file is
      empty; that is the `None` result, and the shown list stays as it was. */
  function AssembleAyahs(surahId: int, verses: seq<Verse>, quran: seq<TranslatedVerse>): (r: Option<seq<Ayah>>)
    ensures r.None? <==> quran == []
    ensures r.Some? && AddsBasmala(surahId) ==>
              && |r.value| == |verses| + 1
              && r.value[0] == Ayah(0, BasmalaArabic, quran[0].text, true)
              && forall k :: 0 <= k < |verses| ==> r.value[k + 1] == VerseRow(verses[k], ChapterMap(quran, surahId))
    ensures r.Some? && !AddsBasmala(surahId) ==>
              && |r.value| == |verses|
              && forall k :: 0 <= k < |verses| ==> r.value[k] == VerseRow(verses[k], ChapterMap(quran, surahId))
  {
    if quran == [] then None
    else
      var rows := AyahRows(verses, ChapterMap(quran, surahId));
      if AddsBasmala(surahId) then
        var r := [Ayah(0, BasmalaArabic, quran[0].text, true)] + rows;
        assert forall k :: 0 <= k < |verses| ==> r[k + 1] == rows[k];
        Some(r)
      else
        Some(rows)
  }

  /** A verse's translation is the text of the last entry of its chapter
      with its number, or "" when the chapter has none; entries of other
      chapters never contribute. */
  lemma TranslationOfSpec(quran: seq<TranslatedVerse>, surahId: int, id: int)
    ensures (forall j :: 0 <= j < |quran| ==> !Carries(quran[j], surahId, id)) ==>
              TranslationOf(ChapterMap(quran, surahId), id) == ""
    ensures forall j :: 0 <= j < |quran| && Carries(quran[j], surahId, id)
                        && (forall k :: j < k < |quran| ==> !Carries(quran[k], surahId, id)) ==>
              TranslationOf(ChapterMap(quran, surahId), id) == quran[j].text
  {
    ChapterMapKeys(quran, surahId, id);
    var m := ChapterMap(quran, surahId);
    forall j | 0 <= j < |quran| && Carries(quran[j], surahId, id)
               && (forall k :: j < k < |quran| ==> !Carries(quran[k], surahId, id))
      ensures TranslationOf(m, id) == quran[j].text
    {
      ChapterMapLast(quran, surahId, id);
      var j' :| && 0 <= j' < |quran| && Carries(quran[j'], surahId, id)
                && m[id] == quran[j'].text
                && forall k :: j' < k < |quran| ==> !Carries(quran[k], surahId, id);
      assert j' == j;
    }
  }
}
