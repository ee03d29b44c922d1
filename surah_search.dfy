/** The header's surah search: a case-insensitive substring match on the
    surahs' latin names, the effect that refreshes the results when the
    query or the source changes, and the effect that closes the search
    sheet when the route changes. */
module SurahSearch {
  import opened Strings
  import opened Seqs

  datatype Surah = Surah(id: int, latin: string)

  datatype SearchSource = QuranSource | SunnahSource

  /** `s.latin.toLowerCase().includes(query.toLowerCase())`. */
  predicate Matches(query: string, s: Surah) {
    Contains(Lower(s.latin), Lower(query))
  }

  function MatchesQuery(query: string): Surah -> bool {
    (s: Surah) => Matches(query, s)
  }

  /** The surahs whose lower-cased latin name contains the lower-cased query. */
  function SearchSurahs(surahs: seq<Surah>, query: string): (r: seq<Surah>)
    ensures |r| <= |surahs|
    ensures forall s :: s in r <==> s in surahs && Contains(Lower(s.latin), Lower(query))
  {
    Filter(surahs, MatchesQuery(query))
  }

  /** The results keep the order of the surah list: searching a list made of
      two parts gives the results of the first part, then those of the
      second. */
  lemma SearchKeepsOrder(a: seq<Surah>, b: seq<Surah>, query: string)
    ensures SearchSurahs(a + b, query) == SearchSurahs(a, query) + SearchSurahs(b, query)
  {
    FilterAppend(a, b, MatchesQuery(query));
  }

  lemma LowerIdempotent(s: string)
    ensures Lower(Lower(s)) == Lower(s)
  {
  }

  /** Queries that differ only in the case of their letters find the same
      surahs; in particular the lower-cased query finds what the query does. */
  lemma SearchIgnoresCase(surahs: seq<Surah>, q1: string, q2: string)
    requires Lower(q1) == Lower(q2)
    ensures SearchSurahs(surahs, q1) == SearchSurahs(surahs, q2)
    ensures SearchSurahs(surahs, Lower(q1)) == SearchSurahs(surahs, q1)
  {
    FilterCongruent(surahs, MatchesQuery(q1), MatchesQuery(q2));
    LowerIdempotent(q1);
    FilterCongruent(surahs, MatchesQuery(Lower(q1)), MatchesQuery(q1));
  }

  /** The query is not trimmed: a leading space takes part in the match. */
  lemma UntrimmedQueryExample()
    ensures SearchSurahs([Surah(1, "Al-Fatiha")], "FAT") == [Surah(1, "Al-Fatiha")]
    ensures SearchSurahs([Surah(1, "Al-Fatiha")], " fat") == []
  {
    var name := Lower("Al-Fatiha");
    assert name == "al-fatiha";
    assert OccursAt(name, "fat", 3);
    assert Lower("FAT") == "fat";
    assert Matches("FAT", Surah(1, "Al-Fatiha"));
    assert Lower(" fat") == " fat";
    forall i | 0 <= i <= |name| - 4 ensures !OccursAt(name, " fat", i) {
      assert name[i] != ' ';
    }
    assert !Matches(" fat", Surah(1, "Al-Fatiha"));
  }

  /** The header's search state. */
  class SearchHeader {
    const surahs: seq<Surah>
    var searchMenu: bool
    var searchValue: string
    var searchSource: SearchSource
    var quranSearched: seq<Surah>

    constructor (surahs: seq<Surah>)
      ensures this.surahs == surahs
      ensures !searchMenu && searchValue == "" && searchSource == QuranSource && quranSearched == []
    {
      this.surahs := surahs;
      searchMenu := false;
      searchValue := "";
      searchSource := QuranSource;
      quranSearched := [];
    }

    /** The search icon opens the sheet. */
    method OpenSearch()
      modifies this`searchMenu
      ensures searchMenu
    {
      searchMenu := true;
    }

    /** The effect on the pathname: any route change closes the sheet. */
    method OnPathnameChange()
      modifies this`searchMenu
      ensures !searchMenu
    {
      searchMenu := false;
    }

    /** The effect on the query and the source: a blank query clears the
        results; otherwise the Quran source searches the surahs with the
        untrimmed query, and the Sunnah source leaves the results alone. */
    method SearchEffect()
      modifies this`quranSearched
      ensures IsBlank(searchValue) ==> quranSearched == []
      ensures !IsBlank(searchValue) && searchSource == QuranSource ==>
                quranSearched == SearchSurahs(surahs, searchValue)
      ensures !IsBlank(searchValue) && searchSource == SunnahSource ==>
                quranSearched == old(quranSearched)
    {
      if |Trim(searchValue)| > 0 {
        if searchSource == QuranSource {
          quranSearched := SearchSurahs(surahs, searchValue);
        }
      } else {
        quranSearched := [];
      }
    }

    /** Typing in the search field, and the effect that follows. */
    method SetSearchValue(text: string)
      modifies this`searchValue, this`quranSearched
      ensures searchValue == text
      ensures IsBlank(text) ==> quranSearched == []
      ensures !IsBlank(text) && searchSource == QuranSource ==> quranSearched == SearchSurahs(surahs, text)
      ensures !IsBlank(text) && searchSource == SunnahSource ==> quranSearched == old(quranSearched)
    {
      searchValue := text;
      SearchEffect();
    }

    /** Choosing the Quran or the Sunnah source, and the effect that follows. */
    method SetSearchSource(source: SearchSource)
      modifies this`searchSource, this`quranSearched
      ensures searchSource == source
      ensures IsBlank(searchValue) ==> quranSearched == []
      ensures !IsBlank(searchValue) && source == QuranSource ==> quranSearched == SearchSurahs(surahs, searchValue)
      ensures !IsBlank(searchValue) && source == SunnahSource ==> quranSearched == old(quranSearched)
    {
      searchSource := source;
      SearchEffect();
    }
  }
}
