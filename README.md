# QuranicApp screens, modelled in Dafny

This project models the behaviour behind the screens of QuranicApp, a React
Native app for prayer times, the Quran, hadith collections and dhikr. Each
screen's logic is a Dafny module. The model covers:

- **PrayerTimes** (`app/main/Home.jsx`). The Home screen picks the next
  prayer from today's timings table, with rollover to tomorrow's Fajr. It
  formats the `HH:MM:SS` countdown, runs the guard that starts the one-second
  timer once Fajr is anything but '--' (an empty Fajr starts it too), and keeps the per-prayer notification
  switches. `HomeScreen` is a class whose `Tick` method is the scanning loop.
- **Sunnah** (`app/main/Sunnah.jsx`). This covers:
  - cleaning HTML left in hadith texts;
  - the list of offered translations (non-Arabic, deduplicated, known codes only);
  - the fallback of the selected translation and the translation effect;
  - the prepared section list and the first-section choice;
  - the hadiths of the selected section;
  - the hadith-number → translation map, built by a loop;
  - the rule for showing a translation.
- **Quran** (`app/main/Quran.jsx`). The ayah list joins the Arabic verses with
  the translations of the same chapter, and prepends the Basmala except for
  surahs 1 and 9.
- **SurahSearch** (`app/components/Header.jsx`). The header's search is a
  case-insensitive substring match on the surahs' latin names. Two effects
  act on its state: one refreshes the results and one closes the search sheet
  when the route changes.
- **Auth** (`app/auth/login.jsx`, `app/auth/signup.jsx`). Login runs its
  checks in order on the trimmed fields. The email check is written out and
  proved equal to the pattern `^[^\s@]+@[^\s@]+\.[^\s@]+$`. Sign-up checks only
  for empty fields. The `loading` flag is raised and lowered around each
  request.
- **Tasbeeh** (`app/secondary/tasbeeh.jsx`). The counter's queued state
  updates wrap from 99 to 1, and the count stays in 0..99.
- **BackNavigation** (`app/components/SecondaryHeader.jsx`). The back route is
  the `back` prop, else the `back` query parameter. It is pushed with a
  leading '/', or, when unset or empty, the app goes back in the history.

The modules **Wrappers**, **Seqs** and **Strings** hold the building blocks:

- `Option` and `Result`;
- `filter`, `new Set`-style deduplication, and `Object.fromEntries`-style maps
  in which the last entry wins;
- `trim` over the ECMAScript white-space set, `toLowerCase`, `includes`, and
  the decimal form of a number.

Time on the Home screen is an integer count of milliseconds since local
midnight. A day is exactly 86 400 000 ms. The clock is a parameter: each call
to `Tick(now)` is one run of the timer callback. Everything fetched over the
network is passed in as a datatype: the timings, the hadith editions, the
Quran files and the login and sign-up replies.

## Model

| member | source | states |
|---|---|---|
| Seqs.Filter | app/components/Header.jsx:42-44 | `Array.prototype.filter`: the result keeps exactly the elements satisfying the predicate and is no longer than the input |
| Seqs.FilterAppend | app/main/Sunnah.jsx:196-200 | filtering distributes over concatenation, so the original order is kept |
| Seqs.FilterCongruent | app/components/Header.jsx:42-44 | two predicates that agree on every element filter a list identically |
| Seqs.FilterKeepsOrder | app/main/Sunnah.jsx:92-94 | any ordering relation between the input's elements holds between the kept elements in the same positions |
| Seqs.Dedup | app/main/Sunnah.jsx:92 | `[...new Set(xs)]`: the same members as the input, each exactly once |
| Seqs.DedupFirstOccurrenceOrder | app/main/Sunnah.jsx:92 | the deduplicated list is ordered by first occurrence in the input, as a Set's insertion order is |
| Seqs.ToMapByKeys | app/main/Quran.jsx:61-63 | `Object.fromEntries`/`forEach` assignment: a key is in the map iff some entry carries it |
| Seqs.ToMapByLastWins | app/main/Quran.jsx:61-63 | with several entries for one key, the map holds the value of the last one |
| Seqs.LastKeyExists | app/main/Quran.jsx:61-63 | when some entry carries a key, one of them is the last entry carrying it |
| Seqs.FirstIndex | app/auth/login.jsx:38 | the index of the first occurrence of an element that occurs: it holds that element and no earlier position does |
| Strings.TrimStart | app/auth/login.jsx:30-31 | the white space removed at the front is all white space, and what is left starts with a non-space |
| Strings.TrimEnd | app/auth/login.jsx:30-31 | the white space removed at the back is all white space, and what is left ends with a non-space |
| Strings.Trim | app/auth/login.jsx:30-31 | `trim`: no white space at either end, empty iff the input is blank, and what is removed is white space only: the result stands at some position of the input with nothing but white space before and after it |
| Strings.TrimmedBetweenBlanks | app/auth/login.jsx:30-31 | removing a white-space front and then a white-space back leaves a part of the input with only white space around it, without white space at its ends, and empty iff the input is blank |
| Strings.TrimIdempotent | app/auth/login.jsx:30-31 | trimming twice is trimming once |
| Strings.Lower | app/components/Header.jsx:43 | `toLowerCase` on ASCII letters: same length, letters A-Z mapped to a-z |
| Strings.Decimal | app/main/Home.jsx:178-180 | `String(n)` for a natural number: all digits, one digit iff below 10, at most two below 100 |
| Strings.DecimalNoLeadingZero | app/main/Home.jsx:178-180 | the decimal form starts with '0' only for 0 itself |
| Strings.DecimalRoundTrip | app/main/Home.jsx:178-180 | the decimal text of a number reads back as that number |
| Strings.PadStart2 | app/main/Home.jsx:178-180 | `padStart(2, '0')`: two characters for a shorter text, else unchanged in length |
| Strings.PadStart2Spec | app/main/Home.jsx:178-180 | the text is a suffix of the padded result and everything before it is '0' |
| PrayerTimes.TodayInstant | app/main/Home.jsx:153-155 | `setHours(h, m, 0, 0)` gives a whole minute, within the day for a valid clock time |
| PrayerTimes.FirstUpcoming | app/main/Home.jsx:150-161 | the first index in the fixed prayer order whose entry is a clock time strictly after now; none when no entry qualifies |
| PrayerTimes.SelectNext | app/main/Home.jsx:138-171 | a prayer chosen for today is a clock time from its own entry and lies after now; the rollover target is Fajr's clock time, at least one day on; no target only when Fajr is '--' |
| PrayerTimes.SelectNextPicksFirstUpcoming | app/main/Home.jsx:150-161 | the first upcoming prayer in the order is chosen for today, at its clock time, whatever the other entries hold |
| PrayerTimes.SelectNextTodayIsUpcoming | app/main/Home.jsx:151-160 | a prayer chosen for today is a known clock time strictly after now, taken from its own table entry, and no earlier prayer in the order is upcoming |
| PrayerTimes.SelectNextRollover | app/main/Home.jsx:163-171 | with nothing left today the target is Fajr's clock time tomorrow; a '--' Fajr gives no target and an empty Fajr gives an invalid date |
| PrayerTimes.FieldsArithmetic | app/main/Home.jsx:178-180 | minutes and seconds are below 60 and hours·3600 + minutes·60 + seconds is the whole seconds of the difference |
| PrayerTimes.AfterTick | app/main/Home.jsx:163-184 | a tick either leaves the display as it was or shows the selected prayer; a target today or tomorrow still ahead shows that prayer with the formatted remaining time, and one not ahead leaves the display; an empty Fajr shows the invalid-date countdown |
| PrayerTimes.CountdownRoundTrip | app/main/Home.jsx:178-183 | the countdown text parses back to H, M, S with H = floor(diff/3600000) not wrapped at 24, M and S below 60, and H·3600+M·60+S = floor(diff/1000) |
| PrayerTimes.CountdownExample | app/main/Home.jsx:178-183 | 3 661 000 ms reads "01:01:01" |
| PrayerTimes.TickAlwaysShowsTarget | app/main/Home.jsx:163-184 | during the day a tick leaves the display alone iff Fajr is '--' and nothing is ahead; otherwise it shows the selected prayer |
| PrayerTimes.RolloverExample | app/main/Home.jsx:163-171 | after the day's last prayer the target is Fajr at the same clock time tomorrow |
| PrayerTimes.EqualTimeIsPastExample | app/main/Home.jsx:150-161 | at Dhuhr's own minute Dhuhr is not ahead (the comparison is strict) and Asr is chosen |
| PrayerTimes.LastSecondExample | app/main/Home.jsx:174-184 | one second before Fajr the countdown reads "00:00:01" |
| PrayerTimes.Toggled | app/main/Home.jsx:269-274 | the toggled prayer's switch is flipped (absent reads as off) and every other switch is unchanged |
| PrayerTimes.ToggleTwice | app/main/Home.jsx:269-274 | toggling a switch twice restores it |
| PrayerTimes.HomeScreen.constructor | app/main/Home.jsx:23-50 | all timings '--', no next prayer, countdown "00:00:00", timer stopped, all notifications off |
| PrayerTimes.HomeScreen.UpdateCountdown | app/main/Home.jsx:174-184 | a target not in the future changes nothing; otherwise the prayer and the formatted remaining time are shown |
| PrayerTimes.HomeScreen.TryPrayer | app/main/Home.jsx:151-160 | an entry is shown (and the scan stops) iff it is a clock time strictly after now; a skipped entry changes nothing |
| PrayerTimes.HomeScreen.RollOver | app/main/Home.jsx:163-171 | with nothing ahead today, the display follows the rollover rule: tomorrow's Fajr, an invalid date for an empty Fajr, nothing for '--' |
| PrayerTimes.HomeScreen.Tick | app/main/Home.jsx:138-172 | the loop's effect on (next prayer, countdown) equals the selection rule applied at `now` |
| PrayerTimes.HomeScreen.SetTimes | app/main/Home.jsx:195-201 | the timer runs iff Fajr is not '--', and only then is a first scan made |
| PrayerTimes.HomeScreen.ToggleNotification | app/main/Home.jsx:269-274 | the switches become the toggled map |
| Sunnah.SpaceRunEnd | app/main/Sunnah.jsx:39 | what `\s*` matches from a position: every character up to the returned index is white space and the next one is not |
| Sunnah.BreakTagLength | app/main/Sunnah.jsx:39 | a recognised `<br\s*\/?>` tag lies inside the text, starts with '<', ends with '>' and has at least four characters |
| Sunnah.BreakTagLengthSpec | app/main/Sunnah.jsx:39 | the length found at the start of a text is n > 0 iff the first n characters are one `<br\s*\/?>` tag (either letter case); it is 0 iff no prefix is such a tag |
| Sunnah.BreakTagFound | app/main/Sunnah.jsx:39 | a tag found at the start of a text is a `<br\s*\/?>` tag |
| Sunnah.BreakTagRecognised | app/main/Sunnah.jsx:39 | a text that starts with a `<br\s*\/?>` tag has that tag found, in full |
| Sunnah.ReplaceBreaks | app/main/Sunnah.jsx:39 | replacing the tags never lengthens the text |
| Sunnah.ReplaceBreaksOnTag | app/main/Sunnah.jsx:39 | a text that starts with a tag has it replaced by one line break and the rest scanned after it |
| Sunnah.ReplaceBreaksOnText | app/main/Sunnah.jsx:39 | a character that does not start a tag is kept and the scan moves on by one |
| Sunnah.ReplaceAnyCase | app/main/Sunnah.jsx:40-42 | a replacement no longer than the pattern never lengthens the text |
| Sunnah.ReplaceAnyCaseOnMatch | app/main/Sunnah.jsx:40-42 | a text that starts with the pattern, in any letter case, has that occurrence replaced and the rest scanned after it |
| Sunnah.ReplaceAnyCaseOnText | app/main/Sunnah.jsx:40-42 | a character that does not start the pattern, in any letter case, is kept and the scan moves on by one |
| Sunnah.ReplaceAnyCaseLeavesNone | app/main/Sunnah.jsx:40-42 | when no character of the replacement is in the pattern, no occurrence of the pattern (in any case) is left, not even one formed across a replacement |
| Sunnah.ReplaceBreaksUnmatched | app/main/Sunnah.jsx:39 | a text without a line-break tag is left unchanged by the replacement |
| Sunnah.ReplaceAnyCaseUnmatched | app/main/Sunnah.jsx:40-42 | a text without the pattern, in any letter case, is left unchanged by the replacement |
| Sunnah.BreakTagLengthExample | app/main/Sunnah.jsx:39 | an upper-case tag with a space and a slash, `<BR />`, is recognised in full |
| Sunnah.ReplaceBreaksExample | app/main/Sunnah.jsx:39 | `A<BR />B` becomes `A`, line break, `B` |
| Sunnah.CleanHadithText | app/main/Sunnah.jsx:36-44 | a missing or empty text gives ""; the result has no white space at either end and no `&nbsp;` in any letter case |
| Sunnah.SpaceEntityGone | app/main/Sunnah.jsx:41-42 | after the `&nbsp;` step and the trim no `&nbsp;` is left, whatever the text |
| Sunnah.FreeOfTrimmed | app/main/Sunnah.jsx:42-43 | trimming never creates an occurrence of a pattern the text was free of |
| Sunnah.CleanHadithTextUntouched | app/main/Sunnah.jsx:36-44 | a text with none of the tags is only trimmed, and comes out unchanged when it has no white space at its ends |
| Sunnah.ClosingTagFormedExample | app/main/Sunnah.jsx:36-44 | `<<p>/p>` comes out as `</p>`: removing `<p>` after the `</p>` step can form a closing tag that stays |
| Sunnah.ShowsTranslationSpec | app/main/Sunnah.jsx:351 | over the map built from the translated edition, a translation is shown iff the hadith's Arabic text exists and is not blank, and the last translated hadith with the same number has a text that is not blank |
| Sunnah.EditionLanguages | app/main/Sunnah.jsx:88-90 | the languages listed are exactly the non-Arabic languages of the book's editions |
| Sunnah.EditionLanguagesAppend | app/main/Sunnah.jsx:88-90 | the languages are listed edition by edition: the list for two runs of editions is the first run's list followed by the second's |
| Sunnah.EditionLanguagesSingle | app/main/Sunnah.jsx:88-90 | one edition contributes its language, or nothing when it is Arabic |
| Sunnah.AvailableLanguages | app/main/Sunnah.jsx:92-94 | every offered translation is one whose language code the screen knows |
| Sunnah.AvailableLanguagesSpec | app/main/Sunnah.jsx:88-94 | the offered translations are exactly the known non-Arabic edition languages, without repeats, in order of first appearance |
| Sunnah.KeepOrFirst | app/main/Sunnah.jsx:99-101 | the previous translation is kept when still offered; otherwise the first offered one, or none when nothing is offered |
| Sunnah.TranslationStepFor | app/main/Sunnah.jsx:150-179 | nothing happens while no translation is offered; a fetch happens iff the selection is offered, with its language code; otherwise the selection resets to English |
| Sunnah.PrepareSection | app/main/Sunnah.jsx:126-134 | an entry is prepared iff its id has details with a non-zero last number; a prepared section keeps the entry's id and has a non-empty title |
| Sunnah.PrepareSections | app/main/Sunnah.jsx:125-136 | no more sections than entries |
| Sunnah.PrepareSectionsSound | app/main/Sunnah.jsx:125-136 | each prepared section comes from an entry whose id has details with a non-zero last number; it carries that range, and the entry's title or `Section <id>` when that title is empty |
| Sunnah.PrepareSectionsComplete | app/main/Sunnah.jsx:125-136 | every entry whose id has details with a non-zero last number is prepared |
| Sunnah.PrepareSectionsAppend | app/main/Sunnah.jsx:125-136 | preparation works entry by entry and keeps their order |
| Sunnah.FirstSectionId | app/main/Sunnah.jsx:139 | the first prepared section's id, or none iff there is no section |
| Sunnah.FilteredHadiths | app/main/Sunnah.jsx:192-201 | the shown hadiths are some of the loaded ones, never more |
| Sunnah.FilteredHadithsSpec | app/main/Sunnah.jsx:192-201 | empty without metadata, selection or details; otherwise exactly the hadiths numbered within the section's range, in order |
| Sunnah.BuildTranslationMap | app/main/Sunnah.jsx:183-189 | the loop builds the number → text map of the translations |
| Sunnah.TranslationMapSpec | app/main/Sunnah.jsx:183-189 | a number is in the map iff a translation carries it, and it maps to the text of the last such translation |
| Sunnah.SunnahScreen.constructor | app/main/Sunnah.jsx:52-66 | English selected, nothing loaded, nothing offered, not loading |
| Sunnah.SunnahScreen.OnLanguagesLoaded | app/main/Sunnah.jsx:85-101 | a missing book changes nothing; otherwise the offered list is replaced and the selection falls back |
| Sunnah.SunnahScreen.OnBookLoaded | app/main/Sunnah.jsx:112-145 | a loaded book sets the metadata, hadiths, prepared sections and the first section; `loading` ends false on every path |
| Sunnah.SunnahScreen.TranslationEffect | app/main/Sunnah.jsx:150-179 | the effect fetches, resets the selection to English, or waits, as the translation step says |
| Sunnah.SunnahScreen.OnTranslationLoaded | app/main/Sunnah.jsx:164-174 | the translations become the fetched hadiths, or empty on a failed or unusable reply |
| Quran.ChapterMapSnoc | app/main/Quran.jsx:57-63 | an entry of the chapter appended at the end sets its verse's text; an entry of another chapter changes nothing |
| Quran.ChapterMapKeys | app/main/Quran.jsx:57-63 | a verse number is in the chapter's map iff an entry of that chapter carries it |
| Quran.ChapterMapLast | app/main/Quran.jsx:61-63 | a verse number in the map holds the text of the last entry of the chapter that carries it |
| Quran.AyahRows | app/main/Quran.jsx:65-69 | one row per Arabic verse, in order, with its id, text and translation, never marked as the Basmala |
| Quran.AssembleAyahs | app/main/Quran.jsx:50-75 | fails iff the translation file is empty; the Basmala (id 0, first translation entry) is first iff the surah is neither 1 nor 9; the length is the verse count plus one with the Basmala; after it, one row per Arabic verse in order, with its id, text and chapter translation, not marked as the Basmala |
| Quran.BasmalaMarkOrder | app/main/Quran.jsx:52 | the Basmala row's Arabic text keeps the screen's mark order: in the second word the shadda (U+0651) precedes the fatha (U+064E) |
| Quran.TranslationOf | app/main/Quran.jsx:68 | `translationMap[v.id] \|\| ''`: the mapped text, or "" for a verse with no entry |
| Quran.TranslationOfSpec | app/main/Quran.jsx:57-68 | a verse's translation is the last same-chapter entry's text, or "" when there is none |
| SurahSearch.SearchSurahs | app/components/Header.jsx:40-47 | the results are exactly the surahs whose lower-cased latin name contains the lower-cased query |
| SurahSearch.SearchKeepsOrder | app/components/Header.jsx:42-44 | the results keep the order of the surah list |
| SurahSearch.SearchIgnoresCase | app/components/Header.jsx:42-44 | queries equal up to letter case find the same surahs |
| SurahSearch.UntrimmedQueryExample | app/components/Header.jsx:42-44 | "FAT" finds Al-Fatiha while " fat" does not: the query is matched untrimmed |
| SurahSearch.SearchHeader.constructor | app/components/Header.jsx:27-30 | sheet closed, empty query, Quran source, no results |
| SurahSearch.SearchHeader.OpenSearch | app/components/Header.jsx:74 | the search icon opens the sheet |
| SurahSearch.SearchHeader.OnPathnameChange | app/components/Header.jsx:36-38 | any route change closes the sheet |
| SurahSearch.SearchHeader.SearchEffect | app/components/Header.jsx:40-55 | a blank query clears the results; otherwise the Quran source searches and the Sunnah source leaves the results alone |
| SurahSearch.SearchHeader.SetSearchValue | app/components/Header.jsx:49-55 | typing sets the query and the effect's rule applies to it |
| SurahSearch.SearchHeader.SetSearchSource | app/components/Header.jsx:49-55 | switching the source sets it and the effect's rule applies to it |
| Auth.CountOf | app/auth/login.jsx:38 | the count of a character is zero iff it does not occur |
| Auth.IsEmailSound | app/auth/login.jsx:38 | every string the written-out check accepts splits as the pattern's three runs around '@' and '.' |
| Auth.SplitCharacters | app/auth/login.jsx:38 | a string split as the pattern says has no white space and no '@' besides the split one |
| Auth.IsEmailComplete | app/auth/login.jsx:38 | every string matching the pattern passes the written-out check |
| Auth.IsEmailMatchesPattern | app/auth/login.jsx:38-42 | the written-out check (no white space, exactly one '@' not first, a '.' after it with a character on each side) accepts exactly the strings matching `^[^\s@]+@[^\s@]+\.[^\s@]+$` |
| Auth.ValidateLogin | app/auth/login.jsx:30-47 | missing fields iff a trimmed field is empty; else invalid email iff the check fails; else too short iff under 6 characters; the request carries the trimmed values |
| Auth.LoginAcceptedIff | app/auth/login.jsx:30-58 | a request goes out iff neither field is blank, the trimmed email matches the pattern and the trimmed password has at least 6 characters |
| Auth.LoginSeesTrimmedFields | app/auth/login.jsx:30-31 | validating the trimmed values gives the same verdict and request |
| Auth.LoginPasswordBoundary | app/auth/login.jsx:44-47 | once the email passes, six trimmed password characters are enough and five are refused as too short |
| Auth.EmailExample | app/auth/login.jsx:38-42 | "a@b.co" passes the email check |
| Auth.NotEmailExample | app/auth/login.jsx:38-42 | "a@b", "@b.co", "a@@b.co" and "a b@c.de" fail the email check |
| Auth.Conclude | app/auth/login.jsx:61-69 | success replaces the route with `/profile`; a refusal alerts the server's message or the fallback, never an empty one; a thrown request alerts the connection error |
| Auth.LoginScreen.constructor | app/auth/login.jsx:25-27 | empty fields, not loading |
| Auth.LoginScreen.SetEmail | app/auth/login.jsx:96 | the field holds the typed text |
| Auth.LoginScreen.SetPassword | app/auth/login.jsx:109 | the field holds the typed text |
| Auth.LoginScreen.Submit | app/auth/login.jsx:29-49 | ignored while loading (the button is disabled); a failed check is alerted with `loading` untouched; otherwise `loading` is raised and the trimmed credentials are sent |
| Auth.LoginScreen.Finish | app/auth/login.jsx:61-72 | the outcome of the reply, and `loading` false on every path |
| Auth.ValidateSignup | app/auth/signup.jsx:30-33 | refused iff a field is the empty string; otherwise the untrimmed three values are sent |
| Auth.SignupAcceptsBlank | app/auth/signup.jsx:30 | whitespace-only values pass sign-up while login refuses them as missing |
| Auth.SignupScreen.constructor | app/auth/signup.jsx:24-27 | empty fields, not loading |
| Auth.SignupScreen.SetName | app/auth/signup.jsx:75 | the field holds the typed text |
| Auth.SignupScreen.SetEmail | app/auth/signup.jsx:87 | the field holds the typed text |
| Auth.SignupScreen.SetPassword | app/auth/signup.jsx:100 | the field holds the typed text |
| Auth.SignupScreen.Submit | app/auth/signup.jsx:29-42 | ignored while loading; an empty field is alerted with `loading` untouched; otherwise `loading` is raised and the values are sent as typed |
| Auth.SignupScreen.Finish | app/auth/signup.jsx:44-56 | the outcome of the reply, and `loading` false on every path |
| Tasbeeh.Flush | app/secondary/tasbeeh.jsx:9-12 | queued updates applied in order: a queue ending in a set gives that value, and n queued additions add n |
| Tasbeeh.IncrementQueue | app/secondary/tasbeeh.jsx:8-13 | a press always queues a final add of one, and queues a reset first iff the count is 99; at 99 the queue is exactly a reset to 0 then an add of one |
| Tasbeeh.FlushConcat | app/secondary/tasbeeh.jsx:9-12 | queued updates applied in order compose: flushing a concatenation is flushing one queue after the other |
| Tasbeeh.Pressed | app/secondary/tasbeeh.jsx:8-13 | a press adds one, except at 99 where the queued reset and add give 1, never 100 |
| Tasbeeh.PressedIsModular | app/secondary/tasbeeh.jsx:8-13 | on 0..99 a press is `count % 99 + 1`, within 1..99 |
| Tasbeeh.RunStaysInRange | app/secondary/tasbeeh.jsx:6-17 | from a count in 0..99, any sequence of presses and resets stays in 0..99 |
| Tasbeeh.RunCounts | app/secondary/tasbeeh.jsx:8-13 | n presses from a count with count + n ≤ 99 reach count + n |
| Tasbeeh.Run | app/secondary/tasbeeh.jsx:6-17 | a run ending in a reset shows 0 |
| Tasbeeh.Counter.constructor | app/secondary/tasbeeh.jsx:6 | the count starts at 0 |
| Tasbeeh.Counter.Increment | app/secondary/tasbeeh.jsx:8-13 | the count becomes the pressed count and stays in range |
| Tasbeeh.Counter.Reset | app/secondary/tasbeeh.jsx:15-17 | the count becomes 0 from any state |
| BackNavigation.BackRoute | app/components/SecondaryHeader.jsx:18 | `??`: a prop that is not null or undefined wins, a null or undefined prop yields the parameter, and the route is unset iff both are |
| BackNavigation.Target | app/components/SecondaryHeader.jsx:23 | the pushed path starts with '/'; it is the route itself iff the route starts with '/', else the route behind one '/' |
| BackNavigation.TargetIdempotent | app/components/SecondaryHeader.jsx:23 | a pushed path used again as a route is pushed unchanged |
| BackNavigation.HandleBack | app/components/SecondaryHeader.jsx:20-31 | back in the history iff the chosen route is unset or empty; every pushed target starts with '/' |
| BackNavigation.EmptyPropShadowsParam | app/components/SecondaryHeader.jsx:18-21 | an empty prop shadows the query parameter and sends the user back |
| BackNavigation.PropWins | app/components/SecondaryHeader.jsx:18-25 | a non-empty prop decides alone; the parameter counts only without a prop |
| BackNavigation.HandleBackStable | app/components/SecondaryHeader.jsx:21-25 | pressing back with the target just pushed as the prop pushes the same target |

## Left out

- HTTP: the prayer-times and reverse-geocoding services, the hadith editions, the Quran files and the login and sign-up backends. Their replies are parameters or datatypes, and the request bodies are values.
- Location permission, AsyncStorage (the saved translation and the race between restoring it and the fallbacks), fonts, `Alert`, `Linking` and the router are platform calls. Alerts and navigation are returned as values.
- `setInterval`/`clearInterval` and React's effect scheduling: each timer tick or effect run is an explicit method call.
- PrayerTimes.HomeScreen.Tick: the source reads the clock twice (for the selection and for the difference); the model uses one `now` for both.
- PrayerTimes.TodayInstant: time zones and daylight saving are not modelled; a day is a fixed 86 400 000 ms after local midnight.
- PrayerTimes: a timings entry is '--', '' or a well-formed "HH:MM". The scan skips an absent entry exactly as it skips '' (app/main/Home.jsx:151), so an absent entry other than Fajr is covered by ''. An absent Fajr is not modelled: when no prayer is ahead, the source throws on it at app/main/Home.jsx:165. Other malformed text, on which `Number` gives NaN, is not modelled either.
- Strings.Lower: only ASCII letters are lower-cased; Unicode case mapping is not modelled.
- Strings.IsSpace is the ECMAScript WhiteSpace and LineTerminator set; characters are code points, not UTF-16 code units.
- Auth.ValidateLogin: the password length counts code points, where the source counts UTF-16 code units; the two differ only outside the Basic Multilingual Plane.
- Sunnah.IsKnownLanguage: `LANGUAGE_CODE_MAP[lang]` is read as membership in the eight listed languages; inherited object properties such as `constructor` are not modelled.
- Sunnah: hadith numbers and section ids are integers and strings as fetched; the `Object.entries` order of the sections is taken as given.
- Sunnah.SunnahScreen.OnBookLoaded: a reply that parses but lacks metadata sets the metadata and hadiths before the section step throws; the model treats every failed load as leaving the state unchanged.
- Sunnah: hadith grades, the language menu and the Arabic text display are rendering only.
- BackNavigation.BackRoute: a `back` query parameter given more than once (an array) is not modelled.
- Quran: the loading flag and the failure alert of `fetchSurah` are not modelled; a failure is the `None` result.
- The Adhkar screen, the names-of-Allah screen, the profile and settings screens, the layout and the themed components are outside this model.
