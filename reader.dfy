/**
 * The reader page of one book: chapter navigation with its persisted
 * progress, the font size and theme controls, the in-chapter search, the
 * highlights re-applied to each chapter and the notes form.
 *
 * The page's state lives in a `ReaderSession`; the browser objects it writes
 * to are the `localStorage` store, the `<body>` element (its `dark-theme`
 * class) and the `--font-size` variable of the document element.
 */
module Reader {
  import opened Wrappers
  import opened Text
  import opened Json
  import opened Seqs
  import opened Catalog
  import opened Browser
  import opened Paragraphs
  import opened Annotations

  const ThemeKey: string := "readerTheme"
  const DarkClass: string := "dark-theme"
  const DefaultNoteColor: string := "yellow"

  // ---------------------------------------------------------------------
  // Chapter navigation
  // ---------------------------------------------------------------------

  function Max(a: int, b: int): int { if a < b then b else a }
  function Min(a: int, b: int): int { if a < b then a else b }

  /** The updater `prevChapter` passes: `c => Math.max(1, c - 1)`. */
  function PrevChapter(c: int): int {
    Max(1, c - 1)
  }

  /** The updater `nextChapter` passes: `c => Math.min(book.totalChapters, c + 1)`. */
  function NextChapter(c: int, total: int): int {
    Min(total, c + 1)
  }

  /** The updater `goToChapter(n)` passes: `Math.max(1, Math.min(book.totalChapters, n))`. */
  function GoToChapter(n: int, total: int): int {
    Max(1, Min(total, n))
  }

  /**
   * Going to a chapter of a book with at least one chapter lands inside the
   * book: on `n` itself when it is a chapter, on the nearer end otherwise.
   */
  lemma GoToClamps(n: int, total: int)
    requires total >= 1
    ensures 1 <= GoToChapter(n, total) <= total
    ensures 1 <= n <= total ==> GoToChapter(n, total) == n
    ensures n < 1 ==> GoToChapter(n, total) == 1
    ensures n > total ==> GoToChapter(n, total) == total
  {
  }

  /** Previous and next keep a chapter of the book inside the book, and move by at most one. */
  lemma PrevNextStayInBook(c: int, total: int)
    requires 1 <= c <= total
    ensures 1 <= PrevChapter(c) <= total && 1 <= NextChapter(c, total) <= total
    ensures PrevChapter(c) == (if c == 1 then 1 else c - 1)
    ensures NextChapter(c, total) == (if c == total then total else c + 1)
  {
  }

  // ---------------------------------------------------------------------
  // Font size and theme
  // ---------------------------------------------------------------------

  /** The sizes the page can show: even, from 12 to 24 pixels. */
  predicate ValidFontSize(s: int) {
    12 <= s <= 24 && s % 2 == 0
  }

  /** `s => Math.min(24, s + 2)`. */
  function IncreasedFont(s: int): int {
    Min(24, s + 2)
  }

  /** `s => Math.max(12, s - 2)`. */
  function DecreasedFont(s: int): int {
    Max(12, s - 2)
  }

  /**
   * From a valid size both buttons give a valid size; `+` at 24 and `-` at
   * 12 change nothing, and otherwise each moves by exactly 2.
   */
  lemma FontStepsStayValid(s: int)
    requires ValidFontSize(s)
    ensures ValidFontSize(IncreasedFont(s)) && ValidFontSize(DecreasedFont(s))
    ensures IncreasedFont(s) == (if s == 24 then 24 else s + 2)
    ensures DecreasedFont(s) == (if s == 12 then 12 else s - 2)
  {
  }

  /** The value of the `--font-size` variable: `${fontSize}px`. */
  function FontVar(s: int): string {
    IntToString(s) + "px"
  }

  /** What `toggleTheme` stores for the theme it switches to. */
  function ThemeText(dark: bool): string {
    if dark then "dark" else "light"
  }

  /** The initial theme: `localStorage.getItem("readerTheme") === "dark"`. */
  predicate StoredDark(stored: Option<string>) {
    stored == Some("dark")
  }

  /** A stored theme reads back as the theme that was stored. */
  lemma ThemeRoundTrip(dark: bool)
    ensures StoredDark(Some(ThemeText(dark))) == dark
  {
    if !dark {
      assert ThemeText(dark)[0] == 'l';
    }
  }

  // ---------------------------------------------------------------------
  // Reading progress
  // ---------------------------------------------------------------------

  /** `progress_${bookId}`. */
  function ProgressKey(bookId: string): string {
    "progress_" + bookId
  }

  /** `JSON.stringify({ chapter: c })`. */
  function ProgressBlob(c: int): string {
    Stringify(JObj([Field("chapter", JNum(c))]))
  }

  /**
   * The chapter the mount effect adopts: it parses `stored || "null"` and
   * takes `saved.chapter` when `saved` and `saved.chapter` are truthy. A
   * blob that does not parse is caught and ignored.
   */
  function RestoredChapter(stored: Option<string>): (r: Option<int>)
    ensures r.Some? ==> r.value != 0
  {
    var text := if stored.None? || stored.value == [] then "null" else stored.value;
    match Parse(text)
    case Err(_) => None
    case Ok(saved) =>
      if saved.JObj? then
        match Lookup(saved.fields, "chapter")
        case Some(JNum(n)) => if n != 0 then Some(n) else None
        case _ => None
      else None
  }

  /** The chapter the page settles on at mount: the restored one, or 1. */
  function StartChapter(stored: Option<string>): int {
    match RestoredChapter(stored)
    case Some(n) => n
    case None => 1
  }

  /**
   * The progress the page writes reads back as that chapter, whatever its
   * value, except 0, which is falsy and so ignored.
   */
  lemma ProgressRoundTrip(c: int)
    ensures RestoredChapter(Some(ProgressBlob(c))) == if c == 0 then None else Some(c)
  {
    var saved := JObj([Field("chapter", JNum(c))]);
    assert WellFormed(saved);
    ParseStringify(saved);
  }

  /** With no saved progress the page stays on chapter 1. */
  lemma NoProgressNoRestore()
    ensures RestoredChapter(None) == None
  {
    var s := "null";
    assert s[..4] == "null" && s[4..] == [];
    assert ParseValue(s) == Ok((JNull, []));
  }

  /** The storage keys the page writes are pairwise distinct. */
  lemma KeysDistinct(bookId: string)
    ensures ProgressKey(bookId) != HighlightsKey && ProgressKey(bookId) != NotesKey && ProgressKey(bookId) != ThemeKey
    ensures HighlightsKey != NotesKey && HighlightsKey != ThemeKey && NotesKey != ThemeKey
  {
    assert ProgressKey(bookId)[0] == 'p';
    assert HighlightsKey[4] == 'H' && NotesKey[4] == 'N';
  }

  // ---------------------------------------------------------------------
  // Chapter content and highlights
  // ---------------------------------------------------------------------

  /** `arr` in `loadHighlights`: the stored highlights of this book and chapter. */
  function StoredHighlights(stored: Option<string>, bookId: string, chapter: int): Result<seq<Json>, Fault> {
    match ReadDoc(stored)
    case Err(e) => Err(e)
    case Ok(doc) => ChapterHighlights(doc, bookId, chapter)
  }

  /**
   * `loadHighlights()`: the chapter's highlights re-applied in storage order;
   * a blob that cannot be read or listed is caught and changes nothing.
   */
  function HighlightsApplied(content: seq<Paragraph>, stored: Option<string>, bookId: string, chapter: int): seq<Paragraph> {
    match StoredHighlights(stored, bookId, chapter)
    case Err(_) => content
    case Ok(hs) => RestoreEntries(content, hs)
  }

  /** Re-applying highlights keeps every paragraph's text and adds no search marks. */
  lemma HighlightsAppliedKeepText(content: seq<Paragraph>, stored: Option<string>, bookId: string, chapter: int)
    ensures SameText(HighlightsApplied(content, stored, bookId, chapter), content)
    ensures Unmarked(content) ==> Unmarked(HighlightsApplied(content, stored, bookId, chapter))
  {
    match StoredHighlights(stored, bookId, chapter)
    case Err(_) =>
    case Ok(hs) => RestoreEntriesSpec(content, hs);
  }

  /**
   * `arr.forEach(h => highlightTextInContainer(h.text, h.id))` inside the
   * `try` of `loadHighlights`: each record in turn rewrites the paragraphs,
   * and the first record whose text is not a string ends the loop.
   */
  method ApplyHighlights(content: seq<Paragraph>, stored: Option<string>, bookId: string, chapter: int)
    returns (r: seq<Paragraph>)
    ensures r == HighlightsApplied(content, stored, bookId, chapter)
  {
    r := content;
    var arr := StoredHighlights(stored, bookId, chapter);
    if arr.Err? {
      return;
    }
    var hs := arr.value;
    var i := 0;
    var thrown := false;
    while i < |hs| && !thrown
      invariant 0 <= i <= |hs|
      invariant RestoreEntries(r, if thrown then [] else hs[i..]) == RestoreEntries(content, hs)
      decreases |hs| - i, if thrown then 0 else 1
    {
      EntriesStep(r, hs, i);
      match HighlightText(hs[i])
      case None =>
        thrown := true;
      case Some(text) =>
        r := RestoreText(r, text, HighlightId(hs[i]));
        i := i + 1;
    }
    if !thrown {
      assert hs[i..] == [];
    }
  }

  /** One record of `RestoreEntries`: applied when its text is a string, the end of the loop otherwise. */
  lemma EntriesStep(content: seq<Paragraph>, hs: seq<Json>, i: int)
    requires 0 <= i < |hs|
    ensures HighlightText(hs[i]).None? ==> RestoreEntries(content, hs[i..]) == content
    ensures HighlightText(hs[i]).Some? ==>
      RestoreEntries(content, hs[i..])
      == RestoreEntries(RestoreText(content, HighlightText(hs[i]).value, HighlightId(hs[i])), hs[i + 1..])
  {
    assert hs[i..][0] == hs[i];
    assert hs[i..][1..] == hs[i + 1..];
  }

  /**
   * The chapter effect: when the book defines chapter `c`, its paragraphs
   * replace the container's and the chapter's highlights are re-applied;
   * when it does not, the container keeps what it showed.
   */
  function ChapterView(content: seq<Paragraph>, book: Book, c: int, stored: Option<string>, bookId: string): seq<Paragraph> {
    if c in book.chapters then HighlightsApplied(Render(book.chapters[c].content), stored, bookId, c)
    else content
  }

  /**
   * A defined chapter shows exactly its paragraphs' texts, without search
   * marks; an undefined one leaves the previous chapter on screen.
   */
  lemma ChapterViewSpec(content: seq<Paragraph>, book: Book, c: int, stored: Option<string>, bookId: string)
    ensures c in book.chapters ==>
      var v := ChapterView(content, book, c, stored, bookId);
      var paras := book.chapters[c].content;
      && |v| == |paras|
      && (forall i :: 0 <= i < |v| ==> TextOf(v[i]) == paras[i])
      && Unmarked(v)
    ensures c !in book.chapters ==> ChapterView(content, book, c, stored, bookId) == content
  {
    if c in book.chapters {
      var rendered := Render(book.chapters[c].content);
      assert Unmarked(rendered) by {
        forall i | 0 <= i < |rendered| ensures NoMarks(rendered[i]) {
          assert AllPlain(rendered[i]);
        }
      }
      HighlightsAppliedKeepText(rendered, stored, bookId, c);
    }
  }

  /**
   * `atomic-habits` lets the reader go to chapters 2 to 5, which it does not
   * define: going there keeps the previous chapter's paragraphs on screen.
   */
  lemma AtomicHabitsGap(content: seq<Paragraph>, n: int, stored: Option<string>)
    requires 2 <= n <= 5
    ensures GoToChapter(n, AtomicHabits().totalChapters) == n
    ensures ChapterView(content, AtomicHabits(), n, stored, AtomicHabitsId) == content
  {
    ChapterGaps();
  }

  // ---------------------------------------------------------------------
  // Search
  // ---------------------------------------------------------------------

  datatype SearchOutcome = NoQuery | Found | NotFound

  /** Every paragraph searched for `q`. */
  function SearchAll(ps: seq<Paragraph>, q: string): (r: seq<Paragraph>)
    requires q != []
    ensures |r| == |ps|
  {
    seq(|ps|, i requires 0 <= i < |ps| => SearchParagraph(ps[i], q))
  }

  /**
   * Searching keeps every paragraph's text; a paragraph gains marks exactly
   * when its text contains the query, and the others are left as they were.
   */
  lemma SearchAllSpec(ps: seq<Paragraph>, q: string, i: int)
    requires q != [] && 0 <= i < |ps|
    ensures TextOf(SearchAll(ps, q)[i]) == TextOf(ps[i])
    ensures ContainsFolded(TextOf(ps[i]), q) ==> HasWrap(SearchAll(ps, q)[i]) && Wrapped(SearchMark, SearchAll(ps, q)[i], q)
    ensures !ContainsFolded(TextOf(ps[i]), q) ==> SearchAll(ps, q)[i] == ps[i]
  {
    SearchParagraphSpec(ps[i], q);
  }

  /**
   * `searchInBook(q)` on the container: old marks are cleared first; a blank
   * query stops there; otherwise each paragraph whose text contains `q`
   * (untrimmed, ASCII case-insensitively) is rewritten with every match
   * marked, and the outcome says whether any paragraph matched.
   */
  function SearchResult(content: seq<Paragraph>, q: string): (seq<Paragraph>, SearchOutcome) {
    var cleared := ClearMarks(content);
    if IsBlank(q) then (cleared, NoQuery)
    else
      (SearchAll(cleared, q), if FoundBefore(content, q, |content|) then Found else NotFound)
  }

  /**
   * After a search every paragraph says what it said before and carries no
   * stale marks from an earlier search; the toast says "found" exactly when
   * some paragraph now shows a mark, and only the paragraphs containing the
   * query do.
   */
  lemma SearchResultSpec(content: seq<Paragraph>, q: string, i: int)
    requires 0 <= i < |content|
    ensures var r := SearchResult(content, q).0;
      && |r| == |content|
      && TextOf(r[i]) == TextOf(content[i])
      && (IsBlank(q) ==> NoMarks(r[i]))
      && (!IsBlank(q) ==> (HasMark(r[i]) <==> ContainsFolded(TextOf(content[i]), q)))
  {
    if !IsBlank(q) {
      assert q != [];
      ParagraphMarkedIff(content, q, i);
    }
  }

  lemma ParagraphMarkedIff(content: seq<Paragraph>, q: string, i: int)
    requires q != [] && 0 <= i < |content|
    ensures HasMark(SearchAll(ClearMarks(content), q)[i]) <==> ContainsFolded(TextOf(content[i]), q)
  {
    var cleared := ClearMarks(content);
    SearchAllSpec(cleared, q, i);
    if ContainsFolded(TextOf(content[i]), q) {
      MarkedHasMark(SearchAll(cleared, q)[i], q);
    } else {
      assert NoMarks(cleared[i]);
    }
  }

  /**
   * The toast reports a blank query as no search at all; otherwise it says
   * "found" exactly when some paragraph contains the query, which is exactly
   * when some paragraph now shows a mark.
   */
  lemma SearchOutcomeSpec(content: seq<Paragraph>, q: string)
    ensures var (r, outcome) := SearchResult(content, q);
      && (IsBlank(q) <==> outcome == NoQuery)
      && (!IsBlank(q) ==> (outcome == Found <==> exists j :: 0 <= j < |content| && ContainsFolded(TextOf(content[j]), q)))
      && (!IsBlank(q) ==> (outcome == Found <==> exists j :: 0 <= j < |r| && HasMark(r[j])))
  {
    FoundBeforeSpec(content, q, |content|);
    if !IsBlank(q) {
      assert q != [];
      var r := SearchResult(content, q).0;
      forall j | 0 <= j < |r|
        ensures HasMark(r[j]) <==> ContainsFolded(TextOf(content[j]), q)
      {
        ParagraphMarkedIff(content, q, j);
      }
    }
  }

  /** Whether one of the first `n` paragraphs contains `q`: the loop's `found`. */
  function FoundBefore(content: seq<Paragraph>, q: string, n: nat): bool
    requires n <= |content|
  {
    n > 0 && (FoundBefore(content, q, n - 1) || ContainsFolded(TextOf(content[n - 1]), q))
  }

  lemma {:induction false} FoundBeforeSpec(content: seq<Paragraph>, q: string, n: nat)
    requires n <= |content|
    ensures FoundBefore(content, q, n) <==> exists j :: 0 <= j < n && ContainsFolded(TextOf(content[j]), q)
  {
    if n > 0 {
      FoundBeforeSpec(content, q, n - 1);
      if ContainsFolded(TextOf(content[n - 1]), q) {
        assert 0 <= n - 1 < n;
      }
    }
  }

  /** The loop's final state is the search's result. */
  lemma SearchResultOf(content: seq<Paragraph>, q: string, r: seq<Paragraph>, found: bool)
    requires !IsBlank(q) && q != []
    requires |r| == |content|
    requires forall j :: 0 <= j < |r| ==> r[j] == SearchParagraph(ClearMarks(content)[j], q)
    requires found == FoundBefore(content, q, |content|)
    ensures SearchResult(content, q) == (r, if found then Found else NotFound)
  {
    assert r == SearchAll(ClearMarks(content), q);
  }

  /** Every wrap of a search is a mark. */
  lemma MarkedHasMark(p: Paragraph, q: string)
    requires Wrapped(SearchMark, p, q) && HasWrap(p)
    ensures HasMark(p)
  {
    var k :| 0 <= k < |p| && !p[k].Plain?;
    assert IsMatchSegment(SearchMark, p[k], q);
  }

  /** `!s.trim()`, or `s.trim() === ""`: the text is whitespace only. */
  method TrimsToEmpty(s: string) returns (b: bool)
    ensures b <==> IsBlank(s)
  {
    b := Trim(s) == [];
  }

  /**
   * `searchInBook(q)` over the paragraphs, the loop as the page runs it: each
   * paragraph's text is tested and, on a match, rewritten with its marks.
   */
  method SearchContent(content: seq<Paragraph>, q: string) returns (r: seq<Paragraph>, outcome: SearchOutcome)
    ensures (r, outcome) == SearchResult(content, q)
  {
    r := ClearMarks(content);
    var blank := TrimsToEmpty(q);
    if blank {
      outcome := NoQuery;
      return;
    }
    assert q != [];
    var cleared := r;
    var found := false;
    var i := 0;
    while i < |r|
      invariant 0 <= i <= |r| == |cleared| == |content|
      invariant forall j :: 0 <= j < i ==> r[j] == SearchParagraph(cleared[j], q)
      invariant forall j :: i <= j < |r| ==> r[j] == cleared[j]
      invariant found == FoundBefore(content, q, i)
    {
      var text := TextOf(r[i]);
      assert text == TextOf(content[i]);
      if ContainsFolded(text, q) {
        found := true;
        r := r[i := WrapAll(SearchMark, text, q)];
      }
      i := i + 1;
    }
    outcome := if found then Found else NotFound;
    SearchResultOf(content, q, r, found);
  }

  // ---------------------------------------------------------------------
  // Saving highlights and notes
  // ---------------------------------------------------------------------

  /** The record `highlightSelection` saves, without its on-screen position. */
  function NewHighlight(now: int, text: string, chapter: int, bookId: string, timestamp: string): Json {
    HighlightEntry("hl-" + IntToString(now), text, chapter, bookId, timestamp)
  }

  /**
   * The stored items after one read-append-write of the store under `key`:
   * a failure anywhere is caught and leaves the items as they were.
   */
  function SaveRecord(items: map<string, string>, key: string, bookId: string, entry: Json, quotaFull: bool): map<string, string> {
    match AppendStored(GetItem(items, key), bookId, entry, quotaFull)
    case Ok(blob) => items[key := blob]
    case Err(_) => items
  }

  /** A highlight record of the session is well formed, not `null`, and of its chapter. */
  lemma NewHighlightFacts(now: int, text: string, chapter: int, bookId: string, timestamp: string)
    ensures var h := NewHighlight(now, text, chapter, bookId, timestamp);
      WellFormed(h) && h != JNull && InChapter(h, chapter)
  {
    var id := "hl-" + IntToString(now);
    HighlightEntryWellFormed(id, text, chapter, bookId, timestamp);
    var fs := HighlightEntry(id, text, chapter, bookId, timestamp).fields;
    assert Lookup(fs, "chapter") == Lookup(fs[1..], "chapter");
    assert fs[1..][0].key == "text";
    assert Lookup(fs[1..], "chapter") == Lookup(fs[2..], "chapter");
  }

  /** The items after a successful save hold, under `key`, a blob that reads back as the appended document. */
  lemma SavedReadsBack(items: map<string, string>, key: string, bookId: string, entry: Json, quotaFull: bool)
    requires WellFormed(entry)
    requires AppendStored(GetItem(items, key), bookId, entry, quotaFull).Ok?
    ensures ReadDoc(GetItem(items, key)).Ok? && Append(ReadDoc(GetItem(items, key)).value, bookId, entry).Ok?
    ensures ReadDoc(GetItem(SaveRecord(items, key, bookId, entry, quotaFull), key))
         == Ok(Append(ReadDoc(GetItem(items, key)).value, bookId, entry).value)
  {
    var stored := GetItem(items, key);
    AppendStoredReadsBack(stored, bookId, entry, quotaFull);
    var blob := AppendStored(stored, bookId, entry, quotaFull).value;
    assert GetItem(SaveRecord(items, key, bookId, entry, quotaFull), key) == Some(blob);
  }

  /**
   * A highlight saved into an object blob is listed last for its chapter the
   * next time the chapter loads, after the ones listed before.
   */
  lemma SavedHighlightListed(items: map<string, string>, bookId: string, now: int, text: string, chapter: int, timestamp: string, quotaFull: bool)
    requires ReadDoc(GetItem(items, HighlightsKey)).Ok? && ReadDoc(GetItem(items, HighlightsKey)).value.JObj?
    requires StoredHighlights(GetItem(items, HighlightsKey), bookId, chapter).Ok?
    requires AppendStored(GetItem(items, HighlightsKey), bookId, NewHighlight(now, text, chapter, bookId, timestamp), quotaFull).Ok?
    ensures StoredHighlights(GetItem(SaveRecord(items, HighlightsKey, bookId, NewHighlight(now, text, chapter, bookId, timestamp), quotaFull), HighlightsKey), bookId, chapter)
         == Ok(StoredHighlights(GetItem(items, HighlightsKey), bookId, chapter).value + [NewHighlight(now, text, chapter, bookId, timestamp)])
  {
    var entry := NewHighlight(now, text, chapter, bookId, timestamp);
    NewHighlightFacts(now, text, chapter, bookId, timestamp);
    SavedReadsBack(items, HighlightsKey, bookId, entry, quotaFull);
    HighlightAppendListed(ReadDoc(GetItem(items, HighlightsKey)).value, bookId, entry, chapter);
  }

  /**
   * A note saved into an object blob whose list has no `null` record shows
   * last in the book's notes listing, after the notes listed before.
   */
  lemma SavedNoteListed(items: map<string, string>, bookId: string, note: Json, quotaFull: bool)
    requires note.JObj? && WellFormed(note)
    requires ReadDoc(GetItem(items, NotesKey)).Ok? && ReadDoc(GetItem(items, NotesKey)).value.JObj?
    requires JNull !in Entries(Lookup(ReadDoc(GetItem(items, NotesKey)).value.fields, bookId))
    requires AppendStored(GetItem(items, NotesKey), bookId, note, quotaFull).Ok?
    ensures ViewNotes(GetItem(SaveRecord(items, NotesKey, bookId, note, quotaFull), NotesKey), bookId)
         == Ok(Listed(Views(Entries(Lookup(ReadDoc(GetItem(items, NotesKey)).value.fields, bookId))) + [ViewOf(note)]))
  {
    SavedReadsBack(items, NotesKey, bookId, note, quotaFull);
    NoteAppendListed(ReadDoc(GetItem(items, NotesKey)).value, bookId, note);
  }

  /** `Highlighted: "<first 30 characters>..."`, the dots only when the text was cut. */
  function ToastPreview(text: string): string
  {
    "Highlighted: \"" + (if |text| > 30 then text[..30] + "..." else text) + "\""
  }

  /**
   * The toast quotes the first min(30, |text|) characters of the selection,
   * which are the whole selection exactly when it has at most 30; an
   * ellipsis follows the quoted characters exactly when some were cut, so
   * the message is never longer than 48 characters.
   */
  lemma ToastPreviewSpec(text: string)
    ensures var n := Min(30, |text|);
      var r := ToastPreview(text);
      && 15 + n <= |r| <= 48
      && r[..14] == "Highlighted: \""
      && r[14..14 + n] == text[..n]
      && (text[..n] == text <==> |text| <= 30)
      && (r[14 + n..] == "...\"" <==> |text| > 30)
      && (r[14 + n..] == "\"" <==> |text| <= 30)
  {
    var n := Min(30, |text|);
    var r := ToastPreview(text);
    if |text| > 30 {
      assert |text[..n]| < |text|;
    }
  }

  /** A second write to a key replaces the first. */
  lemma OverwriteKey<K, V>(m: map<K, V>, k: K, a: V, b: V)
    ensures m[k := a][k := b] == m[k := b]
  {
  }

  /** The stored theme is the shown one and the stored progress the current chapter. */
  predicate StoredState(items: map<string, string>, bookId: string, dark: bool, chapter: int) {
    && (StoredDark(GetItem(items, ThemeKey)) <==> dark)
    && GetItem(items, ProgressKey(bookId)) == Some(ProgressBlob(chapter))
  }

  /** Writing any other key keeps the stored theme and progress. */
  lemma OtherKeyKeepsState(items: map<string, string>, k: string, v: string, bookId: string, dark: bool, chapter: int)
    requires StoredState(items, bookId, dark, chapter)
    requires k != ThemeKey && k != ProgressKey(bookId)
    ensures StoredState(items[k := v], bookId, dark, chapter)
  {
    assert GetItem(items[k := v], ThemeKey) == GetItem(items, ThemeKey);
    assert GetItem(items[k := v], ProgressKey(bookId)) == GetItem(items, ProgressKey(bookId));
  }

  /** Writing the progress of chapter `c` makes it the stored chapter. */
  lemma ProgressWritten(items: map<string, string>, bookId: string, dark: bool, c: int)
    requires StoredDark(GetItem(items, ThemeKey)) <==> dark
    ensures StoredState(items[ProgressKey(bookId) := ProgressBlob(c)], bookId, dark, c)
  {
    KeysDistinct(bookId);
    assert GetItem(items[ProgressKey(bookId) := ProgressBlob(c)], ThemeKey) == GetItem(items, ThemeKey);
  }

  /** Writing the theme makes it the stored theme. */
  lemma ThemeWritten(items: map<string, string>, bookId: string, dark: bool, c: int)
    requires GetItem(items, ProgressKey(bookId)) == Some(ProgressBlob(c))
    ensures StoredState(items[ThemeKey := ThemeText(dark)], bookId, dark, c)
  {
    KeysDistinct(bookId);
    ThemeRoundTrip(dark);
    assert GetItem(items[ThemeKey := ThemeText(dark)], ProgressKey(bookId)) == GetItem(items, ProgressKey(bookId));
  }

  /** The notes form: open or not, and its text, private flag and color. */
  datatype NoteForm = NoteForm(open: bool, text: string, isPrivate: bool, color: string)

  /** The form after `closeNotesModal()`. */
  function ClosedForm(): NoteForm {
    NoteForm(false, [], false, DefaultNoteColor)
  }

  // ---------------------------------------------------------------------
  // The session
  // ---------------------------------------------------------------------

  class ReaderSession {
    const bookId: string
    const book: Book
    const store: Store
    const body: Element
    var currentChapter: int
    var fontSize: int
    /** The `--font-size` variable of the document element. */
    var fontVar: string
    var isDark: bool
    var searchQuery: string
    var form: NoteForm
    /** The paragraphs of the chapter container. */
    var content: seq<Paragraph>

    /**
     * The font size is valid and shown; the body's theme class, the stored
     * theme and the flag agree; the stored progress is the current chapter.
     */
    predicate Valid()
      reads this, store, body
    {
      && ValidFontSize(fontSize)
      && fontVar == FontVar(fontSize)
      && (DarkClass in body.classes <==> isDark)
      && StoredState(store.items, bookId, isDark, currentChapter)
    }

    /**
     * The first render of the page for a book of the catalog, with its
     * effects in order: the mount effect reads the saved progress and sets
     * the theme class and font variable, the progress effect writes chapter
     * 1, the chapter effect shows chapter 1; then an adopted saved chapter
     * other than 1 is written and shown in turn.
     */
    constructor (bookId: string, book: Book, store: Store, body: Element)
      modifies store, body
      ensures this.bookId == bookId && this.book == book && this.store == store && this.body == body
      ensures Valid()
      ensures fontSize == 16 && form == ClosedForm() && searchQuery == []
      ensures isDark == StoredDark(old(store.Get(ThemeKey)))
      ensures body.classes == if isDark then old(body.classes) + {DarkClass} else old(body.classes) - {DarkClass}
      ensures currentChapter == StartChapter(old(store.Get(ProgressKey(bookId))))
      ensures store.items == old(store.items)[ProgressKey(bookId) := ProgressBlob(currentChapter)]
      ensures var first := ChapterView([], book, 1, old(store.Get(HighlightsKey)), bookId);
        content == if currentChapter == 1 then first else ChapterView(first, book, currentChapter, old(store.Get(HighlightsKey)), bookId)
    {
      this.bookId := bookId;
      this.book := book;
      this.store := store;
      this.body := body;
      fontSize := 16;
      fontVar := FontVar(16);
      isDark := StoredDark(store.Get(ThemeKey));
      currentChapter := 1;
      searchQuery := [];
      form := ClosedForm();
      content := [];
      new;
      Mount();
    }

    /** The effects of the first render, in order, then the saved chapter adopted. */
    method Mount()
      requires currentChapter == 1 && fontSize == 16 && fontVar == FontVar(16) && form == ClosedForm()
      requires isDark == StoredDark(store.Get(ThemeKey)) && content == [] && searchQuery == []
      modifies this, store, body
      ensures Valid()
      ensures fontSize == 16 && form == ClosedForm() && isDark == old(isDark) && searchQuery == []
      ensures body.classes == if isDark then old(body.classes) + {DarkClass} else old(body.classes) - {DarkClass}
      ensures currentChapter == StartChapter(old(store.Get(ProgressKey(bookId))))
      ensures store.items == old(store.items)[ProgressKey(bookId) := ProgressBlob(currentChapter)]
      ensures var first := ChapterView([], book, 1, old(store.Get(HighlightsKey)), bookId);
        content == if currentChapter == 1 then first else ChapterView(first, book, currentChapter, old(store.Get(HighlightsKey)), bookId)
    {
      var stored := store.Get(ProgressKey(bookId));
      var saved := RestoredChapter(stored);
      ghost var highlights := store.Get(HighlightsKey);
      ghost var items := store.items;
      KeysDistinct(bookId);
      FirstEffects();
      assert GetItem(store.items, HighlightsKey) == highlights;
      AdoptSaved(saved);
      OverwriteKey(items, ProgressKey(bookId), ProgressBlob(1), ProgressBlob(currentChapter));
      assert currentChapter == StartChapter(stored);
    }

    /** `if (saved && saved.chapter) setCurrentChapter(saved.chapter)`, from chapter 1. */
    method AdoptSaved(saved: Option<int>)
      requires Valid() && currentChapter == 1
      modifies this, store
      ensures Valid()
      ensures currentChapter == if saved.Some? then saved.value else 1
      ensures currentChapter == 1 ==>
        store.items == old(store.items) && content == old(content) && searchQuery == old(searchQuery)
      ensures currentChapter != 1 ==>
        && store.items == old(store.items)[ProgressKey(bookId) := ProgressBlob(currentChapter)]
        && content == ChapterView(old(content), book, currentChapter, old(store.Get(HighlightsKey)), bookId)
        && searchQuery == if currentChapter in book.chapters then [] else old(searchQuery)
      ensures fontSize == old(fontSize) && isDark == old(isDark) && form == old(form)
    {
      if saved.Some? {
        ChangeChapter(saved.value);
      }
    }

    /**
     * The effects of the first render at chapter 1: the theme class, the
     * progress write and the chapter effect.
     */
    method FirstEffects()
      requires currentChapter == 1 && ValidFontSize(fontSize) && fontVar == FontVar(fontSize)
      requires isDark == StoredDark(store.Get(ThemeKey))
      modifies this, store, body
      ensures Valid()
      ensures currentChapter == 1 && fontSize == old(fontSize) && isDark == old(isDark) && form == old(form)
      ensures body.classes == if isDark then old(body.classes) + {DarkClass} else old(body.classes) - {DarkClass}
      ensures store.items == old(store.items)[ProgressKey(bookId) := ProgressBlob(1)]
      ensures content == ChapterView(old(content), book, 1, old(store.Get(HighlightsKey)), bookId)
      ensures searchQuery == if 1 in book.chapters then [] else old(searchQuery)
    {
      body.ToggleClass(DarkClass, isDark);
      KeysDistinct(bookId);
      ProgressWritten(store.items, bookId, isDark, 1);
      store.SetItem(ProgressKey(bookId), ProgressBlob(1));
      ShowChapter();
    }

    /** The chapter effect for the current chapter; a shown chapter also clears the search box. */
    method ShowChapter()
      modifies this
      ensures content == ChapterView(old(content), book, currentChapter, store.Get(HighlightsKey), bookId)
      ensures searchQuery == if currentChapter in book.chapters then [] else old(searchQuery)
      ensures currentChapter == old(currentChapter) && fontSize == old(fontSize) && fontVar == old(fontVar)
      ensures isDark == old(isDark) && form == old(form)
    {
      if currentChapter in book.chapters {
        var rendered := Render(book.chapters[currentChapter].content);
        content := ApplyHighlights(rendered, store.Get(HighlightsKey), bookId, currentChapter);
        searchQuery := [];
      }
    }

    /**
     * `setCurrentChapter(n)`: React re-runs the effects only when the value
     * changes; then the progress is written and the chapter shown.
     */
    method ChangeChapter(n: int)
      requires Valid()
      modifies this, store
      ensures Valid()
      ensures currentChapter == n
      ensures n == old(currentChapter) ==>
        content == old(content) && store.items == old(store.items) && searchQuery == old(searchQuery)
      ensures n != old(currentChapter) ==>
        && store.items == old(store.items)[ProgressKey(bookId) := ProgressBlob(n)]
        && content == ChapterView(old(content), book, n, old(store.Get(HighlightsKey)), bookId)
        && searchQuery == if n in book.chapters then [] else old(searchQuery)
      ensures fontSize == old(fontSize) && fontVar == old(fontVar) && isDark == old(isDark) && form == old(form)
    {
      if n != currentChapter {
        KeysDistinct(bookId);
        currentChapter := n;
        ProgressWritten(store.items, bookId, isDark, n);
        store.SetItem(ProgressKey(bookId), ProgressBlob(n));
        ShowChapter();
      }
    }

    method Prev()
      requires Valid()
      modifies this, store
      ensures Valid()
      ensures currentChapter == PrevChapter(old(currentChapter))
      ensures currentChapter == old(currentChapter) ==>
        content == old(content) && store.items == old(store.items) && searchQuery == old(searchQuery)
      ensures currentChapter != old(currentChapter) ==>
        && store.items == old(store.items)[ProgressKey(bookId) := ProgressBlob(currentChapter)]
        && content == ChapterView(old(content), book, currentChapter, old(store.Get(HighlightsKey)), bookId)
        && searchQuery == if currentChapter in book.chapters then [] else old(searchQuery)
      ensures fontSize == old(fontSize) && fontVar == old(fontVar) && isDark == old(isDark) && form == old(form)
    {
      ChangeChapter(PrevChapter(currentChapter));
    }

    method Next()
      requires Valid()
      modifies this, store
      ensures Valid()
      ensures currentChapter == NextChapter(old(currentChapter), book.totalChapters)
      ensures currentChapter == old(currentChapter) ==>
        content == old(content) && store.items == old(store.items) && searchQuery == old(searchQuery)
      ensures currentChapter != old(currentChapter) ==>
        && store.items == old(store.items)[ProgressKey(bookId) := ProgressBlob(currentChapter)]
        && content == ChapterView(old(content), book, currentChapter, old(store.Get(HighlightsKey)), bookId)
        && searchQuery == if currentChapter in book.chapters then [] else old(searchQuery)
      ensures fontSize == old(fontSize) && fontVar == old(fontVar) && isDark == old(isDark) && form == old(form)
    {
      ChangeChapter(NextChapter(currentChapter, book.totalChapters));
    }

    method GoTo(n: int)
      requires Valid()
      modifies this, store
      ensures Valid()
      ensures currentChapter == GoToChapter(n, book.totalChapters)
      ensures currentChapter == old(currentChapter) ==>
        content == old(content) && store.items == old(store.items) && searchQuery == old(searchQuery)
      ensures currentChapter != old(currentChapter) ==>
        && store.items == old(store.items)[ProgressKey(bookId) := ProgressBlob(currentChapter)]
        && content == ChapterView(old(content), book, currentChapter, old(store.Get(HighlightsKey)), bookId)
        && searchQuery == if currentChapter in book.chapters then [] else old(searchQuery)
      ensures fontSize == old(fontSize) && fontVar == old(fontVar) && isDark == old(isDark) && form == old(form)
    {
      ChangeChapter(GoToChapter(n, book.totalChapters));
    }

    /** `increaseFont()` and the font effect. */
    method IncreaseFont()
      requires Valid()
      modifies this
      ensures Valid()
      ensures fontSize == IncreasedFont(old(fontSize))
      ensures currentChapter == old(currentChapter) && content == old(content) && isDark == old(isDark) && form == old(form)
      ensures searchQuery == old(searchQuery) && store.items == old(store.items)
    {
      FontStepsStayValid(fontSize);
      fontSize := IncreasedFont(fontSize);
      fontVar := FontVar(fontSize);
    }

    /** `decreaseFont()` and the font effect. */
    method DecreaseFont()
      requires Valid()
      modifies this
      ensures Valid()
      ensures fontSize == DecreasedFont(old(fontSize))
      ensures currentChapter == old(currentChapter) && content == old(content) && isDark == old(isDark) && form == old(form)
      ensures searchQuery == old(searchQuery) && store.items == old(store.items)
    {
      FontStepsStayValid(fontSize);
      fontSize := DecreasedFont(fontSize);
      fontVar := FontVar(fontSize);
    }

    /** `toggleTheme()`: flip the flag, the body class and the stored theme together. */
    method ToggleTheme()
      requires Valid()
      modifies this, body, store
      ensures Valid()
      ensures isDark == !old(isDark)
      ensures store.items == old(store.items)[ThemeKey := ThemeText(isDark)]
      ensures body.classes == if isDark then old(body.classes) + {DarkClass} else old(body.classes) - {DarkClass}
      ensures currentChapter == old(currentChapter) && content == old(content) && fontSize == old(fontSize) && form == old(form)
      ensures fontVar == old(fontVar) && searchQuery == old(searchQuery)
    {
      KeysDistinct(bookId);
      var next := !isDark;
      isDark := next;
      body.ToggleClass(DarkClass, next);
      ThemeWritten(store.items, bookId, next, currentChapter);
      store.SetItem(ThemeKey, ThemeText(next));
    }

    /** `searchInBook(q)`. */
    method Search(q: string) returns (outcome: SearchOutcome)
      requires Valid()
      modifies this
      ensures Valid()
      ensures searchQuery == q
      ensures (content, outcome) == SearchResult(old(content), q)
      ensures currentChapter == old(currentChapter) && fontSize == old(fontSize) && isDark == old(isDark) && form == old(form)
    {
      var r, o := SearchContent(content, q);
      searchQuery, content, outcome := q, r, o;
    }

    /**
     * `highlightSelection()` for a selection with `rangeCount` ranges and text
     * `selection`, at clock `now`: a missing or blank selection does nothing;
     * a range the DOM cannot wrap shows the failure toast; otherwise the
     * record is appended to `bookHighlights`, a storage failure being
     * ignored, and the preview toast shows.
     */
    method HighlightSelection(selection: string, rangeCount: int, now: int, timestamp: string, rangeFails: bool, quotaFull: bool)
      returns (toast: Option<string>)
      requires Valid()
      modifies store
      ensures Valid()
      ensures rangeCount == 0 || IsBlank(selection) ==> store.items == old(store.items) && toast == None
      ensures rangeCount != 0 && !IsBlank(selection) && rangeFails ==>
        store.items == old(store.items) && toast == Some("Could not highlight this selection")
      ensures rangeCount != 0 && !IsBlank(selection) && !rangeFails ==>
        && store.items == SaveRecord(old(store.items), HighlightsKey, bookId, NewHighlight(now, selection, currentChapter, bookId, timestamp), quotaFull)
        && toast == Some(ToastPreview(selection))
    {
      if rangeCount == 0 {
        return None;
      }
      var blank := TrimsToEmpty(selection);
      if blank {
        return None;
      }
      if rangeFails {
        return Some("Could not highlight this selection");
      }
      KeysDistinct(bookId);
      var entry := NewHighlight(now, selection, currentChapter, bookId, timestamp);
      var written := AppendStored(store.Get(HighlightsKey), bookId, entry, quotaFull);
      if written.Ok? {
        OtherKeyKeepsState(store.items, HighlightsKey, written.value, bookId, isDark, currentChapter);
        store.SetItem(HighlightsKey, written.value);
      }
      toast := Some(ToastPreview(selection));
    }

    /** `openNotesModal()`. */
    method OpenNotes()
      modifies this
      ensures form == old(form).(open := true)
      ensures currentChapter == old(currentChapter) && content == old(content) && fontSize == old(fontSize)
      ensures fontVar == old(fontVar) && isDark == old(isDark) && searchQuery == old(searchQuery)
    {
      form := form.(open := true);
    }

    /** The form's inputs: the note text, the private checkbox and the color select. */
    method EditNote(text: string, isPrivate: bool, color: string)
      modifies this
      ensures form == NoteForm(old(form).open, text, isPrivate, color)
      ensures currentChapter == old(currentChapter) && content == old(content) && fontSize == old(fontSize)
      ensures fontVar == old(fontVar) && isDark == old(isDark) && searchQuery == old(searchQuery)
    {
      form := NoteForm(form.open, text, isPrivate, color);
    }

    /** `closeNotesModal()`: close and reset the form. */
    method CloseNotes()
      modifies this
      ensures form == ClosedForm()
      ensures currentChapter == old(currentChapter) && content == old(content) && fontSize == old(fontSize)
      ensures fontVar == old(fontVar) && isDark == old(isDark) && searchQuery == old(searchQuery)
    {
      form := ClosedForm();
    }

    /**
     * `saveNote()`: a blank note is refused; otherwise the trimmed note of the
     * current chapter is appended to `bookNotes` and the form is reset, unless
     * reading or writing the store fails, which keeps the form as it was.
     */
    method SaveNote(timestamp: string, quotaFull: bool) returns (saved: bool)
      requires Valid()
      modifies this, store
      ensures Valid()
      ensures IsBlank(old(form.text)) ==> !saved && store.items == old(store.items) && form == old(form)
      ensures !IsBlank(old(form.text)) ==>
        var note := NoteEntry(Trim(old(form.text)), currentChapter, old(form.isPrivate), old(form.color), timestamp, bookId);
        && (saved <==> AppendStored(old(store.Get(NotesKey)), bookId, note, quotaFull).Ok?)
        && store.items == SaveRecord(old(store.items), NotesKey, bookId, note, quotaFull)
        && form == if saved then ClosedForm() else old(form)
      ensures currentChapter == old(currentChapter) && content == old(content) && fontSize == old(fontSize) && isDark == old(isDark)
      ensures fontVar == old(fontVar) && searchQuery == old(searchQuery)
    {
      var txt := Trim(form.text);
      if txt == [] {
        return false;
      }
      KeysDistinct(bookId);
      var note := NoteEntry(txt, currentChapter, form.isPrivate, form.color, timestamp, bookId);
      match AppendStored(store.Get(NotesKey), bookId, note, quotaFull)
      case Ok(blob) =>
        OtherKeyKeepsState(store.items, NotesKey, blob, bookId, isDark, currentChapter);
        store.SetItem(NotesKey, blob);
        CloseNotes();
        saved := true;
      case Err(_) =>
        saved := false;
    }

    /** `viewNotes()`. */
    method ViewNotes() returns (r: Result<NotesOutcome, Fault>)
      ensures r == Annotations.ViewNotes(store.Get(NotesKey), bookId)
    {
      r := Annotations.ViewNotes(store.Get(NotesKey), bookId);
    }
  }
}
