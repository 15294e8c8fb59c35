/**
 * The two annotation stores of the reader: `bookHighlights` and `bookNotes`,
 * each one JSON object in browser storage mapping a book id to the list of
 * its records. Records are only ever appended; the reader lists the notes of
 * a book and re-applies the highlights of the chapter on screen.
 *
 * Storage strings are parsed with `JSON.parse`, so a blob may hold any JSON
 * value; the functions here follow what the reader's code does with each
 * shape, including the ones that make it throw.
 */
module Annotations {
  import opened Wrappers
  import opened Text
  import opened Json
  import opened Seqs
  import opened Paragraphs
  import Escape

  /** Why a read or an append stopped: `JSON.parse` threw, a property access threw, or the write was refused. */
  datatype Fault = ParseFailed | TypeFailed | QuotaExceeded

  const HighlightsKey: string := "bookHighlights"
  const NotesKey: string := "bookNotes"

  /** `JSON.parse(localStorage.getItem(key) || "{}")`. */
  function ReadDoc(stored: Option<string>): (r: Result<Json, Fault>)
    ensures r.Ok? ==> WellFormed(r.value)
  {
    var text := if stored.None? || stored.value == [] then "{}" else stored.value;
    match Parse(text)
    case Err(_) => Err(ParseFailed)
    case Ok(v) => Ok(v)
  }

  /** `all[bookId]`; reading a property of `null` throws, other primitives and arrays have none. */
  function Slot(doc: Json, bookId: string): Result<Option<Json>, Fault> {
    match doc
    case JNull => Err(TypeFailed)
    case JObj(fields) => Ok(Lookup(fields, bookId))
    case _ => Ok(None)
  }

  /** `!all[bookId]`. */
  predicate Falsy(slot: Option<Json>) {
    slot.None? || !Truthy(slot.value)
  }

  /** The records a slot holds: its items when it is an array, none otherwise. */
  function Entries(slot: Option<Json>): seq<Json> {
    if slot.Some? && slot.value.JArr? then slot.value.items else []
  }

  // ---------------------------------------------------------------------
  // Appending a record
  // ---------------------------------------------------------------------

  /**
   * `if (!all[bookId]) all[bookId] = []; all[bookId].push(entry);` on the
   * parsed blob. Assigning a property of a primitive throws in strict code;
   * on an array it is allowed but `JSON.stringify` drops it, so the blob
   * comes back unchanged; a truthy slot that is not an array has no `push`.
   */
  function Append(doc: Json, bookId: string, entry: Json): Result<Json, Fault> {
    match doc
    case JObj(fields) =>
      var slot := Lookup(fields, bookId);
      if Falsy(slot) then Ok(JObj(Put(fields, bookId, JArr([entry]))))
      else if slot.value.JArr? then Ok(JObj(Put(fields, bookId, JArr(slot.value.items + [entry]))))
      else Err(TypeFailed)
    case JArr(_) => Ok(doc)
    case _ => Err(TypeFailed)
  }

  /**
   * On an object blob, the append succeeds exactly when the book's slot is
   * falsy or an array; the book's list is then its old records plus the new
   * one, last, and every other book reads as before.
   */
  lemma {:induction false} AppendSpec(doc: Json, bookId: string, entry: Json)
    requires doc.JObj?
    ensures var slot := Lookup(doc.fields, bookId);
      Append(doc, bookId, entry).Ok? <==> Falsy(slot) || slot.value.JArr?
    ensures Append(doc, bookId, entry).Ok? ==>
      var d := Append(doc, bookId, entry).value;
      && d.JObj?
      && Lookup(d.fields, bookId) == Some(JArr(Entries(Lookup(doc.fields, bookId)) + [entry]))
      && forall k :: k != bookId ==> Lookup(d.fields, k) == Lookup(doc.fields, k)
  {
    var slot := Lookup(doc.fields, bookId);
    if Falsy(slot) {
      assert Entries(slot) + [entry] == [entry];
      PutLookup(doc.fields, bookId, JArr([entry]));
    } else if slot.value.JArr? {
      PutLookup(doc.fields, bookId, JArr(slot.value.items + [entry]));
    }
  }

  /** An append to a well-formed blob gives a well-formed blob. */
  lemma {:induction false} AppendWellFormed(doc: Json, bookId: string, entry: Json)
    requires WellFormed(doc) && WellFormed(entry) && Append(doc, bookId, entry).Ok?
    ensures WellFormed(Append(doc, bookId, entry).value)
  {
    if doc.JObj? {
      var slot := Lookup(doc.fields, bookId);
      if Falsy(slot) {
        PutWellFormed(doc.fields, bookId, JArr([entry]));
      } else {
        var i :| 0 <= i < |doc.fields| && doc.fields[i] == Field(bookId, slot.value);
        assert doc.fields[i] in doc.fields;
        var items := slot.value.items + [entry];
        assert forall x | x in items :: x in slot.value.items || x == entry;
        PutWellFormed(doc.fields, bookId, JArr(items));
      }
    }
  }

  /**
   * The read-append-write of a store: the blob to write back, or why nothing
   * was written. `quotaFull` stands for `setItem` throwing.
   */
  function AppendStored(stored: Option<string>, bookId: string, entry: Json, quotaFull: bool): Result<string, Fault> {
    match ReadDoc(stored)
    case Err(e) => Err(e)
    case Ok(doc) =>
      match Append(doc, bookId, entry)
      case Err(e) => Err(e)
      case Ok(d) => if quotaFull then Err(QuotaExceeded) else Ok(Stringify(d))
  }

  /** A blob written by an append reads back as the appended value. */
  lemma {:induction false} AppendStoredReadsBack(stored: Option<string>, bookId: string, entry: Json, quotaFull: bool)
    requires WellFormed(entry)
    requires AppendStored(stored, bookId, entry, quotaFull).Ok?
    ensures ReadDoc(stored).Ok? && Append(ReadDoc(stored).value, bookId, entry).Ok?
    ensures ReadDoc(Some(AppendStored(stored, bookId, entry, quotaFull).value))
         == Ok(Append(ReadDoc(stored).value, bookId, entry).value)
  {
    var doc := ReadDoc(stored).value;
    var d := Append(doc, bookId, entry).value;
    AppendWellFormed(doc, bookId, entry);
    ParseStringify(d);
  }

  // ---------------------------------------------------------------------
  // Records
  // ---------------------------------------------------------------------

  /** The saved highlight metadata, without its on-screen position. */
  function HighlightEntry(id: string, text: string, chapter: int, bookId: string, timestamp: string): Json {
    JObj([
      Field("id", JStr(id)),
      Field("text", JStr(text)),
      Field("chapter", JNum(chapter)),
      Field("book", JStr(bookId)),
      Field("timestamp", JStr(timestamp))])
  }

  /** The saved note. */
  function NoteEntry(text: string, chapter: int, isPrivate: bool, color: string, timestamp: string, bookId: string): Json {
    JObj([
      Field("text", JStr(text)),
      Field("chapter", JNum(chapter)),
      Field("private", JBool(isPrivate)),
      Field("color", JStr(color)),
      Field("timestamp", JStr(timestamp)),
      Field("book", JStr(bookId))])
  }

  /** A highlight record is a plain object with distinct keys. */
  lemma HighlightEntryWellFormed(id: string, text: string, chapter: int, bookId: string, timestamp: string)
    ensures WellFormed(HighlightEntry(id, text, chapter, bookId, timestamp))
  {
    var fs := HighlightEntry(id, text, chapter, bookId, timestamp).fields;
    assert forall k :: 0 <= k < |fs| ==> fs[k].key == ["id", "text", "chapter", "book", "timestamp"][k];
  }

  /** A note record is a plain object with distinct keys. */
  lemma NoteEntryWellFormed(text: string, chapter: int, isPrivate: bool, color: string, timestamp: string, bookId: string)
    ensures WellFormed(NoteEntry(text, chapter, isPrivate, color, timestamp, bookId))
  {
    var fs := NoteEntry(text, chapter, isPrivate, color, timestamp, bookId).fields;
    assert forall k :: 0 <= k < |fs| ==> fs[k].key == ["text", "chapter", "private", "color", "timestamp", "book"][k];
  }

  // ---------------------------------------------------------------------
  // Listing the highlights of a chapter
  // ---------------------------------------------------------------------

  /** `h.chapter === chapter`. */
  predicate InChapter(h: Json, chapter: int) {
    h.JObj? && Lookup(h.fields, "chapter") == Some(JNum(chapter))
  }

  function ChapterTest(chapter: int): Json -> bool {
    h => InChapter(h, chapter)
  }

  /**
   * `(all[bookId] || []).filter(h => h.chapter === chapter)`: only an array
   * has `filter`, and the test throws on a `null` record.
   */
  function ChapterHighlights(doc: Json, bookId: string, chapter: int): Result<seq<Json>, Fault> {
    match Slot(doc, bookId)
    case Err(e) => Err(e)
    case Ok(slot) =>
      if Falsy(slot) then Ok([])
      else if !slot.value.JArr? then Err(TypeFailed)
      else if JNull in slot.value.items then Err(TypeFailed)
      else Ok(Filter(slot.value.items, ChapterTest(chapter)))
  }

  /**
   * The chapter's highlights are exactly the book's records of that chapter,
   * in storage order.
   */
  lemma ChapterHighlightsSpec(doc: Json, bookId: string, chapter: int, h: Json)
    requires ChapterHighlights(doc, bookId, chapter).Ok? && doc.JObj?
    ensures var hs := ChapterHighlights(doc, bookId, chapter).value;
      var all := Entries(Lookup(doc.fields, bookId));
      && (h in hs <==> h in all && InChapter(h, chapter))
      && Subsequence(hs, all)
  {
    var all := Entries(Lookup(doc.fields, bookId));
    FilterMembers(all, ChapterTest(chapter), h);
    FilterSubsequence(all, ChapterTest(chapter));
  }

  /**
   * After a highlight is appended, each chapter lists what it listed before,
   * followed by the new highlight when it belongs to that chapter.
   */
  lemma {:induction false} HighlightAppendListed(doc: Json, bookId: string, entry: Json, chapter: int)
    requires doc.JObj? && entry != JNull
    requires ChapterHighlights(doc, bookId, chapter).Ok? && Append(doc, bookId, entry).Ok?
    ensures ChapterHighlights(Append(doc, bookId, entry).value, bookId, chapter)
         == Ok(ChapterHighlights(doc, bookId, chapter).value + (if InChapter(entry, chapter) then [entry] else []))
  {
    AppendSpec(doc, bookId, entry);
    var before := Entries(Lookup(doc.fields, bookId));
    ListedBefore(doc, bookId, chapter);
    NoNullAppended(before, entry);
    ListedArray(Append(doc, bookId, entry).value, bookId, chapter, before + [entry]);
    FilterAppend(before, entry, ChapterTest(chapter));
  }

  /** A listing that succeeded filtered the book's records, none of them `null`. */
  lemma ListedBefore(doc: Json, bookId: string, chapter: int)
    requires doc.JObj? && ChapterHighlights(doc, bookId, chapter).Ok?
    ensures var all := Entries(Lookup(doc.fields, bookId));
      ChapterHighlights(doc, bookId, chapter) == Ok(Filter(all, ChapterTest(chapter))) && JNull !in all
  {
  }

  lemma ListedArray(doc: Json, bookId: string, chapter: int, items: seq<Json>)
    requires doc.JObj? && Lookup(doc.fields, bookId) == Some(JArr(items)) && JNull !in items
    ensures ChapterHighlights(doc, bookId, chapter) == Ok(Filter(items, ChapterTest(chapter)))
  {
  }

  lemma NoNullAppended(items: seq<Json>, x: Json)
    requires JNull !in items && x != JNull
    ensures JNull !in items + [x]
  {
  }

  // ---------------------------------------------------------------------
  // Re-applying highlights
  // ---------------------------------------------------------------------

  /** `h.text`, when it is a string: anything else has no `replace`, which throws. */
  function HighlightText(h: Json): Option<string> {
    if h.JObj? then
      match Lookup(h.fields, "text")
      case Some(JStr(s)) => Some(s)
      case _ => None
    else None
  }

  /** `${h.id}` in the span's markup. */
  function HighlightId(h: Json): string {
    JsString(if h.JObj? then Lookup(h.fields, "id") else None)
  }

  /** One `highlightTextInContainer(text, id)` over every paragraph. */
  function RestoreText(content: seq<Paragraph>, text: string, id: string): (r: seq<Paragraph>)
    ensures |r| == |content|
  {
    if Restorable(text) then seq(|content|, i requires 0 <= i < |content| => RestoreParagraph(content[i], text, id))
    else content
  }

  /**
   * `arr.forEach(h => highlightTextInContainer(h.text, h.id))` inside a
   * `try`: the records are applied in order, and the first one whose text is
   * not a string ends the loop.
   */
  function RestoreEntries(content: seq<Paragraph>, hs: seq<Json>): seq<Paragraph>
    decreases |hs|
  {
    if hs == [] then content
    else match HighlightText(hs[0])
      case None => content
      case Some(t) => RestoreEntries(RestoreText(content, t, HighlightId(hs[0])), hs[1..])
  }

  /** Same paragraphs and each paragraph's text. */
  predicate SameText(a: seq<Paragraph>, b: seq<Paragraph>) {
    |a| == |b| && forall i :: 0 <= i < |a| ==> TextOf(a[i]) == TextOf(b[i])
  }

  predicate Unmarked(content: seq<Paragraph>) {
    forall i :: 0 <= i < |content| ==> NoMarks(content[i])
  }

  lemma RestoreTextSpec(content: seq<Paragraph>, text: string, id: string)
    ensures SameText(RestoreText(content, text, id), content)
    ensures Unmarked(content) ==> Unmarked(RestoreText(content, text, id))
  {
    if Restorable(text) {
      forall i | 0 <= i < |content|
        ensures TextOf(RestoreParagraph(content[i], text, id)) == TextOf(content[i])
        ensures NoMarks(content[i]) ==> NoMarks(RestoreParagraph(content[i], text, id))
      {
        RestoreParagraphSpec(content[i], text, id);
      }
    }
  }

  /** Re-applying highlights never changes what the paragraphs say, and adds no search marks. */
  lemma {:induction false} RestoreEntriesSpec(content: seq<Paragraph>, hs: seq<Json>)
    ensures SameText(RestoreEntries(content, hs), content)
    ensures Unmarked(content) ==> Unmarked(RestoreEntries(content, hs))
    decreases |hs|
  {
    if hs != [] {
      match HighlightText(hs[0])
      case None =>
      case Some(t) =>
        var next := RestoreText(content, t, HighlightId(hs[0]));
        RestoreTextSpec(content, t, HighlightId(hs[0]));
        RestoreEntriesSpec(next, hs[1..]);
    }
  }

  // ---------------------------------------------------------------------
  // Listing notes
  // ---------------------------------------------------------------------

  /** One rendered note: its border color, its chapter label and its escaped text. */
  datatype NoteView = NoteView(color: string, chapter: string, text: string)

  datatype NotesOutcome = NoNotes | Listed(views: seq<NoteView>)

  /** `n[k]` for a record `n` that is not `null`. */
  function Prop(n: Json, k: string): Option<Json> {
    if n.JObj? then Lookup(n.fields, k) else None
  }

  /** What the listing shows for a note: `noteColorMap(n.color)`, `n.chapter` and `escapeHTML(n.text)`. */
  function ViewOf(n: Json): NoteView {
    NoteView(
      NoteColor(JsString(Prop(n, "color"))),
      JsString(Prop(n, "chapter")),
      Escape.EscapeHTML(JsString(Prop(n, "text"))))
  }

  /** `arr.map(...)`: one rendered entry per note, in storage order. */
  function Views(items: seq<Json>): (r: seq<NoteView>)
    ensures |r| == |items|
  {
    Map(items, ViewOf)
  }

  /**
   * `viewNotes` on a parsed blob: `arr = all[bookId] || []`; a `length` of
   * exactly 0 shows the empty message, otherwise `arr.map` renders each note
   * in order. Only an array has `map`, and reading a field of a `null` note
   * throws; nothing catches either.
   */
  function ViewDoc(doc: Json, bookId: string): Result<NotesOutcome, Fault> {
    match Slot(doc, bookId)
    case Err(e) => Err(e)
    case Ok(slot) =>
      if Falsy(slot) then Ok(NoNotes)
      else
        match slot.value
        case JArr(items) =>
          if items == [] then Ok(NoNotes)
          else if JNull in items then Err(TypeFailed)
          else Ok(Listed(Views(items)))
        case JObj(fields) => if Lookup(fields, "length") == Some(JNum(0)) then Ok(NoNotes) else Err(TypeFailed)
        case _ => Err(TypeFailed)
  }

  /** `viewNotes()`: a blob that does not parse throws as well. */
  function ViewNotes(stored: Option<string>, bookId: string): Result<NotesOutcome, Fault> {
    match ReadDoc(stored)
    case Err(e) => Err(e)
    case Ok(doc) => ViewDoc(doc, bookId)
  }

  /**
   * After a note is appended, the book's listing shows its earlier notes in
   * the order they were saved and then the new one.
   */
  lemma {:induction false} NoteAppendListed(doc: Json, bookId: string, note: Json)
    requires doc.JObj? && note != JNull
    requires JNull !in Entries(Lookup(doc.fields, bookId))
    requires Append(doc, bookId, note).Ok?
    ensures ViewDoc(Append(doc, bookId, note).value, bookId)
         == Ok(Listed(Views(Entries(Lookup(doc.fields, bookId))) + [ViewOf(note)]))
  {
    AppendSpec(doc, bookId, note);
    var items := Entries(Lookup(doc.fields, bookId));
    NoNullAppended(items, note);
    ViewsAppend(items, note);
  }

  lemma ViewsAppend(items: seq<Json>, n: Json)
    ensures Views(items + [n]) == Views(items) + [ViewOf(n)]
  {
    MapAppend(items, n, ViewOf);
  }

  /** `noteColorMap(c)`: the named palette color, yellow for any other name. */
  function NoteColor(c: string): (r: string)
    ensures r == "#ffeb3b" <==> c != "blue" && c != "green" && c != "pink"
    ensures r in ["#ffeb3b", "#2196f3", "#4caf50", "#e91e63"]
  {
    if c == "blue" then "#2196f3"
    else if c == "green" then "#4caf50"
    else if c == "pink" then "#e91e63"
    else "#ffeb3b"
  }

  // ---------------------------------------------------------------------
  // JavaScript string conversion
  // ---------------------------------------------------------------------

  /** `String(v)`, as a template literal converts a value; `None` is `undefined`. */
  function JsString(v: Option<Json>): string {
    if v.None? then "undefined" else ValueString(v.value)
  }

  function ValueString(j: Json): string
    decreases j, 1
  {
    match j
    case JNull => "null"
    case JBool(b) => if b then "true" else "false"
    case JNum(n) => IntToString(n)
    case JStr(s) => s
    case JArr(items) => Join(items)
    case JObj(_) => "[object Object]"
  }

  /** `items.join(",")`, where `null` items print as nothing. */
  function Join(items: seq<Json>): string
    decreases items, 0
  {
    if items == [] then []
    else
      (if items[0].JNull? then [] else ValueString(items[0]))
      + (if |items| == 1 then [] else "," + Join(items[1..]))
  }
}
