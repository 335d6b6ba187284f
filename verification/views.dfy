/**
 * What the page derives from the VFS: the file list and tab bar of
 * `updateUI`, the preview button's visibility, and the `codeData`
 * snapshot `openPreview` hands to the preview window.
 */
module Views {
  import opened Wrappers
  import opened Strings
  import opened FileSystem
  import Language

  /** One list item (and tab): a file name and whether it carries the `active` class. */
  datatype Row = Row(name: string, isActive: bool)

  /** The rows `updateUI` builds, one per file in insertion order. */
  function FileList(v: Vfs): (rows: seq<Row>)
    ensures |rows| == |v.entries|
    ensures forall i :: 0 <= i < |rows| ==> rows[i].name == v.entries[i].name
    ensures forall i :: 0 <= i < |rows| ==> (rows[i].isActive <==> v.active == Some(v.entries[i].name))
  {
    seq(|v.entries|, i requires 0 <= i < |v.entries| => Row(v.entries[i].name, v.active == Some(v.entries[i].name)))
  }

  /** How many rows are marked active. */
  function CountActive(rows: seq<Row>): (count: nat) {
    if |rows| == 0 then 0
    else (if rows[0].isActive then 1 else 0) + CountActive(rows[1..])
  }

  /**
   * In a valid VFS the list marks exactly one row when a file is active, and
   * that row carries the active name; it marks none when no file is active.
   */
  lemma ExactlyOneActiveRow(v: Vfs)
    requires Valid(v)
    ensures CountActive(FileList(v)) == (if v.active.Some? then 1 else 0)
    ensures forall r :: r in FileList(v) && r.isActive ==> v.active == Some(r.name)
  {
    var rows := FileList(v);
    if v.active.Some? {
      var i :| 0 <= i < |v.entries| && v.entries[i].name == v.active.value;
      CountSingle(rows, i);
    } else {
      CountNone(rows);
    }
  }

  /** Only row `i` is active, so exactly one row counts. */
  lemma {:induction false} CountSingle(rows: seq<Row>, i: nat)
    requires i < |rows| && rows[i].isActive
    requires forall j :: 0 <= j < |rows| && j != i ==> !rows[j].isActive
    ensures CountActive(rows) == 1
  {
    if i == 0 {
      CountNone(rows[1..]);
    } else {
      CountSingle(rows[1..], i - 1);
    }
  }

  /** No active row, nothing counts. */
  lemma {:induction false} CountNone(rows: seq<Row>)
    requires forall j :: 0 <= j < |rows| ==> !rows[j].isActive
    ensures CountActive(rows) == 0
  {
    if |rows| > 0 {
      CountNone(rows[1..]);
    }
  }

  /**
   * The extension `updateUI` computes for the preview button: none without
   * an active file (an empty name counts as none), else the last dot-segment.
   */
  function ActiveExtension(v: Vfs): (ext: string)
    ensures '.' !in ext
  {
    match v.active
    case None => ""
    case Some(n) => if n == "" then "" else LastSegment(n)
  }

  /**
   * The preview button is shown exactly when the active file's name ends in
   * `.html` or is `html` itself, i.e. exactly when its language is HTML.
   */
  function PreviewButtonVisible(v: Vfs): (shown: bool)
    ensures shown <==> v.active.Some? && Language.GetLanguage(v.active.value) == Language.Html
  {
    ActiveExtension(v) == "html"
  }

  /** The visibility rule in terms of the name's spelling. */
  lemma PreviewButtonBySuffix(v: Vfs)
    ensures PreviewButtonVisible(v) <==>
      v.active.Some? &&
      (v.active.value == "html" ||
       (|v.active.value| > 4 && v.active.value[|v.active.value| - 5] == '.' &&
        v.active.value[|v.active.value| - 4..] == "html"))
  {
    if v.active.Some? {
      LastSegmentIs(v.active.value, "html");
    }
  }

  /** The data `openPreview` gathers from the VFS. */
  datatype CodeData = CodeData(html: string, css: string, js: string, fileNames: seq<string>)

  /** The page shown when `index.html` is missing or empty. */
  const HtmlNotFound: string := "<h1>index.html not found</h1>"

  /** JavaScript's `text || fallback` on a lookup: an empty or missing text gives the fallback. */
  function OrElse(text: Option<string>, fallback: string): (r: string)
    ensures text.Some? && text.value != "" ==> r == text.value
    ensures text.None? || text == Some("") ==> r == fallback
  {
    if text.Some? && text.value != "" then text.value else fallback
  }

  /**
   * `codeData`: the texts of `index.html`, `style.css` and `script.js`
   * (each looked up by exact name, with its fallback) and every file name in
   * insertion order. The HTML part is never empty.
   */
  function PreviewSnapshot(v: Vfs): (c: CodeData)
    ensures c.html != ""
    ensures c.html == HtmlNotFound || Find(v.entries, IndexName) == Some(c.html)
    ensures c.css == "" || Find(v.entries, StyleName) == Some(c.css)
    ensures c.js == "" || Find(v.entries, ScriptName) == Some(c.js)
    ensures c.fileNames == Names(v.entries)
  {
    CodeData(
      OrElse(Find(v.entries, IndexName), HtmlNotFound),
      OrElse(Find(v.entries, StyleName), ""),
      OrElse(Find(v.entries, ScriptName), ""),
      Names(v.entries))
  }

  /** An `index.html` that exists but is empty is previewed as the not-found page. */
  lemma EmptyIndexShowsNotFound(v: Vfs)
    requires Find(v.entries, IndexName) == Some("")
    ensures PreviewSnapshot(v).html == HtmlNotFound
  {
  }

  /** A valid VFS's snapshot carries each non-empty default file's own text. */
  lemma SnapshotCarriesEntries(v: Vfs, e: Entry)
    requires Valid(v) && e in v.entries && e.content != ""
    ensures e.name == IndexName ==> PreviewSnapshot(v).html == e.content
    ensures e.name == StyleName ==> PreviewSnapshot(v).css == e.content
    ensures e.name == ScriptName ==> PreviewSnapshot(v).js == e.content
    ensures e.name in PreviewSnapshot(v).fileNames
  {
    FindEntry(v.entries, e);
    var i :| 0 <= i < |v.entries| && v.entries[i] == e;
    assert Names(v.entries)[i] == e.name;
  }
}
