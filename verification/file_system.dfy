/**
 * The in-memory virtual file system of main.js: the insertion-ordered Map
 * `virtualFileSystem` from file name to editor buffer, and `activeFile`.
 * A buffer is modelled by its text; the editor model object, its language
 * mode and its change callback are not part of this model.
 */
module FileSystem {
  import opened Wrappers

  /** One file: its name (the Map key) and its current text. */
  datatype Entry = Entry(name: string, content: string)

  /** The Map's entries in insertion order, and the active file name (`null` is None). */
  datatype Vfs = Vfs(entries: seq<Entry>, active: Option<string>)

  /** The state at page load, before any file is created. */
  const Empty: Vfs := Vfs([], None)

  /** The file names main.js itself refers to: the three defaults, which the preview also looks up. */
  const IndexName: string := "index.html"
  const StyleName: string := "style.css"
  const ScriptName: string := "script.js"

  /** The three default names differ from one another. */
  lemma DefaultNamesDistinct()
    ensures IndexName != StyleName && IndexName != ScriptName && StyleName != ScriptName
  {
    assert IndexName[0] != StyleName[0] && IndexName[0] != ScriptName[0];
    assert StyleName[1] != ScriptName[1];
  }

  /** `virtualFileSystem.has(name)`. */
  predicate HasName(es: seq<Entry>, name: string) {
    exists i :: 0 <= i < |es| && es[i].name == name
  }

  /** A name is present after appending exactly when it was before or is the new entry's. */
  lemma HasNameAppend(es: seq<Entry>, e: Entry, name: string)
    ensures HasName(es + [e], name) <==> HasName(es, name) || e.name == name
  {
    if HasName(es, name) {
      var i :| 0 <= i < |es| && es[i].name == name;
      assert (es + [e])[i] == es[i];
    }
    if e.name == name {
      assert (es + [e])[|es|] == e;
    }
  }

  /** A name is present in a non-empty sequence exactly when it is the head's or is in the tail. */
  lemma HasNameCons(es: seq<Entry>, name: string)
    requires |es| > 0
    ensures HasName(es, name) <==> es[0].name == name || HasName(es[1..], name)
  {
    if HasName(es[1..], name) {
      var i :| 0 <= i < |es[1..]| && es[1..][i].name == name;
      assert es[i + 1].name == name;
    }
    if HasName(es, name) && es[0].name != name {
      var i :| 0 <= i < |es| && es[i].name == name;
      assert es[1..][i - 1].name == name;
    }
  }

  /** Entries that only grew at the end keep every name they had. */
  lemma HasNameKept(es: seq<Entry>, es': seq<Entry>, name: string)
    requires |es| <= |es'| && es'[..|es|] == es
    ensures HasName(es, name) ==> HasName(es', name)
  {
    if HasName(es, name) {
      var i :| 0 <= i < |es| && es[i].name == name;
      assert es'[i] == es[i];
    }
  }

  /** Entries whose names agree position by position on a prefix keep every name of that prefix. */
  lemma HasNameKeptByPosition(es: seq<Entry>, es': seq<Entry>, name: string)
    requires |es| <= |es'|
    requires forall i :: 0 <= i < |es| ==> es'[i].name == es[i].name
    ensures HasName(es, name) ==> HasName(es', name)
  {
    if HasName(es, name) {
      var i :| 0 <= i < |es| && es[i].name == name;
      assert es'[i].name == name;
    }
  }

  /** Being a prefix is transitive. */
  lemma PrefixTrans(a: seq<Entry>, b: seq<Entry>, c: seq<Entry>)
    requires |a| <= |b| && b[..|a|] == a
    requires |b| <= |c| && c[..|b|] == b
    ensures |a| <= |c| && c[..|a|] == a
  {
    assert c[..|a|] == c[..|b|][..|a|];
  }

  /** `Array.from(virtualFileSystem.keys())`: the names in insertion order. */
  function Names(es: seq<Entry>): (names: seq<string>)
    ensures |names| == |es|
    ensures forall i :: 0 <= i < |es| ==> names[i] == es[i].name
  {
    seq(|es|, i requires 0 <= i < |es| => es[i].name)
  }

  /** No two entries share a name: a Map holds each key once. */
  predicate DistinctNames(es: seq<Entry>) {
    forall i, j :: 0 <= i < j < |es| ==> es[i].name != es[j].name
  }

  /** The state invariant: distinct names, and an active file that is one of them. */
  predicate Valid(v: Vfs) {
    && DistinctNames(v.entries)
    && (v.active.Some? ==> HasName(v.entries, v.active.value))
  }

  /**
   * `virtualFileSystem.get(name)?.getValue()`: the text stored under `name`,
   * or None when no entry has that name.
   */
  function Find(es: seq<Entry>, name: string): (r: Option<string>)
    ensures r.None? <==> !HasName(es, name)
    ensures r.Some? ==> Entry(name, r.value) in es
  {
    if |es| == 0 then None
    else if es[0].name == name then Some(es[0].content)
    else
      var r := Find(es[1..], name);
      assert forall i :: 1 <= i < |es| ==> es[i] == es[1..][i - 1];
      r
  }

  /** With distinct names, an entry's own text is what a lookup of its name finds. */
  lemma FindEntry(es: seq<Entry>, e: Entry)
    requires DistinctNames(es)
    requires e in es
    ensures Find(es, e.name) == Some(e.content)
  {
    var r := Find(es, e.name);
    var i :| 0 <= i < |es| && es[i] == e;
    var j :| 0 <= j < |es| && es[j] == Entry(e.name, r.value);
    assert i == j;
  }

  /** Appending an entry leaves every earlier lookup alone and adds the new name. */
  lemma {:induction false} FindAppend(es: seq<Entry>, e: Entry, name: string)
    ensures Find(es + [e], name) ==
      if HasName(es, name) then Find(es, name)
      else if e.name == name then Some(e.content)
      else None
  {
    if |es| > 0 {
      assert (es + [e])[1..] == es[1..] + [e];
      FindAppend(es[1..], e, name);
      assert HasName(es, name) <==> es[0].name == name || HasName(es[1..], name) by {
        assert forall i :: 1 <= i < |es| ==> es[i] == es[1..][i - 1];
      }
    }
  }

  /**
   * `setActiveFile(name)`: ignored when no file has that name or it is already
   * active; otherwise it becomes the active file. The entries never change.
   */
  function SetActiveFile(v: Vfs, name: string): (r: Vfs)
    ensures r.entries == v.entries
    ensures !HasName(v.entries, name) ==> r == v
    ensures HasName(v.entries, name) ==> r.active == Some(name)
    ensures Valid(v) ==> Valid(r)
  {
    if !HasName(v.entries, name) || v.active == Some(name) then v
    else Vfs(v.entries, Some(name))
  }

  /**
   * `createFile(name, content, activate)`. A name already present changes
   * nothing (the source only warns). Otherwise the file is added after every
   * existing one, and it becomes active exactly when `activate` is set.
   */
  function CreateFile(v: Vfs, name: string, content: string, activate: bool): (r: Vfs)
    ensures HasName(r.entries, name)
    ensures HasName(v.entries, name) ==> r == v
    ensures !HasName(v.entries, name) ==> r.entries == v.entries + [Entry(name, content)]
    ensures |v.entries| <= |r.entries| && r.entries[..|v.entries|] == v.entries
    ensures !HasName(v.entries, name) && activate ==> r.active == Some(name)
    ensures !HasName(v.entries, name) && !activate ==> r.active == v.active
    ensures Valid(v) ==> Valid(r)
  {
    if HasName(v.entries, name) then v
    else
      var added := Vfs(v.entries + [Entry(name, content)], v.active);
      HasNameAppend(v.entries, Entry(name, content), name);
      assert Valid(v) ==> Valid(added) by {
        if v.active.Some? {
          HasNameAppend(v.entries, Entry(name, content), v.active.value);
        }
      }
      if activate then SetActiveFile(added, name) else added
  }

  /**
   * Creating a fresh name makes it map to the given text and leaves the text
   * under every other name as it was; a duplicate name leaves every lookup alone.
   */
  lemma CreateFileLookup(v: Vfs, name: string, content: string, activate: bool, other: string)
    ensures var r := CreateFile(v, name, content, activate);
      && Find(r.entries, name) == (if HasName(v.entries, name) then Find(v.entries, name) else Some(content))
      && (other != name ==> Find(r.entries, other) == Find(v.entries, other))
  {
    FindAppend(v.entries, Entry(name, content), name);
    FindAppend(v.entries, Entry(name, content), other);
  }

  /** After a create, a name is present exactly when it was before or is the created one. */
  lemma CreateFileHasName(v: Vfs, name: string, content: string, activate: bool, other: string)
    ensures HasName(CreateFile(v, name, content, activate).entries, other) <==>
      HasName(v.entries, other) || other == name
  {
    HasNameAppend(v.entries, Entry(name, content), other);
  }

  /**
   * The entries with the buffer named `name` holding `text` instead; every
   * name stays where it was.
   */
  function Replace(es: seq<Entry>, name: string, text: string): (r: seq<Entry>)
    ensures |r| == |es|
    ensures forall i :: 0 <= i < |es| ==> r[i].name == es[i].name
    decreases |es|
  {
    if |es| == 0 then []
    else [if es[0].name == name then Entry(name, text) else es[0]] + Replace(es[1..], name, text)
  }

  /**
   * Typing in the editor: the editor shows the active file's buffer, so its
   * text is replaced. Without an active file no buffer of the VFS is shown
   * and nothing changes. Names, their order and the active file are kept.
   */
  function EditActive(v: Vfs, text: string): (r: Vfs)
    ensures r.active == v.active
    ensures |r.entries| == |v.entries|
    ensures forall i :: 0 <= i < |v.entries| ==> r.entries[i].name == v.entries[i].name
    ensures v.active.None? ==> r == v
    ensures Valid(v) ==> Valid(r)
  {
    match v.active
    case None => v
    case Some(a) =>
      var r := Vfs(Replace(v.entries, a, text), v.active);
      HasNameKeptByPosition(v.entries, r.entries, a);
      r
  }

  /** Replacing a buffer's text changes the lookup of that name only, and only if it is present. */
  lemma {:induction false} FindReplace(es: seq<Entry>, name: string, text: string, other: string)
    ensures Find(Replace(es, name, text), other) ==
      if other == name && HasName(es, name) then Some(text) else Find(es, other)
    decreases |es|
  {
    if |es| > 0 {
      var r := Replace(es, name, text);
      assert r[1..] == Replace(es[1..], name, text);
      FindReplace(es[1..], name, text, other);
      HasNameCons(es, name);
    }
  }

  /** After an edit, the active file maps to the typed text and every other lookup is unchanged. */
  lemma EditActiveLookup(v: Vfs, text: string, other: string)
    requires v.active.Some? && HasName(v.entries, v.active.value)
    ensures Find(EditActive(v, text).entries, v.active.value) == Some(text)
    ensures other != v.active.value ==> Find(EditActive(v, text).entries, other) == Find(v.entries, other)
  {
    FindReplace(v.entries, v.active.value, text, v.active.value);
    FindReplace(v.entries, v.active.value, text, other);
  }
}
