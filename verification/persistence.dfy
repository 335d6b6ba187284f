/**
 * Persistence and start-up of main.js: `saveProject`, `loadProject` and
 * `createInitialFiles`. The IndexedDB object store is modelled as a map
 * from file name (its key path) to text; a save replaces it whole, and a
 * load sees its records in whatever order the store enumerates them.
 */
module Persistence {
  import opened Wrappers
  import opened FileSystem

  /** A stored record `{fileName, content}`; `fileName` is the key path. */
  datatype Record = Record(fileName: string, content: string)

  /** The object store: file name to text. */
  type Store = map<string, string>

  /** What `loadProject` gets back from the database. */
  datatype LoadOutcome =
    | OpenFailed                      // `openDB` (or the transaction) threw
    | RequestFailed                   // `getAll` reported an error
    | Loaded(records: seq<Record>)    // `getAll` succeeded with these records

  /** No two records share a key, as in any object store. */
  predicate DistinctKeys(recs: seq<Record>) {
    forall i, j :: 0 <= i < j < |recs| ==> recs[i].fileName != recs[j].fileName
  }

  /** `recs` lists every record of `store` exactly once, in some order. */
  predicate Enumerates(recs: seq<Record>, store: Store) {
    && DistinctKeys(recs)
    && |recs| == |store|
    && (forall i :: 0 <= i < |recs| ==> recs[i].fileName in store && store[recs[i].fileName] == recs[i].content)
    && (forall k :: k in store ==> exists i :: 0 <= i < |recs| && recs[i].fileName == k)
  }

  /** The entries that creating each record in turn would add. */
  function ToEntries(recs: seq<Record>): (es: seq<Entry>)
    ensures |es| == |recs|
    ensures forall i :: 0 <= i < |recs| ==> es[i] == Entry(recs[i].fileName, recs[i].content)
  {
    seq(|recs|, i requires 0 <= i < |recs| => Entry(recs[i].fileName, recs[i].content))
  }

  /**
   * One `store.put` per entry, in insertion order, on top of `store`. Keys
   * not written keep their old text; with distinct names every entry's
   * text ends up under its name.
   */
  function PutAll(store: Store, es: seq<Entry>): (r: Store)
    ensures forall k :: k in r <==> k in store || HasName(es, k)
    ensures forall k :: k in store && !HasName(es, k) ==> r[k] == store[k]
    ensures forall i :: 0 <= i < |es| ==> es[i].name in r
    ensures DistinctNames(es) ==> forall i :: 0 <= i < |es| ==> r[es[i].name] == es[i].content
    decreases |es|
  {
    if |es| == 0 then store
    else
      var r := PutAll(store[es[0].name := es[0].content], es[1..]);
      assert forall i :: 1 <= i < |es| ==> es[i] == es[1..][i - 1];
      forall k ensures HasName(es, k) <==> es[0].name == k || HasName(es[1..], k) {
        HasNameCons(es, k);
      }
      r
  }

  /**
   * `saveProject`: when the database opens, the store is cleared and then
   * holds exactly the VFS, one record per file; when it does not, the
   * store keeps what it had.
   */
  function SaveProject(v: Vfs, store: Store, available: bool): (r: Store)
    ensures !available ==> r == store
    ensures available ==> forall k :: k in r <==> HasName(v.entries, k)
    ensures available && Valid(v) ==> forall k :: k in r ==> Find(v.entries, k) == Some(r[k])
  {
    if !available then store
    else
      var r := PutAll(map[], v.entries);
      assert Valid(v) ==> forall k :: k in r ==> Find(v.entries, k) == Some(r[k]) by {
        if Valid(v) {
          forall k | k in r ensures Find(v.entries, k) == Some(r[k]) {
            var i :| 0 <= i < |v.entries| && v.entries[i].name == k;
            FindEntry(v.entries, v.entries[i]);
          }
        }
      }
      r
  }

  /** The text of the three default files. */
  const IndexHtml: string := "<!DOCTYPE html>\n<html>\n<head>\n  <title>DXCode Test</title>\n  <link rel=\"stylesheet\" href=\"style.css\">\n</head>\n<body>\n  <h1>Hello DXCode</h1>\n  <p>Press Cmd/Ctrl + S to save the project!</p>\n  <script src=\"script.js\"></script>\n</body>\n</html>"
  const StyleCss: string := "body {\n  background-color: #2e2e2e;\n  color: #cccccc;\n}"
  const ScriptJs: string := "console.log(\"DXCode is ready!\");"

  /** The default project, in creation order. */
  const DefaultEntries: seq<Entry> :=
    [Entry(IndexName, IndexHtml), Entry(StyleName, StyleCss), Entry(ScriptName, ScriptJs)]

  /**
   * `createInitialFiles`: `index.html` without activation, then `style.css`
   * and `script.js` with it. Afterwards the three defaults are present along
   * with every earlier file, and the last activating one that was actually
   * created is active.
   */
  function CreateInitialFiles(v: Vfs): (r: Vfs)
    ensures forall n :: HasName(r.entries, n) <==> HasName(v.entries, n) || n in {IndexName, StyleName, ScriptName}
    ensures r.active ==
      if !HasName(v.entries, ScriptName) then Some(ScriptName)
      else if !HasName(v.entries, StyleName) then Some(StyleName)
      else v.active
    ensures |v.entries| <= |r.entries| && r.entries[..|v.entries|] == v.entries
    ensures Valid(v) ==> Valid(r)
  {
    var v1 := CreateFile(v, IndexName, IndexHtml, false);
    var v2 := CreateFile(v1, StyleName, StyleCss, true);
    var v3 := CreateFile(v2, ScriptName, ScriptJs, true);
    DefaultNamesDistinct();
    CreateFileHasName(v, IndexName, IndexHtml, false, StyleName);
    CreateFileHasName(v, IndexName, IndexHtml, false, ScriptName);
    CreateFileHasName(v1, StyleName, StyleCss, true, ScriptName);
    PrefixTrans(v.entries, v1.entries, v2.entries);
    PrefixTrans(v.entries, v2.entries, v3.entries);
    forall n ensures HasName(v3.entries, n) <==> HasName(v.entries, n) || n in {IndexName, StyleName, ScriptName} {
      CreateFileHasName(v, IndexName, IndexHtml, false, n);
      CreateFileHasName(v1, StyleName, StyleCss, true, n);
      CreateFileHasName(v2, ScriptName, ScriptJs, true, n);
    }
    v3
  }

  /** `virtualFileSystem.keys().next().value`: the first name, if any. */
  function FirstKey(es: seq<Entry>): (k: Option<string>)
    ensures k.None? <==> |es| == 0
    ensures k.Some? ==> HasName(es, k.value)
  {
    if |es| == 0 then None else Some(es[0].name)
  }

  /**
   * The `forEach` of `loadProject`: each record created in turn, none
   * activated. The entries only grow, every record's key ends up present,
   * and the active file stays what it was.
   */
  function CreateAll(v: Vfs, recs: seq<Record>): (r: Vfs)
    ensures r.active == v.active
    ensures |v.entries| <= |r.entries| && r.entries[..|v.entries|] == v.entries
    ensures |recs| > 0 ==> |r.entries| > 0
    ensures Valid(v) ==> Valid(r)
    decreases |recs|
  {
    if |recs| == 0 then v
    else
      var v1 := CreateFile(v, recs[0].fileName, recs[0].content, false);
      var r := CreateAll(v1, recs[1..]);
      assert r.entries[..|v.entries|] == r.entries[..|v1.entries|][..|v.entries|];
      r
  }

  /** After loading, every record's key names a file, whether it was new or already there. */
  lemma {:induction false} CreateAllHasRecords(v: Vfs, recs: seq<Record>)
    ensures forall i :: 0 <= i < |recs| ==> HasName(CreateAll(v, recs).entries, recs[i].fileName)
    decreases |recs|
  {
    if |recs| > 0 {
      var v1 := CreateFile(v, recs[0].fileName, recs[0].content, false);
      var r := CreateAll(v1, recs[1..]);
      CreateAllHasRecords(v1, recs[1..]);
      HasNameKept(v1.entries, r.entries, recs[0].fileName);
      assert forall i :: 1 <= i < |recs| ==> recs[i] == recs[1..][i - 1];
    }
  }

  /**
   * With distinct keys that the VFS does not already hold, loading appends
   * exactly the records, in the order given.
   */
  lemma {:induction false} CreateAllFresh(v: Vfs, recs: seq<Record>)
    requires DistinctKeys(recs)
    requires forall i :: 0 <= i < |recs| ==> !HasName(v.entries, recs[i].fileName)
    ensures CreateAll(v, recs).entries == v.entries + ToEntries(recs)
    decreases |recs|
  {
    if |recs| > 0 {
      var e := Entry(recs[0].fileName, recs[0].content);
      var v1 := Vfs(v.entries + [e], v.active);
      CreateAllStep(v, recs);
      RestStaysFresh(v, recs);
      CreateAllFresh(v1, recs[1..]);
      ToEntriesCons(v.entries, recs);
    }
  }

  /** Appending the first record's entry and then the rest's is appending them all. */
  lemma ToEntriesCons(es: seq<Entry>, recs: seq<Record>)
    requires |recs| > 0
    ensures es + ToEntries(recs) == (es + [Entry(recs[0].fileName, recs[0].content)]) + ToEntries(recs[1..])
  {
    assert ToEntries(recs) == [Entry(recs[0].fileName, recs[0].content)] + ToEntries(recs[1..]);
  }

  /** Loading a fresh first record appends it unactivated and goes on with the rest. */
  lemma CreateAllStep(v: Vfs, recs: seq<Record>)
    requires |recs| > 0 && !HasName(v.entries, recs[0].fileName)
    ensures CreateAll(v, recs) ==
      CreateAll(Vfs(v.entries + [Entry(recs[0].fileName, recs[0].content)], v.active), recs[1..])
  {
  }

  /** After creating the first record, the remaining ones are still distinct and fresh. */
  lemma RestStaysFresh(v: Vfs, recs: seq<Record>)
    requires |recs| > 0 && DistinctKeys(recs)
    requires forall i :: 0 <= i < |recs| ==> !HasName(v.entries, recs[i].fileName)
    ensures DistinctKeys(recs[1..])
    ensures forall i :: 0 <= i < |recs[1..]| ==>
      !HasName(v.entries + [Entry(recs[0].fileName, recs[0].content)], recs[1..][i].fileName)
  {
    var e := Entry(recs[0].fileName, recs[0].content);
    var rest := recs[1..];
    assert forall i :: 0 <= i < |rest| ==> rest[i] == recs[i + 1];
    forall i | 0 <= i < |rest|
      ensures !HasName(v.entries + [e], rest[i].fileName)
    {
      HasNameAppend(v.entries, e, rest[i].fileName);
    }
  }

  /**
   * `loadProject`. A failed open falls back to the defaults, and so does an
   * empty store; a failed `getAll` request has no handler and leaves the VFS
   * alone; otherwise every record is created unactivated and the first key
   * is activated.
   */
  function LoadProject(v: Vfs, outcome: LoadOutcome): (r: Vfs)
    ensures outcome.RequestFailed? ==> r == v
    ensures outcome.Loaded? && |outcome.records| > 0 ==> |r.entries| > 0 && r.active == Some(r.entries[0].name)
    ensures |v.entries| <= |r.entries| && r.entries[..|v.entries|] == v.entries
    ensures Valid(v) ==> Valid(r)
  {
    match outcome
    case OpenFailed => CreateInitialFiles(v)
    case RequestFailed => v
    case Loaded(recs) =>
      if |recs| > 0 then
        var w := CreateAll(v, recs);
        match FirstKey(w.entries)
        case None => w
        case Some(k) => SetActiveFile(w, k)
      else CreateInitialFiles(v)
  }

  /**
   * Files already in the VFS when the load finishes keep their place in
   * front, so with stored records the first of those files, not the first
   * record, ends up active.
   */
  lemma LoadAfterEarlyFiles(v: Vfs, recs: seq<Record>)
    requires |v.entries| > 0 && |recs| > 0
    ensures LoadProject(v, Loaded(recs)).active == Some(v.entries[0].name)
  {
    var r := LoadProject(v, Loaded(recs));
    assert r.entries[0] == r.entries[..|v.entries|][0];
  }

  /** The project the defaults produce: three files, `script.js` active. */
  const DefaultProject: Vfs := Vfs(DefaultEntries, Some(ScriptName))

  /**
   * Start-up with no stored project, whether the database failed to open or
   * held no records: exactly the three defaults in creation order, and
   * `script.js` (the last one created with activation) is the active file.
   */
  lemma BootstrapDefaults(outcome: LoadOutcome)
    requires outcome.OpenFailed? || outcome == Loaded([])
    ensures LoadProject(Empty, outcome) == DefaultProject
    ensures Valid(DefaultProject)
  {
    InitialFilesFromEmpty();
  }

  /** Seeding the empty VFS creates the three defaults in order and leaves `script.js` active. */
  lemma InitialFilesFromEmpty()
    ensures CreateInitialFiles(Empty) == DefaultProject
    ensures Valid(DefaultProject)
  {
    SeedIndex();
    SeedStyle();
    SeedScript();
  }

  /** The first seeding step: `index.html` alone, not active. */
  lemma SeedIndex()
    ensures CreateFile(Empty, IndexName, IndexHtml, false) == Vfs(DefaultEntries[..1], None)
  {
    assert !HasName(Empty.entries, IndexName);
  }

  /** The second seeding step: `style.css` appended and made active. */
  lemma SeedStyle()
    ensures CreateFile(Vfs(DefaultEntries[..1], None), StyleName, StyleCss, true) == Vfs(DefaultEntries[..2], Some(StyleName))
  {
    DefaultNamesDistinct();
    assert !HasName(DefaultEntries[..1], StyleName);
    assert DefaultEntries[..1] + [Entry(StyleName, StyleCss)] == DefaultEntries[..2];
  }

  /** The last seeding step: `script.js` appended and made active; the names are distinct. */
  lemma SeedScript()
    ensures CreateFile(Vfs(DefaultEntries[..2], Some(StyleName)), ScriptName, ScriptJs, true) == DefaultProject
    ensures Valid(DefaultProject)
  {
    DefaultNamesDistinct();
    assert !HasName(DefaultEntries[..2], ScriptName);
    assert DefaultEntries[..2] + [Entry(ScriptName, ScriptJs)] == DefaultEntries;
    assert DefaultEntries[2].name == ScriptName;
  }

  /**
   * Start-up with stored records (distinct keys, as any store has): exactly
   * those records, in the order the store returned them, with no default
   * file added, and the first record's file active.
   */
  lemma BootstrapFromRecords(recs: seq<Record>)
    requires |recs| > 0 && DistinctKeys(recs)
    ensures LoadProject(Empty, Loaded(recs)) == Vfs(ToEntries(recs), Some(recs[0].fileName))
  {
    CreateAllFresh(Empty, recs);
  }

  /**
   * Saving a non-empty valid VFS and loading the store back into a fresh page
   * gives a valid VFS with the same (name, text) pairs, so saving it again
   * writes the same store.
   */
  lemma SaveLoadRoundTrip(v: Vfs, store: Store, recs: seq<Record>)
    requires Valid(v) && |v.entries| > 0
    requires Enumerates(recs, SaveProject(v, store, true))
    ensures var w := LoadProject(Empty, Loaded(recs));
      && Valid(w)
      && (forall e :: e in w.entries <==> e in v.entries)
      && SaveProject(w, store, true) == SaveProject(v, store, true)
  {
    var saved := SaveProject(v, store, true);
    assert HasName(v.entries, v.entries[0].name);
    assert v.entries[0].name in saved;
    assert |recs| > 0;
    BootstrapFromRecords(recs);
    LoadKeepsValid(recs);
    RecordsAreEntries(v, store, recs);
    SameEntriesSameStore(LoadProject(Empty, Loaded(recs)), v, store);
  }

  /** The records read back from a save are exactly the VFS's (name, text) pairs. */
  lemma RecordsAreEntries(v: Vfs, store: Store, recs: seq<Record>)
    requires Valid(v)
    requires Enumerates(recs, SaveProject(v, store, true))
    ensures forall e :: e in ToEntries(recs) <==> e in v.entries
  {
    RecordsOfFaithfulStore(v, SaveProject(v, store, true), recs);
  }

  /** Records enumerating a store that holds exactly the VFS's names and texts are its entries. */
  lemma RecordsOfFaithfulStore(v: Vfs, saved: Store, recs: seq<Record>)
    requires Valid(v)
    requires forall k :: k in saved <==> HasName(v.entries, k)
    requires forall k :: k in saved ==> Find(v.entries, k) == Some(saved[k])
    requires Enumerates(recs, saved)
    ensures forall e :: e in ToEntries(recs) <==> e in v.entries
  {
    var es := ToEntries(recs);
    forall e | e in es ensures e in v.entries {
      var i :| 0 <= i < |recs| && es[i] == e;
      assert Find(v.entries, recs[i].fileName) == Some(recs[i].content);
    }
    forall e | e in v.entries ensures e in es {
      FindEntry(v.entries, e);
      var i :| 0 <= i < |v.entries| && v.entries[i] == e;
      assert e.name in saved;
      var j :| 0 <= j < |recs| && recs[j].fileName == e.name;
      assert es[j] == e;
    }
  }

  /** Two valid VFSs with the same (name, text) pairs save to the same store. */
  lemma SameEntriesSameStore(w: Vfs, v: Vfs, store: Store)
    requires Valid(w) && Valid(v)
    requires forall e :: e in w.entries <==> e in v.entries
    ensures SaveProject(w, store, true) == SaveProject(v, store, true)
  {
    var saved := SaveProject(v, store, true);
    var saved' := SaveProject(w, store, true);
    forall k ensures k in saved' <==> k in saved {
      SameEntriesSameNames(w.entries, v.entries, k);
    }
    forall k | k in saved ensures saved'[k] == saved[k] {
      assert Find(w.entries, k) == Some(saved'[k]);
      FindEntry(v.entries, Entry(k, saved'[k]));
    }
  }

  /** Entry sequences with the same members have the same names. */
  lemma SameEntriesSameNames(es: seq<Entry>, es': seq<Entry>, name: string)
    requires forall e :: e in es <==> e in es'
    ensures HasName(es, name) <==> HasName(es', name)
  {
    if HasName(es, name) {
      var i :| 0 <= i < |es| && es[i].name == name;
      assert es[i] in es';
    }
    if HasName(es', name) {
      var i :| 0 <= i < |es'| && es'[i].name == name;
      assert es'[i] in es;
    }
  }

  /** Loading into a fresh page always yields a valid VFS. */
  lemma LoadKeepsValid(recs: seq<Record>)
    ensures Valid(LoadProject(Empty, Loaded(recs)))
  {
  }

  /**
   * An empty VFS does not survive a save and reload: the store is left
   * empty, and the next start-up seeds the defaults instead.
   */
  lemma SaveEmptyReloadsDefaults(v: Vfs, store: Store, recs: seq<Record>)
    requires v.entries == []
    requires Enumerates(recs, SaveProject(v, store, true))
    ensures LoadProject(Empty, Loaded(recs)) == DefaultProject
  {
    assert SaveProject(v, store, true) == map[];
    BootstrapDefaults(Loaded([]));
  }
}
