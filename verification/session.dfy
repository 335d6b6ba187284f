/**
 * The page as a sequence of events from page load: the asynchronous
 * start-up load finishing, the new-file button (or Cmd/Ctrl+N) with its
 * prompt, clicks on a file in the list or tab bar, typing in the editor,
 * Cmd/Ctrl+S, and the preview button. The VFS invariant holds from page
 * load through any such sequence, whenever the load finishes.
 */
module Session {
  import opened Wrappers
  import opened Strings
  import opened FileSystem
  import opened Persistence

  /**
   * The new-file handler: the prompt's answer (None when cancelled) is
   * used only when it is a non-empty string, and it is trimmed only after
   * that test, so an all-whitespace answer asks for a file named "".
   * The file is created empty and activated.
   */
  function NewFileFromPrompt(v: Vfs, input: Option<string>): (r: Vfs)
    ensures input.None? || input == Some("") ==> r == v
    ensures input.Some? && input.value != "" && HasName(v.entries, Trim(input.value)) ==> r == v
    ensures input.Some? && input.value != "" && !HasName(v.entries, Trim(input.value)) ==>
      && r.entries == v.entries + [Entry(Trim(input.value), "")]
      && r.active == Some(Trim(input.value))
    ensures Valid(v) ==> Valid(r)
  {
    match input
    case None => v
    case Some(s) => if s == "" then v else CreateFile(v, Trim(s), "", true)
  }

  /** An answer of blanks creates (and activates) a file whose name is empty. */
  lemma BlankAnswerCreatesEmptyName(v: Vfs, answer: string)
    requires answer != "" && AllWhitespace(answer)
    requires !HasName(v.entries, "")
    ensures NewFileFromPrompt(v, Some(answer)) == Vfs(v.entries + [Entry("", "")], Some(""))
  {
  }

  /**
   * Something that happens on the page. The load started at start-up
   * finishes asynchronously (`request.onsuccess`, or the `catch`), so user
   * actions can come before it.
   */
  datatype Event =
    | LoadDone(outcome: LoadOutcome)    // the start-up load reaches its handler
    | NewFile(answer: Option<string>)   // new-file button or Cmd/Ctrl+N, with the prompt's answer
    | Select(name: string)              // click on a file in the list or the tab bar
    | Edit(text: string)                // typing: the editor's buffer now holds `text`
    | Save(available: bool)             // Cmd/Ctrl+S; `available` is whether the database opened
    | Preview                           // preview button: reads the VFS, changes nothing

  /** The VFS, the database's object store, and whether the start-up load is still pending. */
  datatype State = State(vfs: Vfs, store: Store, loading: bool)

  /** Page load: an empty VFS and no active file, with `loadProject` started but not finished. */
  function Begin(store: Store): (st: State)
    ensures Valid(st.vfs) && |st.vfs.entries| == 0 && st.vfs.active.None?
    ensures st.store == store && st.loading
  {
    State(Empty, store, true)
  }

  /** Page load when the load finishes before any user action. */
  function Start(store: Store, outcome: LoadOutcome): (st: State)
    ensures Valid(st.vfs)
    ensures st.store == store && !st.loading
  {
    State(LoadProject(Empty, outcome), store, false)
  }

  /**
   * One event. Only a save touches the store, and a save leaves the VFS
   * alone. The load applies once, to whatever the VFS holds by then. No
   * event removes, renames or reorders a file, and only an edit changes a
   * buffer's text. Every event keeps the VFS invariant.
   */
  function Step(st: State, ev: Event): (r: State)
    ensures !ev.Save? ==> r.store == st.store
    ensures ev.Save? || ev.Preview? ==> r.vfs == st.vfs
    ensures ev.LoadDone? ==> !r.loading
    ensures ev.LoadDone? && !st.loading ==> r == st
    ensures !ev.LoadDone? ==> r.loading == st.loading
    ensures |st.vfs.entries| <= |r.vfs.entries|
    ensures forall i :: 0 <= i < |st.vfs.entries| ==> r.vfs.entries[i].name == st.vfs.entries[i].name
    ensures !ev.Edit? ==> r.vfs.entries[..|st.vfs.entries|] == st.vfs.entries
    ensures ev.Edit? && st.vfs.active.Some? && HasName(st.vfs.entries, st.vfs.active.value) ==>
      Find(r.vfs.entries, st.vfs.active.value) == Some(ev.text)
    ensures ev.Save? && ev.available && Valid(st.vfs) ==>
      forall k :: k in r.store <==> HasName(st.vfs.entries, k)
    ensures Valid(st.vfs) ==> Valid(r.vfs)
  {
    match ev
    case LoadDone(outcome) =>
      if st.loading then State(LoadProject(st.vfs, outcome), st.store, false) else st
    case NewFile(answer) => State(NewFileFromPrompt(st.vfs, answer), st.store, st.loading)
    case Select(name) => State(SetActiveFile(st.vfs, name), st.store, st.loading)
    case Edit(text) =>
      assert st.vfs.active.Some? && HasName(st.vfs.entries, st.vfs.active.value) ==>
        Find(EditActive(st.vfs, text).entries, st.vfs.active.value) == Some(text) by {
        if st.vfs.active.Some? && HasName(st.vfs.entries, st.vfs.active.value) {
          EditActiveLookup(st.vfs, text, st.vfs.active.value);
        }
      }
      State(EditActive(st.vfs, text), st.store, st.loading)
    case Save(available) => State(st.vfs, SaveProject(st.vfs, st.store, available), st.loading)
    case Preview => st
  }

  /** The events in order. */
  function Run(st: State, evs: seq<Event>): (r: State)
    ensures |st.vfs.entries| <= |r.vfs.entries|
    decreases |evs|
  {
    if |evs| == 0 then st else Run(Step(st, evs[0]), evs[1..])
  }

  /** Two events in a row are one step after the other. */
  lemma RunTwo(st: State, a: Event, b: Event)
    ensures Run(st, [a, b]) == Step(Step(st, a), b)
  {
    assert [a, b][1..] == [b];
    assert Run(st, [a, b]) == Run(Step(st, a), [b]);
    assert [b][1..] == [];
    assert Run(Step(st, a), [b]) == Run(Step(Step(st, a), b), []);
  }

  /** Finishing the load before anything else is what `Start` describes. */
  lemma StartIsLoadFirst(store: Store, outcome: LoadOutcome)
    ensures Step(Begin(store), LoadDone(outcome)) == Start(store, outcome)
  {
  }

  /**
   * A file created while the load is pending stays in front of the loaded
   * records and keeps the activation: `keys().next().value` is that file.
   */
  lemma EarlyNewFileStaysActive(store: Store, answer: string, recs: seq<Record>)
    requires answer != "" && |recs| > 0
    ensures Run(Begin(store), [NewFile(Some(answer)), LoadDone(Loaded(recs))]).vfs.active == Some(Trim(answer))
  {
    var st1 := Step(Begin(store), NewFile(Some(answer)));
    assert st1.vfs.entries == [Entry(Trim(answer), "")];
    LoadAfterEarlyFiles(st1.vfs, recs);
    RunTwo(Begin(store), NewFile(Some(answer)), LoadDone(Loaded(recs)));
  }

  /** A save after typing stores the typed text under the active file's name. */
  lemma SaveAfterEditStoresText(st: State, text: string)
    requires Valid(st.vfs) && st.vfs.active.Some?
    ensures var r := Run(st, [Edit(text), Save(true)]);
      st.vfs.active.value in r.store && r.store[st.vfs.active.value] == text
  {
    var st1 := Step(st, Edit(text));
    EditStep(st, text);
    SaveStep(st1);
    SavedTextOf(st1.vfs, st1.store, st.vfs.active.value, text);
    RunTwo(st, Edit(text), Save(true));
  }

  /** Typing into a valid VFS with an active file leaves it valid, with the text under that file. */
  lemma EditStep(st: State, text: string)
    requires Valid(st.vfs) && st.vfs.active.Some?
    ensures Valid(Step(st, Edit(text)).vfs)
    ensures Find(Step(st, Edit(text)).vfs.entries, st.vfs.active.value) == Some(text)
  {
  }

  /** An available save replaces the store with the VFS's records and changes nothing else. */
  lemma SaveStep(st: State)
    ensures Step(st, Save(true)) == State(st.vfs, SaveProject(st.vfs, st.store, true), st.loading)
  {
  }

  /** A save of a valid VFS stores under each name the text a lookup finds. */
  lemma SavedTextOf(v: Vfs, store: Store, name: string, text: string)
    requires Valid(v) && Find(v.entries, name) == Some(text)
    ensures name in SaveProject(v, store, true) && SaveProject(v, store, true)[name] == text
  {
  }

  /**
   * Across any sequence of events the names stay distinct and the active
   * file, when there is one, names an existing entry.
   */
  lemma {:induction false} RunKeepsValid(st: State, evs: seq<Event>)
    requires Valid(st.vfs)
    ensures Valid(Run(st, evs).vfs)
    decreases |evs|
  {
    if |evs| > 0 {
      RunKeepsValid(Step(st, evs[0]), evs[1..]);
    }
  }

  /**
   * The invariant holds from page load on, whatever the database answered,
   * whenever the load finished, and whatever the user did.
   */
  lemma SessionKeepsValid(store: Store, evs: seq<Event>)
    ensures Valid(Run(Begin(store), evs).vfs)
  {
    RunKeepsValid(Begin(store), evs);
  }

  /**
   * Files are never removed or renamed: every name present before a run of
   * events is still present after it.
   */
  lemma {:induction false} RunKeepsNames(st: State, evs: seq<Event>, name: string)
    requires HasName(st.vfs.entries, name)
    ensures HasName(Run(st, evs).vfs.entries, name)
    decreases |evs|
  {
    if |evs| > 0 {
      var st' := Step(st, evs[0]);
      HasNameKeptByPosition(st.vfs.entries, st'.vfs.entries, name);
      RunKeepsNames(st', evs[1..], name);
    }
  }
}
