/** The generate page: a two-stage selection. In the WORLD stage the user
    picks one world file, then moves on to the OBJECT stage, where object
    files are toggled in and out of a selection list. */
module Generate {
  import opened Common

  datatype Stage = World | Object

  /** The file offered in the WORLD stage. */
  const WorldFiles: seq<string> := ["Myhal.ply"]

  /** The files offered in the OBJECT stage. */
  const ObjectFiles: seq<string> := ["HackWesternHorse.ply", "UofTHacksMoose.ply"]

  /** The list the stage effect loads for a stage. */
  function FilesFor(stage: Stage): (fs: seq<string>)
    ensures stage == World ==> fs == ["Myhal.ply"]
    ensures stage == Object ==> fs == ["HackWesternHorse.ply", "UofTHacksMoose.ply"]
    ensures |fs| > 0 && NoDup(fs)
  {
    if stage == World then WorldFiles else ObjectFiles
  }

  datatype GenState = GenState(
    stage: Stage,
    files: seq<string>,
    selectedWorld: Option<string>,
    selectedObjects: seq<string>,
    prompt: string)

  /** `selectedWorld` is truthy: present and not the empty string. */
  predicate HasWorld(s: GenState): (b: bool)
    ensures b <==> s.selectedWorld != None && s.selectedWorld != Some("")
  {
    s.selectedWorld.Some? && s.selectedWorld.value != ""
  }

  /** The file list is the one loaded for the current stage. */
  predicate Consistent(s: GenState)
  {
    s.files == FilesFor(s.stage)
  }

  /** Completes a state update with the stage effect, which reloads the
      file list whenever the stage differs from the one before. */
  function Commit(before: GenState, after: GenState): (r: GenState)
    requires after.files == before.files
    ensures Consistent(before) ==> Consistent(r)
    ensures r.(files := after.files) == after
  {
    if after.stage != before.stage then after.(files := FilesFor(after.stage)) else after
  }

  /** The page after its first render and mount effects: the WORLD stage
      with its file list loaded and the prompt taken from navigation. */
  function Mount(navPrompt: string): (s: GenState)
    ensures s.stage == World && s.files == ["Myhal.ply"]
    ensures s.selectedWorld == None && s.selectedObjects == [] && s.prompt == navPrompt
  {
    var first := GenState(World, [], None, [], "");
    first.(prompt := navPrompt, files := FilesFor(first.stage))
  }

  /** What pressing the primary button produces. */
  datatype SaveOutcome = SaveOutcome(state: GenState, navigates: bool, alerts: bool)

  /** `handleSave`: in WORLD without a world it only alerts; in WORLD with a
      world it moves to OBJECT; in OBJECT it navigates to the world view. */
  function HandleSave(s: GenState): (out: SaveOutcome)
    ensures s.stage == World && !HasWorld(s) ==>
      out.state == s && out.alerts && !out.navigates
    ensures s.stage == World && HasWorld(s) ==>
      out.state.stage == Object && !out.navigates && !out.alerts
      && out.state.selectedWorld == s.selectedWorld
      && out.state.selectedObjects == s.selectedObjects
      && out.state.prompt == s.prompt
    ensures s.stage == Object ==> out.state == s && out.navigates && !out.alerts
    ensures Consistent(s) ==> Consistent(out.state)
  {
    if s.stage == World then
      if s.selectedWorld.None? || s.selectedWorld.value == "" then SaveOutcome(s, false, true)
      else SaveOutcome(Commit(s, s.(stage := Object)), false, false)
    else SaveOutcome(s, true, false)
  }

  /** `handleReset`: back to the WORLD stage with nothing selected and an
      empty prompt, from any state. */
  function HandleReset(s: GenState): (r: GenState)
    ensures r.stage == World && r.selectedWorld == None
    ensures r.selectedObjects == [] && r.prompt == ""
    ensures Consistent(s) ==> r == Mount("")
  {
    Commit(s, s.(stage := World, selectedWorld := None, selectedObjects := [], prompt := ""))
  }

  /** `handleWorldClick`: the clicked file becomes the selected world. */
  function HandleWorldClick(s: GenState, file: string): (r: GenState)
    ensures r.selectedWorld == Some(file)
    ensures r.(selectedWorld := s.selectedWorld) == s
  {
    s.(selectedWorld := Some(file))
  }

  /** The updater `handleObjectClick` passes to `setSelectedObjects`. */
  function ToggleObject(sel: seq<string>, file: string): (r: seq<string>)
    ensures file in r <==> file !in sel
    ensures Without(r, file) == Without(sel, file)
    ensures file !in sel ==> r == sel + [file]
    ensures NoDup(sel) ==> NoDup(r)
  {
    if file in sel then
      if NoDup(sel) then
        WithoutNoDup(sel, file);
        Without(sel, file)
      else
        Without(sel, file)
    else
      WithoutAppend(sel, [file], file);
      assert Without([file], file) == [] by {
        assert [file][..0] == [];
      }
      assert NoDup(sel) ==> NoDup(sel + [file]);
      sel + [file]
  }

  /** `handleObjectClick`: a selected file is removed, any other is added
      at the end. */
  function HandleObjectClick(s: GenState, file: string): (r: GenState)
    ensures file in r.selectedObjects <==> file !in s.selectedObjects
    ensures Without(r.selectedObjects, file) == Without(s.selectedObjects, file)
    ensures file !in s.selectedObjects ==> r.selectedObjects == s.selectedObjects + [file]
    ensures NoDup(s.selectedObjects) ==> NoDup(r.selectedObjects)
    ensures r.(selectedObjects := s.selectedObjects) == s
  {
    s.(selectedObjects := ToggleObject(s.selectedObjects, file))
  }

  /** A click on a listed file: a world click in WORLD, an object click in
      OBJECT. */
  function ClickFile(s: GenState, file: string): (r: GenState)
    ensures s.stage == World ==> r.selectedWorld == Some(file) && r.selectedObjects == s.selectedObjects
    ensures s.stage == Object ==>
      r.selectedWorld == s.selectedWorld && (file in r.selectedObjects <==> file !in s.selectedObjects)
    ensures r.stage == s.stage && r.files == s.files && r.prompt == s.prompt
  {
    if s.stage == World then HandleWorldClick(s, file) else HandleObjectClick(s, file)
  }

  /** Selecting the same world twice is the same as selecting it once. */
  lemma WorldClickIdempotent(s: GenState, file: string)
    ensures HandleWorldClick(HandleWorldClick(s, file), file) == HandleWorldClick(s, file)
  {
  }

  /** Resetting twice is the same as resetting once. */
  lemma ResetIdempotent(s: GenState)
    ensures HandleReset(HandleReset(s)) == HandleReset(s)
  {
  }

  lemma {:induction false} ToggleTwiceAbsent(sel: seq<string>, file: string)
    requires file !in sel
    ensures ToggleObject(ToggleObject(sel, file), file) == sel
  {
    assert (sel + [file])[..|sel + [file]| - 1] == sel;
  }

  lemma {:induction false} ToggleTwicePresent(sel: seq<string>, file: string, k: nat)
    requires NoDup(sel) && k < |sel| && sel[k] == file
    ensures ToggleObject(ToggleObject(sel, file), file) == RemoveAt(sel, k) + [file]
  {
    WithoutAtIndex(sel, file, k);
  }

  lemma MovedToEnd(sel: seq<string>, file: string, k: nat)
    requires NoDup(sel) && k < |sel| && sel[k] == file
    ensures multiset(RemoveAt(sel, k) + [file]) == multiset(sel)
    ensures RemoveAt(sel, k) + [file] == sel <==> k == |sel| - 1
  {
    var a, b := sel[..k], sel[k + 1..];
    assert RemoveAt(sel, k) + [file] == a + b + [file];
    assert multiset(a + b + [file]) == multiset(sel) by {
      assert sel == a + [file] + b;
    }
    if k < |sel| - 1 {
      assert (a + b + [file])[|sel| - 1] == file;
      assert sel[|sel| - 1] != file;
    } else {
      assert b == [];
      assert sel == a + [file];
    }
  }

  /** Toggling an object twice keeps the same selected objects, and the
      same list exactly when the object was not selected or was the last
      one selected; otherwise it moves to the end. */
  lemma ObjectClickTwice(s: GenState, file: string)
    requires NoDup(s.selectedObjects)
    ensures var r := HandleObjectClick(HandleObjectClick(s, file), file);
      multiset(r.selectedObjects) == multiset(s.selectedObjects)
    ensures var r := HandleObjectClick(HandleObjectClick(s, file), file);
      r == s <==> (file !in s.selectedObjects
                   || s.selectedObjects[|s.selectedObjects| - 1] == file)
  {
    var sel := s.selectedObjects;
    var r := HandleObjectClick(HandleObjectClick(s, file), file);
    assert r.selectedObjects == ToggleObject(ToggleObject(sel, file), file);
    assert r == s <==> r.selectedObjects == sel;
    if file !in sel {
      ToggleTwiceAbsent(sel, file);
    } else {
      var k :| 0 <= k < |sel| && sel[k] == file;
      ToggleTwicePresent(sel, file, k);
      MovedToEnd(sel, file, k);
      if sel[|sel| - 1] == file {
        assert k == |sel| - 1;
      }
    }
  }

  // ---------------------------------------------------------------------
  // Runs of user events
  // ---------------------------------------------------------------------

  /** What the user can do on the page: press the primary button, press
      reset, or click the i-th listed file. */
  datatype Event = Save | Reset | ClickAt(i: nat)

  /** One event. Clicking a position with no listed file does nothing. */
  function Step(s: GenState, e: Event): GenState
  {
    match e
    case Save => HandleSave(s).state
    case Reset => HandleReset(s)
    case ClickAt(i) => if i < |s.files| then ClickFile(s, s.files[i]) else s
  }

  function Run(s: GenState, es: seq<Event>): GenState
    decreases |es|
  {
    if |es| == 0 then s else Run(Step(s, es[0]), es[1..])
  }

  /** What holds of every state the page can reach: the list matches the
      stage, the world (if any) is the offered world, the objects are
      distinct offered objects, and OBJECT is only reached with a world. */
  predicate Inv(s: GenState)
  {
    && Consistent(s)
    && (s.selectedWorld.Some? ==> s.selectedWorld.value in WorldFiles)
    && NoDup(s.selectedObjects)
    && (forall j :: 0 <= j < |s.selectedObjects| ==> s.selectedObjects[j] in ObjectFiles)
    && (s.stage == Object ==> HasWorld(s))
  }

  lemma StepInv(s: GenState, e: Event)
    requires Inv(s)
    ensures Inv(Step(s, e))
  {
    match e
    case Save =>
    case Reset =>
    case ClickAt(i) =>
      if i < |s.files| {
        var f := s.files[i];
        var r := ClickFile(s, f);
        if s.stage == Object {
          forall j | 0 <= j < |r.selectedObjects|
            ensures r.selectedObjects[j] in ObjectFiles
          {
            var x := r.selectedObjects[j];
            if x != f {
              assert x in Without(r.selectedObjects, f);
              assert x in s.selectedObjects;
            }
          }
        }
      }
  }

  /** Every state reachable from mounting satisfies the invariant. */
  lemma {:induction false} RunInv(s: GenState, es: seq<Event>)
    requires Inv(s)
    ensures Inv(Run(s, es))
    decreases |es|
  {
    if |es| > 0 {
      StepInv(s, es[0]);
      RunInv(Step(s, es[0]), es[1..]);
    }
  }

  lemma ReachableInv(navPrompt: string, es: seq<Event>)
    ensures Inv(Run(Mount(navPrompt), es))
  {
    RunInv(Mount(navPrompt), es);
  }
}
