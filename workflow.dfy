/**
 The confirm-then-delete workflow of the file cleaner, as values.

 One request runs against an environment given as inputs: the workspace folder
 paths the editor reports, what reading the first folder returns, the user's
 replies to the prompts in the order they are shown, the files present on disk
 and the files the operating system refuses to remove. What the workflow does
 to that environment is a `Run`: the trace of host interactions (directory
 reads, prompts, unlink calls, notices) and the files left on disk.
 */
module Workflow {
  import opened Candidates

  datatype Option<T> = None | Some(value: T)

  /** The user's reply to one "delete this file?" prompt: the "yes" button
      (예), the "no" button (아니오), or the notification dismissed. */
  datatype Answer = Yes | No | Dismissed

  /** A file on disk, named by its folder and its entry name (the model does not
      join them into one platform path). */
  datatype Path = Path(folder: string, name: string)

  /** What reading the workspace folder returns: its entry names in listing
      order, or an error with its message. */
  datatype Listing = Entries(names: seq<string>) | ReadError(reason: string)

  /** The notices the workflow shows, by kind (the wording is not modelled). */
  datatype Notice =
    | NoWorkspace                         // error: no workspace folder is open
    | ListingFailed(reason: string)       // error: the folder could not be read
    | NothingToDelete(extension: string)  // information: no entry has the extension
    | Deleted(path: Path)                 // information: one file was removed
    | DeleteFailed(path: Path)            // error: removing one file failed
    | AllDone                             // information: the walk is complete

  /** One interaction with the host, in the order it happens. */
  datatype Event =
    | ReadDir(folder: string)   // the directory listing is requested
    | Ask(name: string)         // a delete prompt for one entry is shown
    | Unlink(path: Path)        // removal of one file is requested
    | Show(notice: Notice)      // a notice is shown

  /** The effect of a workflow: the trace of events and the files left on disk. */
  datatype Run = Run(trace: seq<Event>, files: set<Path>)

  /** A message posted by the sidebar panel. */
  datatype Message = Message(command: string, extension: string)

  /** The only command the panel's message listener acts on. */
  const DeleteCommand: string := "charen-fileCleaner.deleteFiles"

  /** The folder a request works in: the file-system path of the first workspace
      folder; no folder, or an empty path (falsy in the source), means none. */
  function WorkspaceFolder(folders: seq<string>): Option<string>
  {
    if |folders| == 0 || folders[0] == "" then None else Some(folders[0])
  }

  /** Whether the operating system removes `p`: it exists and may be removed. */
  predicate Removable(p: Path, disk: set<Path>, undeletable: set<Path>)
  {
    p in disk && p !in undeletable
  }

  /** Deleting one file: request its removal, then report the outcome. */
  function DeleteStep(p: Path, disk: set<Path>, undeletable: set<Path>): (r: Run)
    ensures |r.trace| == 2 && r.trace[0] == Unlink(p)
    ensures r.files <= disk && disk - r.files <= {p}
    ensures p in r.files <==> p in disk && p in undeletable
    ensures r.trace[1] == Show(Deleted(p)) <==> p in disk - r.files
    ensures r.trace[1] == Show(DeleteFailed(p)) <==> p !in disk - r.files
  {
    if Removable(p, disk, undeletable) then Run([Unlink(p), Show(Deleted(p))], disk - {p})
    else Run([Unlink(p), Show(DeleteFailed(p))], disk)
  }

  /** One candidate: show its prompt, then settle the reply. Only a yes deletes
      the file; any other reply leaves it. */
  function PromptStep(name: string, p: Path, answer: Answer, disk: set<Path>, undeletable: set<Path>): (r: Run)
  {
    if answer == Yes then
      var d := DeleteStep(p, disk, undeletable);
      Run([Ask(name)] + d.trace, d.files)
    else Run([Ask(name)], disk)
  }

  /** The sequencer from position `index` of the candidate list: prompt for
      `files[index]` and settle the reply; then, in every case, go on with
      `index + 1`; past the end, show the completion notice.
      `answers[i]` is the user's reply to the prompt for `files[i]`; a prompt
      with no reply is never answered, and the walk stops there. */
  function Sequence(files: seq<string>, folder: string, index: nat, answers: seq<Answer>,
                    disk: set<Path>, undeletable: set<Path>): (r: Run)
    decreases |files| - index
  {
    if index >= |files| then Run([Show(AllDone)], disk)
    else if index >= |answers| then Run([Ask(files[index])], disk)
    else
      var step := PromptStep(files[index], Path(folder, files[index]), answers[index], disk, undeletable);
      var rest := Sequence(files, folder, index + 1, answers, step.files, undeletable);
      Run(step.trace + rest.trace, rest.files)
  }

  /** A whole request for `extension`: find the workspace folder, read it, filter
      the entries, and hand a non-empty candidate list to the sequencer. */
  function Request(folders: seq<string>, extension: string, listing: Listing, answers: seq<Answer>,
                   disk: set<Path>, undeletable: set<Path>): Run
  {
    match WorkspaceFolder(folders)
    case None => Run([Show(NoWorkspace)], disk)
    case Some(folder) =>
      match listing
      case ReadError(reason) => Run([ReadDir(folder), Show(ListingFailed(reason))], disk)
      case Entries(names) =>
        var targets := Filter(names, extension);
        if |targets| == 0 then Run([ReadDir(folder), Show(NothingToDelete(extension))], disk)
        else
          var s := Sequence(targets, folder, 0, answers, disk, undeletable);
          Run([ReadDir(folder)] + s.trace, s.files)
  }

  /** The panel's message listener: only the delete command starts a request. */
  function HandleMessage(msg: Message, folders: seq<string>, listing: Listing, answers: seq<Answer>,
                         disk: set<Path>, undeletable: set<Path>): Run
  {
    if msg.command == DeleteCommand then Request(folders, msg.extension, listing, answers, disk, undeletable)
    else Run([], disk)
  }

  // ---------------------------------------------------------------------------
  // Reading a trace

  /** The entry name a prompt event asks about, if it is one. */
  function PromptOf(e: Event): seq<string>
  {
    if e.Ask? then [e.name] else []
  }

  /** The entry names prompted for, in order. */
  function Prompts(t: seq<Event>): seq<string>
  {
    if t == [] then [] else PromptOf(t[0]) + Prompts(t[1..])
  }

  /** The path a removal request concerns, if it is one. */
  function UnlinkOf(e: Event): seq<Path>
  {
    if e.Unlink? then [e.path] else []
  }

  /** The paths whose removal was requested, in order. */
  function Unlinked(t: seq<Event>): seq<Path>
  {
    if t == [] then [] else UnlinkOf(t[0]) + Unlinked(t[1..])
  }

  /** Every removal request comes right after the prompt for that entry and is
      followed at once by the notice reporting its outcome. */
  predicate OutcomeFollowsPrompt(t: seq<Event>)
  {
    forall j :: 0 <= j < |t| && t[j].Unlink? ==>
      0 < j < |t| - 1 && t[j - 1] == Ask(t[j].path.name) &&
      (t[j + 1] == Show(Deleted(t[j].path)) || t[j + 1] == Show(DeleteFailed(t[j].path)))
  }

  /** The reference for what gets deleted: the candidates, from `index` on,
      whose prompt the user answered with yes, in list order. */
  function Confirmed(files: seq<string>, folder: string, index: nat, answers: seq<Answer>): seq<Path>
    decreases |files| - index
  {
    if index >= |files| || index >= |answers| then []
    else (if answers[index] == Yes then [Path(folder, files[index])] else [])
         + Confirmed(files, folder, index + 1, answers)
  }

  /** The confirmed paths the operating system actually removes. */
  function Removed(confirmed: seq<Path>, undeletable: set<Path>): set<Path>
  {
    set p | p in confirmed && p !in undeletable
  }

  lemma {:induction false} PromptsAppend(a: seq<Event>, b: seq<Event>)
    ensures Prompts(a + b) == Prompts(a) + Prompts(b)
  {
    if a == [] {
      assert a + b == b;
    } else {
      calc {
        Prompts(a + b);
        PromptOf((a + b)[0]) + Prompts((a + b)[1..]);
        { assert (a + b)[1..] == a[1..] + b; PromptsAppend(a[1..], b); }
        PromptOf(a[0]) + (Prompts(a[1..]) + Prompts(b));
      }
    }
  }


  lemma {:induction false} UnlinkedAppend(a: seq<Event>, b: seq<Event>)
    ensures Unlinked(a + b) == Unlinked(a) + Unlinked(b)
  {
    if a == [] {
      assert a + b == b;
    } else {
      calc {
        Unlinked(a + b);
        UnlinkOf((a + b)[0]) + Unlinked((a + b)[1..]);
        { assert (a + b)[1..] == a[1..] + b; UnlinkedAppend(a[1..], b); }
        UnlinkOf(a[0]) + (Unlinked(a[1..]) + Unlinked(b));
      }
    }
  }


  lemma OutcomeFollowsPromptAppend(a: seq<Event>, b: seq<Event>)
    requires OutcomeFollowsPrompt(a) && OutcomeFollowsPrompt(b)
    ensures OutcomeFollowsPrompt(a + b)
  {
    var t := a + b;
    forall j | 0 <= j < |t| && t[j].Unlink?
      ensures 0 < j < |t| - 1 && t[j - 1] == Ask(t[j].path.name) &&
              (t[j + 1] == Show(Deleted(t[j].path)) || t[j + 1] == Show(DeleteFailed(t[j].path)))
    {
      if j < |a| {
        assert a[j] == t[j];
      } else {
        assert b[j - |a|] == t[j];
      }
    }
  }

  /** One turn of the sequencer at position `i`: settle the prompt for
      `files[i]`, then continue from `i + 1` on the files that step left. */
  lemma SequenceTurn(files: seq<string>, folder: string, i: nat, answers: seq<Answer>,
                     disk: set<Path>, undeletable: set<Path>)
    requires i < |files| && i < |answers|
    ensures var step := PromptStep(files[i], Path(folder, files[i]), answers[i], disk, undeletable);
            var next := Sequence(files, folder, i + 1, answers, step.files, undeletable);
            Sequence(files, folder, i, answers, disk, undeletable) == Run(step.trace + next.trace, next.files)
  {
  }

  // ---------------------------------------------------------------------------
  // Properties of the sequencer

  /** What one prompt step does: it shows one prompt, as its first event;
      it requests removal of the file exactly when the reply is yes; it never
      shows the completion notice; a removal request sits between the prompt
      for that name and the outcome notice; "deleted" is reported for exactly
      the file that disappeared and failure exactly for a confirmed file that
      could not be removed. */
  lemma PromptStepFacts(name: string, p: Path, answer: Answer, disk: set<Path>, undeletable: set<Path>)
    requires p.name == name
    ensures var r := PromptStep(name, p, answer, disk, undeletable);
            |r.trace| > 0 && r.trace[0] == Ask(name) &&
            Prompts(r.trace) == [name] &&
            Unlinked(r.trace) == (if answer == Yes then [p] else []) &&
            Show(AllDone) !in r.trace &&
            r.files == (if answer == Yes && Removable(p, disk, undeletable) then disk - {p} else disk) &&
            OutcomeFollowsPrompt(r.trace)
    ensures var r := PromptStep(name, p, answer, disk, undeletable);
            forall q :: Show(Deleted(q)) in r.trace <==> q in disk - r.files
    ensures var r := PromptStep(name, p, answer, disk, undeletable);
            forall q :: Show(DeleteFailed(q)) in r.trace <==> answer == Yes && q == p && !Removable(p, disk, undeletable)
  {
    var r := PromptStep(name, p, answer, disk, undeletable);
    if answer == Yes {
      var d := DeleteStep(p, disk, undeletable);
      var outcome := d.trace[1];
      assert r.trace == [Ask(name), Unlink(p), outcome];
      assert outcome.Show?;
      assert r.trace == [Ask(name)] + ([Unlink(p)] + [outcome]);
      assert [Ask(name)][1..] == [] && [Unlink(p)][1..] == [] && [outcome][1..] == [];
      PromptsAppend([Ask(name)], [Unlink(p)] + [outcome]);
      PromptsAppend([Unlink(p)], [outcome]);
      UnlinkedAppend([Ask(name)], [Unlink(p)] + [outcome]);
      UnlinkedAppend([Unlink(p)], [outcome]);
    } else {
      assert r.trace == [Ask(name)];
      assert r.trace[1..] == [];
    }
  }

  /** With a reply for every prompt, the sequencer prompts for each remaining
      candidate once, in list order, whatever the files on disk: a failed
      deletion never stops the walk. */
  lemma {:induction false} SequencePromptsAll(files: seq<string>, folder: string, index: nat, answers: seq<Answer>,
                                              disk: set<Path>, undeletable: set<Path>)
    requires index <= |files| <= |answers|
    ensures Prompts(Sequence(files, folder, index, answers, disk, undeletable).trace) == files[index..]
    decreases |files| - index
  {
    var t := Sequence(files, folder, index, answers, disk, undeletable).trace;
    if index == |files| {
      assert t == [Show(AllDone)];
      assert t[1..] == [];
    } else {
      var p := Path(folder, files[index]);
      var step := PromptStep(files[index], p, answers[index], disk, undeletable);
      var rest := Sequence(files, folder, index + 1, answers, step.files, undeletable);
      assert t == step.trace + rest.trace;
      assert Prompts(step.trace) == [files[index]] by {
        PromptStepFacts(files[index], p, answers[index], disk, undeletable);
      }
      SequencePromptsAll(files, folder, index + 1, answers, step.files, undeletable);
      PromptsAppend(step.trace, rest.trace);
      assert files[index..] == [files[index]] + files[index + 1..];
    }
  }

  /** When the reply to the prompt for `files[k]` is missing, the sequencer
      prompts for the candidates from `index` up to and including `files[k]`,
      in order, and no further. */
  lemma {:induction false} SequencePromptsStall(files: seq<string>, folder: string, index: nat, answers: seq<Answer>,
                                                disk: set<Path>, undeletable: set<Path>)
    requires |answers| <= index < |files| || index <= |answers| < |files|
    ensures var k := if index < |answers| then |answers| else index;
            Prompts(Sequence(files, folder, index, answers, disk, undeletable).trace) == files[index..k + 1]
    decreases |files| - index
  {
    var t := Sequence(files, folder, index, answers, disk, undeletable).trace;
    if index >= |answers| {
      assert t == [Ask(files[index])];
      assert t[1..] == [];
    } else {
      var p := Path(folder, files[index]);
      var step := PromptStep(files[index], p, answers[index], disk, undeletable);
      var rest := Sequence(files, folder, index + 1, answers, step.files, undeletable);
      assert t == step.trace + rest.trace;
      assert Prompts(step.trace) == [files[index]] by {
        PromptStepFacts(files[index], p, answers[index], disk, undeletable);
      }
      SequencePromptsStall(files, folder, index + 1, answers, step.files, undeletable);
      PromptsAppend(step.trace, rest.trace);
      assert files[index..|answers| + 1] == [files[index]] + files[index + 1..|answers| + 1];
    }
  }

  /** When every candidate's prompt is answered the walk reaches its end and
      shows the completion notice once, as its last event. */
  lemma {:induction false} SequenceCompletes(files: seq<string>, folder: string, index: nat, answers: seq<Answer>,
                                             disk: set<Path>, undeletable: set<Path>)
    requires |files| <= index || |files| <= |answers|
    ensures var t := Sequence(files, folder, index, answers, disk, undeletable).trace;
            |t| > 0 && t[|t| - 1] == Show(AllDone) && Show(AllDone) !in t[..|t| - 1]
    decreases |files| - index
  {
    if index < |files| {
      var t := Sequence(files, folder, index, answers, disk, undeletable).trace;
      var p := Path(folder, files[index]);
      var step := PromptStep(files[index], p, answers[index], disk, undeletable);
      var rest := Sequence(files, folder, index + 1, answers, step.files, undeletable);
      assert t == step.trace + rest.trace;
      assert Show(AllDone) !in step.trace by {
        PromptStepFacts(files[index], p, answers[index], disk, undeletable);
      }
      SequenceCompletes(files, folder, index + 1, answers, step.files, undeletable);
      assert t[..|t| - 1] == step.trace + rest.trace[..|rest.trace| - 1];
    }
  }

  /** When some candidate's prompt gets no reply, the walk never reaches its
      end and no completion notice is ever shown. */
  lemma {:induction false} SequenceStalls(files: seq<string>, folder: string, index: nat, answers: seq<Answer>,
                                          disk: set<Path>, undeletable: set<Path>)
    requires index < |files| && |answers| < |files|
    ensures Show(AllDone) !in Sequence(files, folder, index, answers, disk, undeletable).trace
    decreases |files| - index
  {
    if index < |answers| {
      var t := Sequence(files, folder, index, answers, disk, undeletable).trace;
      var p := Path(folder, files[index]);
      var step := PromptStep(files[index], p, answers[index], disk, undeletable);
      var rest := Sequence(files, folder, index + 1, answers, step.files, undeletable);
      assert t == step.trace + rest.trace;
      assert Show(AllDone) !in step.trace by {
        PromptStepFacts(files[index], p, answers[index], disk, undeletable);
      }
      SequenceStalls(files, folder, index + 1, answers, step.files, undeletable);
    }
  }

  /** Removal is requested for exactly the candidates answered with yes, in
      list order: a "no" or a dismissed prompt never deletes its file. */
  lemma {:induction false} SequenceUnlinks(files: seq<string>, folder: string, index: nat, answers: seq<Answer>,
                                           disk: set<Path>, undeletable: set<Path>)
    ensures Unlinked(Sequence(files, folder, index, answers, disk, undeletable).trace)
            == Confirmed(files, folder, index, answers)
    decreases |files| - index
  {
    var t := Sequence(files, folder, index, answers, disk, undeletable).trace;
    if index >= |files| {
      assert t == [Show(AllDone)];
      assert t[1..] == [];
    } else if index >= |answers| {
      assert t == [Ask(files[index])];
      assert t[1..] == [];
    } else {
      var p := Path(folder, files[index]);
      var step := PromptStep(files[index], p, answers[index], disk, undeletable);
      var rest := Sequence(files, folder, index + 1, answers, step.files, undeletable);
      PromptStepFacts(files[index], p, answers[index], disk, undeletable);
      SequenceUnlinks(files, folder, index + 1, answers, step.files, undeletable);
      UnlinkedAppend(step.trace, rest.trace);
    }
  }

  /** The files left are the initial files minus the confirmed candidates the
      operating system agreed to remove; nothing else disappears. */
  lemma {:induction false} SequenceFiles(files: seq<string>, folder: string, index: nat, answers: seq<Answer>,
                                         disk: set<Path>, undeletable: set<Path>)
    ensures Sequence(files, folder, index, answers, disk, undeletable).files
            == disk - Removed(Confirmed(files, folder, index, answers), undeletable)
    decreases |files| - index
  {
    if index < |files| && index < |answers| {
      var p := Path(folder, files[index]);
      var c := Confirmed(files, folder, index, answers);
      var c' := Confirmed(files, folder, index + 1, answers);
      var step := PromptStep(files[index], p, answers[index], disk, undeletable);
      PromptStepFacts(files[index], p, answers[index], disk, undeletable);
      SequenceFiles(files, folder, index + 1, answers, step.files, undeletable);
      if answers[index] == Yes {
        assert c == [p] + c';
        assert Removed(c, undeletable) == Removed([p], undeletable) + Removed(c', undeletable);
      } else {
        assert c == c';
      }
    }
  }

  /** Each outcome notice tells the truth: "deleted" is shown for exactly the
      files that were on disk and are gone afterwards, and a confirmed file that
      could not be removed (already gone, or refused) gets a failure notice. */
  lemma {:induction false} SequenceReports(files: seq<string>, folder: string, index: nat, answers: seq<Answer>,
                                           disk: set<Path>, undeletable: set<Path>, q: Path)
    ensures var r := Sequence(files, folder, index, answers, disk, undeletable);
            Show(Deleted(q)) in r.trace <==> q in disk - r.files
    ensures var r := Sequence(files, folder, index, answers, disk, undeletable);
            q in Confirmed(files, folder, index, answers) && !Removable(q, disk, undeletable)
            ==> Show(DeleteFailed(q)) in r.trace
    ensures var r := Sequence(files, folder, index, answers, disk, undeletable);
            Show(DeleteFailed(q)) in r.trace ==> q in Confirmed(files, folder, index, answers)
    decreases |files| - index
  {
    if index < |files| && index < |answers| {
      var p := Path(folder, files[index]);
      var c' := Confirmed(files, folder, index + 1, answers);
      var step := PromptStep(files[index], p, answers[index], disk, undeletable);
      var rest := Sequence(files, folder, index + 1, answers, step.files, undeletable);
      PromptStepFacts(files[index], p, answers[index], disk, undeletable);
      SequenceReports(files, folder, index + 1, answers, step.files, undeletable, q);
      SequenceFiles(files, folder, index + 1, answers, step.files, undeletable);
      assert Confirmed(files, folder, index, answers) == (if answers[index] == Yes then [p] else []) + c';
      if q in c' && !Removable(q, disk, undeletable) {
        assert !Removable(q, step.files, undeletable);
      }
    }
  }

  /** No prompt is shown while a deletion is outstanding: each removal request
      sits between the prompt for its entry and the notice of its outcome. */
  lemma {:induction false} SequenceOrdered(files: seq<string>, folder: string, index: nat, answers: seq<Answer>,
                                           disk: set<Path>, undeletable: set<Path>)
    ensures OutcomeFollowsPrompt(Sequence(files, folder, index, answers, disk, undeletable).trace)
    decreases |files| - index
  {
    if index < |files| && index < |answers| {
      var p := Path(folder, files[index]);
      var step := PromptStep(files[index], p, answers[index], disk, undeletable);
      var rest := Sequence(files, folder, index + 1, answers, step.files, undeletable);
      PromptStepFacts(files[index], p, answers[index], disk, undeletable);
      SequenceOrdered(files, folder, index + 1, answers, step.files, undeletable);
      OutcomeFollowsPromptAppend(step.trace, rest.trace);
    }
  }

  /** A deletion that fails, because the file is already gone or is refused,
      changes neither the prompts that follow nor the deletions requested:
      the walk over the candidates is the same whatever the disk holds. */
  lemma FailureDoesNotStopProgress(files: seq<string>, folder: string, answers: seq<Answer>,
                                   disk1: set<Path>, undeletable1: set<Path>,
                                   disk2: set<Path>, undeletable2: set<Path>)
    ensures var t1 := Sequence(files, folder, 0, answers, disk1, undeletable1).trace;
            var t2 := Sequence(files, folder, 0, answers, disk2, undeletable2).trace;
            Prompts(t1) == Prompts(t2) && Unlinked(t1) == Unlinked(t2)
  {
    if |files| <= |answers| {
      SequencePromptsAll(files, folder, 0, answers, disk1, undeletable1);
      SequencePromptsAll(files, folder, 0, answers, disk2, undeletable2);
    } else {
      SequencePromptsStall(files, folder, 0, answers, disk1, undeletable1);
      SequencePromptsStall(files, folder, 0, answers, disk2, undeletable2);
    }
    SequenceUnlinks(files, folder, 0, answers, disk1, undeletable1);
    SequenceUnlinks(files, folder, 0, answers, disk2, undeletable2);
  }

  // ---------------------------------------------------------------------------
  // Properties of a request

  /** The three early exits each show a single notice and touch nothing: with no
      workspace folder an error and not even a listing; with an unreadable
      folder an error; with no entry ending in the extension an information
      notice, and in none of them a prompt, a deletion or a completion notice. */
  lemma RequestEarlyExits(folders: seq<string>, extension: string, listing: Listing, answers: seq<Answer>,
                          disk: set<Path>, undeletable: set<Path>)
    ensures var r := Request(folders, extension, listing, answers, disk, undeletable);
            (|folders| == 0 || folders[0] == "") ==> r == Run([Show(NoWorkspace)], disk)
    ensures var r := Request(folders, extension, listing, answers, disk, undeletable);
            |folders| > 0 && folders[0] != "" && listing.ReadError? ==>
              r == Run([ReadDir(folders[0]), Show(ListingFailed(listing.reason))], disk)
    ensures var r := Request(folders, extension, listing, answers, disk, undeletable);
            |folders| > 0 && folders[0] != "" && listing.Entries? &&
            (forall x :: x in listing.names ==> !EndsWith(x, extension)) ==>
              r == Run([ReadDir(folders[0]), Show(NothingToDelete(extension))], disk)
  {
    if listing.Entries? {
      FilterEmptyIff(listing.names, extension);
    }
  }

  /** A request that reaches the sequencer reads the first workspace folder,
      prompts for exactly the entries ending with the extension in listing
      order (all of them when every prompt is answered), shows one completion
      notice at the end, and leaves every file on disk except the confirmed
      candidates that could be removed. */
  lemma RequestWalksCandidates(folders: seq<string>, extension: string, names: seq<string>, answers: seq<Answer>,
                               disk: set<Path>, undeletable: set<Path>)
    requires |folders| > 0 && folders[0] != ""
    requires exists x :: x in names && EndsWith(x, extension)
    requires |answers| >= |Filter(names, extension)|
    ensures var r := Request(folders, extension, Entries(names), answers, disk, undeletable);
            |r.trace| > 1 && r.trace[0] == ReadDir(folders[0]) &&
            Prompts(r.trace) == Filter(names, extension) &&
            r.trace[|r.trace| - 1] == Show(AllDone) && Show(AllDone) !in r.trace[..|r.trace| - 1] &&
            r.files == disk - Removed(Confirmed(Filter(names, extension), folders[0], 0, answers), undeletable)
  {
    var folder := folders[0];
    var targets := Filter(names, extension);
    assert |targets| > 0 by {
      FilterEmptyIff(names, extension);
    }
    var s := Sequence(targets, folder, 0, answers, disk, undeletable);
    var r := Request(folders, extension, Entries(names), answers, disk, undeletable);
    assert r == Run([ReadDir(folder)] + s.trace, s.files);
    assert Prompts(r.trace) == targets by {
      SequencePromptsAll(targets, folder, 0, answers, disk, undeletable);
      PromptsAppend([ReadDir(folder)], s.trace);
      assert [ReadDir(folder)][1..] == [];
    }
    assert |s.trace| > 0 && s.trace[|s.trace| - 1] == Show(AllDone) && Show(AllDone) !in s.trace[..|s.trace| - 1] by {
      SequenceCompletes(targets, folder, 0, answers, disk, undeletable);
    }
    assert r.trace[..|r.trace| - 1] == [ReadDir(folder)] + s.trace[..|s.trace| - 1];
    SequenceFiles(targets, folder, 0, answers, disk, undeletable);
  }

  /** Whatever the user answers, a request never removes a file that is not a
      candidate: one outside the workspace folder, or whose name does not end
      with the extension, or that the listing did not show. */
  lemma RequestSparesNonCandidates(folders: seq<string>, extension: string, listing: Listing, answers: seq<Answer>,
                                   disk: set<Path>, undeletable: set<Path>, q: Path)
    requires q in disk
    requires |folders| == 0 || q.folder != folders[0] || listing.ReadError? ||
             q.name !in listing.names || !EndsWith(q.name, extension)
    ensures q in Request(folders, extension, listing, answers, disk, undeletable).files
  {
    if WorkspaceFolder(folders).Some? && listing.Entries? {
      var targets := Filter(listing.names, extension);
      if |targets| > 0 {
        var confirmed := Confirmed(targets, folders[0], 0, answers);
        SequenceFiles(targets, folders[0], 0, answers, disk, undeletable);
        if q in confirmed {
          ConfirmedAreCandidates(targets, folders[0], 0, answers, q);
        }
      }
    }
  }

  /** Every confirmed path is a candidate entry in the folder being walked. */
  lemma {:induction false} ConfirmedAreCandidates(files: seq<string>, folder: string, index: nat, answers: seq<Answer>, q: Path)
    requires q in Confirmed(files, folder, index, answers)
    ensures q.folder == folder && q.name in files
    decreases |files| - index
  {
    if q !in Confirmed(files, folder, index + 1, answers) {
      assert q == Path(folder, files[index]);
    } else {
      ConfirmedAreCandidates(files, folder, index + 1, answers, q);
    }
  }

  /** Only the delete command starts a request; any other message changes nothing. */
  lemma HandleMessageDispatch(msg: Message, folders: seq<string>, listing: Listing, answers: seq<Answer>,
                              disk: set<Path>, undeletable: set<Path>)
    ensures var r := HandleMessage(msg, folders, listing, answers, disk, undeletable);
            msg.command != DeleteCommand ==> r.trace == [] && r.files == disk
    ensures var r := HandleMessage(msg, folders, listing, answers, disk, undeletable);
            msg.command == DeleteCommand ==> r == Request(folders, msg.extension, listing, answers, disk, undeletable)
  {
  }

  // ---------------------------------------------------------------------------
  // Worked scenarios

  /** A workspace holding a.log, b.log and notes.txt, cleaned of ".log" files
      with "yes" for a.log and "no" for b.log: a.log goes, b.log and notes.txt
      stay, and the walk ends with one completion notice. */
  lemma ScenarioYesThenNo()
    ensures var a, b, n := Path("/ws", "a.log"), Path("/ws", "b.log"), Path("/ws", "notes.txt");
            var r := Request(["/ws"], ".log", Entries(["a.log", "b.log", "notes.txt"]), [Yes, No], {a, b, n}, {});
            r.files == {b, n} &&
            r.trace == [ReadDir("/ws"), Ask("a.log"), Unlink(a), Show(Deleted(a)), Ask("b.log"), Show(AllDone)]
  {
    var a, b, n := Path("/ws", "a.log"), Path("/ws", "b.log"), Path("/ws", "notes.txt");
    assert EndsWith("a.log", ".log") && EndsWith("b.log", ".log") && !EndsWith("notes.txt", ".log");
    var files := ["a.log", "b.log", "notes.txt"];
    assert Filter(files, ".log") == ["a.log", "b.log"];
    var targets := ["a.log", "b.log"];
    assert Sequence(targets, "/ws", 2, [Yes, No], {b, n}, {}) == Run([Show(AllDone)], {b, n});
    assert Sequence(targets, "/ws", 1, [Yes, No], {b, n}, {}) == Run([Ask("b.log"), Show(AllDone)], {b, n});
    assert DeleteStep(a, {a, b, n}, {}) == Run([Unlink(a), Show(Deleted(a))], {b, n});
    assert Sequence(targets, "/ws", 0, [Yes, No], {a, b, n}, {})
        == Run([Ask("a.log"), Unlink(a), Show(Deleted(a)), Ask("b.log"), Show(AllDone)], {b, n});
  }

  /** The same workspace, but a.log was removed by someone else after the
      listing: confirming it reports a failure for its path, and the walk still
      goes on to b.log. */
  lemma ScenarioRemovedMeanwhile()
    ensures var a, b, n := Path("/ws", "a.log"), Path("/ws", "b.log"), Path("/ws", "notes.txt");
            var r := Request(["/ws"], ".log", Entries(["a.log", "b.log", "notes.txt"]), [Yes, Yes], {b, n}, {});
            r.files == {n} &&
            r.trace == [ReadDir("/ws"), Ask("a.log"), Unlink(a), Show(DeleteFailed(a)),
                        Ask("b.log"), Unlink(b), Show(Deleted(b)), Show(AllDone)]
  {
    assert EndsWith("a.log", ".log") && EndsWith("b.log", ".log") && !EndsWith("notes.txt", ".log");
    var a, b, n := Path("/ws", "a.log"), Path("/ws", "b.log"), Path("/ws", "notes.txt");
    var files := ["a.log", "b.log", "notes.txt"];
    assert Filter(files, ".log") == ["a.log", "b.log"];
    var targets := ["a.log", "b.log"];
    assert Sequence(targets, "/ws", 2, [Yes, Yes], {n}, {}) == Run([Show(AllDone)], {n});
    assert DeleteStep(b, {b, n}, {}) == Run([Unlink(b), Show(Deleted(b))], {n});
    assert Sequence(targets, "/ws", 1, [Yes, Yes], {b, n}, {})
        == Run([Ask("b.log"), Unlink(b), Show(Deleted(b)), Show(AllDone)], {n});
    assert DeleteStep(a, {b, n}, {}) == Run([Unlink(a), Show(DeleteFailed(a))], {b, n});
    assert Sequence(targets, "/ws", 0, [Yes, Yes], {b, n}, {})
        == Run([Ask("a.log"), Unlink(a), Show(DeleteFailed(a)), Ask("b.log"), Unlink(b), Show(Deleted(b)), Show(AllDone)], {n});
  }

  /** No entry ends with ".md": one information notice, no prompt. */
  lemma ScenarioNoMatch()
    ensures Request(["/ws"], ".md", Entries(["a.log", "notes.txt"]), [Yes], {}, {}).trace
            == [ReadDir("/ws"), Show(NothingToDelete(".md"))]
  {
    assert !EndsWith("a.log", ".md") && !EndsWith("notes.txt", ".md");
    assert Filter(["a.log", "notes.txt"], ".md") == [];
  }
}
