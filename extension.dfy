/**
 The sidebar provider's workflow as it runs: methods that talk to a host (the
 editor and the file system) step by step, each proved to do what the
 corresponding function of module Workflow describes.
 */
module Extension {
  import opened Candidates
  import opened Workflow

  /** The environment of the extension: the workspace folders the editor
      reports, what reading the workspace folder returns, the files on disk,
      the files the operating system refuses to remove, and the log of every
      interaction the extension has had with it. */
  class Host {
    const folders: seq<string>
    const listing: Listing
    const undeletable: set<Path>
    var files: set<Path>
    var log: seq<Event>

    constructor (folders: seq<string>, listing: Listing, files: set<Path>, undeletable: set<Path>)
      ensures this.folders == folders && this.listing == listing && this.undeletable == undeletable
      ensures this.files == files && log == []
    {
      this.folders := folders;
      this.listing := listing;
      this.undeletable := undeletable;
      this.files := files;
      log := [];
    }

    /** `showInformationMessage` / `showErrorMessage` */
    method Notify(n: Notice)
      modifies this
      ensures log == old(log) + [Show(n)] && files == old(files)
    {
      log := log + [Show(n)];
    }

    /** A delete prompt for one entry appears; the reply arrives separately. */
    method Prompt(name: string)
      modifies this
      ensures log == old(log) + [Ask(name)] && files == old(files)
    {
      log := log + [Ask(name)];
    }

    /** `fs.readdir` of the workspace folder. */
    method ReadDir(folder: string) returns (result: Listing)
      modifies this
      ensures result == listing
      ensures log == old(log) + [Event.ReadDir(folder)] && files == old(files)
    {
      log := log + [Event.ReadDir(folder)];
      result := listing;
    }

    /** `fs.unlink`: succeeds exactly when the file exists and may be removed. */
    method Unlink(p: Path) returns (ok: bool)
      modifies this
      ensures ok <==> Removable(p, old(files), undeletable)
      ensures files == if ok then old(files) - {p} else old(files)
      ensures log == old(log) + [Event.Unlink(p)]
    {
      ok := Removable(p, files, undeletable);
      if ok {
        files := files - {p};
      }
      log := log + [Event.Unlink(p)];
    }
  }

  /** `deleteFile`: remove one file and report the outcome; the caller goes on
      in both cases. */
  method DeleteFile(host: Host, p: Path)
    modifies host
    ensures host.log == old(host.log) + DeleteStep(p, old(host.files), host.undeletable).trace
    ensures host.files == DeleteStep(p, old(host.files), host.undeletable).files
  {
    var ok := host.Unlink(p);
    if ok {
      host.Notify(Deleted(p));
    } else {
      host.Notify(DeleteFailed(p));
    }
  }

  /** One turn of `promptDeleteNextFile`: show the prompt for `name`; on the
      reply "yes" delete the file, on any other reply leave it. */
  method PromptAndSettle(host: Host, name: string, path: Path, answer: Answer)
    modifies host
    ensures host.log == old(host.log) + PromptStep(name, path, answer, old(host.files), host.undeletable).trace
    ensures host.files == PromptStep(name, path, answer, old(host.files), host.undeletable).files
  {
    host.Prompt(name);
    if answer == Yes {
      DeleteFile(host, path);
    }
  }

  /** `promptDeleteNextFile`: the callback chain over the candidate list, as a
      loop over `index`. `answers[i]` is the user's reply to the prompt for
      `files[i]`; a prompt with no reply is never answered, and the walk waits
      on it for ever. */
  method PromptDeleteNextFile(host: Host, files: seq<string>, folder: string, index: nat, answers: seq<Answer>)
    modifies host
    ensures var r := Sequence(files, folder, index, answers, old(host.files), host.undeletable);
            host.log == old(host.log) + r.trace && host.files == r.files
  {
    ghost var whole := Sequence(files, folder, index, answers, host.files, host.undeletable);
    ghost var done: seq<Event> := [];
    var i := index;
    while i < |files| && i < |answers|
      invariant index <= i
      invariant host.log == old(host.log) + done
      invariant var rest := Sequence(files, folder, i, answers, host.files, host.undeletable);
                whole.trace == done + rest.trace && whole.files == rest.files
      decreases |files| - i
    {
      ghost var disk := host.files;
      var path := Path(folder, files[i]);
      PromptAndSettle(host, files[i], path, answers[i]);
      ghost var step := PromptStep(files[i], path, answers[i], disk, host.undeletable);
      ghost var next := Sequence(files, folder, i + 1, answers, host.files, host.undeletable);
      SequenceTurn(files, folder, i, answers, disk, host.undeletable);
      assert whole.trace == (done + step.trace) + next.trace;
      done := done + step.trace;
      i := i + 1;
    }
    if i < |files| {
      // the user never answers this prompt: the walk waits here for ever
      host.Prompt(files[i]);
    } else {
      host.Notify(AllDone);
    }
  }

  /** `confirmAndDeleteFiles`: the early exits, then the sequencer from 0. */
  method ConfirmAndDeleteFiles(host: Host, extension: string, answers: seq<Answer>)
    modifies host
    ensures var r := Request(host.folders, extension, host.listing, answers, old(host.files), host.undeletable);
            host.log == old(host.log) + r.trace && host.files == r.files
  {
    var workspaceFolder := WorkspaceFolder(host.folders);
    if workspaceFolder.None? {
      host.Notify(NoWorkspace);
      return;
    }
    var folder := workspaceFolder.value;
    var listing := host.ReadDir(folder);
    match listing
    case ReadError(reason) =>
      host.Notify(ListingFailed(reason));
    case Entries(names) =>
      var targetFiles := Filter(names, extension);
      if |targetFiles| == 0 {
        host.Notify(NothingToDelete(extension));
        return;
      }
      PromptDeleteNextFile(host, targetFiles, folder, 0, answers);
  }

  /** The panel's message listener: only the delete command starts a request. */
  method OnDidReceiveMessage(host: Host, msg: Message, answers: seq<Answer>)
    modifies host
    ensures var r := HandleMessage(msg, host.folders, host.listing, answers, old(host.files), host.undeletable);
            host.log == old(host.log) + r.trace && host.files == r.files
  {
    if msg.command == DeleteCommand {
      ConfirmAndDeleteFiles(host, msg.extension, answers);
    }
  }
}
