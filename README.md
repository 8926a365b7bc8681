# File cleaner: confirm-then-delete workflow

A Dafny model of the one piece of logic in the "File Cleaner" editor extension.
The sidebar panel sends a request to delete every file in the workspace folder
whose name ends with a given extension. The extension then works through these steps:

1. It takes the first workspace folder. If there is none, it shows an error and stops.
2. It reads that folder's entries. If the read fails, it shows an error and stops.
3. It keeps the entries whose name ends with the extension, in listing order. If none
   are left, it shows a "nothing to delete" notice and stops.
4. It walks the candidates one at a time. For each one it asks "delete this file?".
   Only the "yes" button (예) deletes the file. Each deletion is reported as done or
   failed. The walk moves to the next candidate whatever the answer or outcome.
5. Past the last candidate, it shows one completion notice.

The model has three modules:

- `Candidates` (candidates.dfy): the suffix test and the candidate filter as pure
  functions, with lemmas that pin the filter down as the order-preserving selection
  of the matching entries.
- `Workflow` (workflow.dfy): the workflow as values. The host's inputs are
  parameters: the workspace folder paths, what reading the folder returns, the
  user's reply to each candidate's prompt, the files on disk and the files the operating
  system refuses to remove. A request yields a `Run`: the trace of host
  interactions and the files left on disk. The functions `Request`, `Sequence` and
  `DeleteStep` follow the source's three methods branch by branch. The lemmas state
  what the workflow promises.
- `Extension` (extension.dfy): the same workflow written step by step against a
  `Host` object that holds the files on disk and an event log. The callback chain of
  `promptDeleteNextFile` becomes a `while` loop over the index. Each method is proved
  to leave the host exactly as the matching `Workflow` function says.

A user who never answers a prompt stalls that request for ever. The model shows
this by running out of replies: the trace then ends with the unanswered prompt
and has no completion notice.

## Model

| member | source | states |
|---|---|---|
| Candidates.Filter | src/extension.ts:64 | the candidates are entries of the listing that end with the extension, every such entry is among them, and there are never more candidates than entries |
| Candidates.FilterAppend | src/extension.ts:64 | filtering preserves listing order: the filter of a concatenation is the concatenation of the filters |
| Candidates.FilterSingle | src/extension.ts:64 | one entry is kept exactly when it ends with the extension |
| Candidates.FilterCount | src/extension.ts:64 | nothing is added, dropped or deduplicated: a matching entry occurs as often as in the listing, others never |
| Candidates.EndsWithEmpty | src/extension.ts:64 | every name ends with the empty extension |
| Candidates.FilterEmptyExtension | src/extension.ts:64 | an empty extension keeps the whole listing in order |
| Candidates.FilterEmptyIff | src/extension.ts:64-65 | the candidate list is empty exactly when no entry ends with the extension |
| Workflow.DeleteStep | src/extension.ts:100-109 | one deletion requests removal and then shows exactly one outcome notice; the file is gone unless it was absent or refused; "deleted" is shown exactly when the file was on disk and is gone, otherwise a failure for that path |
| Workflow.WorkspaceFolder | src/extension.ts:52-56 | the folder a request works in: the first workspace folder's path, none when there is no folder or its path is empty; its consequences are stated by `RequestEarlyExits` and `RequestWalksCandidates` |
| Workflow.PromptStep | src/extension.ts:85-95 | one candidate's turn as a value; its facts are stated by `PromptStepFacts` |
| Workflow.Sequence | src/extension.ts:76-97 | the sequencer from a given index as a value; its facts are stated by the `Sequence*` lemmas and `FailureDoesNotStopProgress` |
| Workflow.Request | src/extension.ts:51-73 | a whole request as a value; its facts are stated by the `Request*` lemmas and the scenarios |
| Workflow.HandleMessage | src/extension.ts:41-47 | the message listener as a value; its facts are stated by `HandleMessageDispatch` |
| Workflow.PromptStepFacts | src/extension.ts:85-95 | one turn shows exactly one prompt, first; it requests removal exactly when the reply is "yes" (예), never on "no" or a dismissed prompt; it never shows the completion notice; the file is removed only on "yes" when it exists and may be removed |
| Workflow.SequencePromptsAll | src/extension.ts:76-97 | with a reply for every prompt, exactly one prompt per remaining candidate, in list order, index rising by one, whatever the disk holds |
| Workflow.SequencePromptsStall | src/extension.ts:76-97 | when the reply for candidate k is missing, the prompts are exactly the candidates from the start index through k, in order, and the walk stops there |
| Workflow.SequenceCompletes | src/extension.ts:76-80 | when every prompt is answered, the walk reaches the end and the completion notice appears exactly once, as the last event |
| Workflow.SequenceStalls | src/extension.ts:76-80 | when some prompt is never answered, no completion notice is ever shown |
| Workflow.SequenceUnlinks | src/extension.ts:88-95 | removal is requested for exactly the candidates answered "yes", in order; "no" or a dismissed prompt never deletes |
| Workflow.SequenceFiles | src/extension.ts:83-92 | files left = initial files minus the confirmed candidates the system could remove |
| Workflow.SequenceReports | src/extension.ts:101-107 | a "deleted" notice is shown for exactly the files that were removed; a confirmed file that was already gone or refused gets a failure notice; failure notices concern confirmed files only |
| Workflow.SequenceOrdered | src/extension.ts:85-92 | every removal request comes right after the prompt for that file and right before its outcome notice, so the next prompt waits for the outcome |
| Workflow.FailureDoesNotStopProgress | src/extension.ts:101-107 | the prompts shown and the removals requested are the same whatever the disk holds, so a failed deletion never stops the walk |
| Workflow.RequestEarlyExits | src/extension.ts:51-68 | no workspace folder: one error notice, no listing, prompt or deletion; listing error: one error notice after the read; no matching entry: one information notice; in each case the files are untouched |
| Workflow.RequestWalksCandidates | src/extension.ts:58-71 | a request with matches reads the first workspace folder, prompts for exactly the matching entries in listing order, ends with one completion notice and removes only the confirmed, removable candidates |
| Workflow.RequestSparesNonCandidates | src/extension.ts:64-71 | whatever the replies, a file outside the folder, not listed, or not ending with the extension is never removed |
| Workflow.ConfirmedAreCandidates | src/extension.ts:82-83 | every confirmed path is a candidate name in the walked folder |
| Workflow.HandleMessageDispatch | src/extension.ts:41-47 | only the command "charen-fileCleaner.deleteFiles" starts a request; any other message changes nothing |
| Workflow.ScenarioYesThenNo | src/extension.ts:51-109 | a.log, b.log, notes.txt with ".log" and replies yes, no: a.log removed, b.log and notes.txt kept, one completion notice, exact event trace |
| Workflow.ScenarioRemovedMeanwhile | src/extension.ts:100-109 | a confirmed file removed by someone else after the listing gets a failure notice, and the next candidate is still prompted and deleted |
| Workflow.ScenarioNoMatch | src/extension.ts:64-68 | no matching entry: a single "nothing to delete" notice after the read, no prompt |
| Extension.Host.Unlink | src/extension.ts:101 | removal succeeds exactly when the file exists and may be removed, and then only that file is gone |
| Extension.PromptAndSettle | src/extension.ts:85-95 | the host's log and files change exactly as `PromptStep` describes for one candidate |
| Extension.DeleteFile | src/extension.ts:100-109 | the host's log and files change exactly as `DeleteStep` describes |
| Extension.PromptDeleteNextFile | src/extension.ts:76-97 | the loop leaves the host's log and files exactly as `Sequence` describes from the given index |
| Extension.ConfirmAndDeleteFiles | src/extension.ts:51-73 | the host's log and files change exactly as `Request` describes |
| Extension.OnDidReceiveMessage | src/extension.ts:41-47 | the host changes exactly as `HandleMessage` describes |

## Left out

- `activate`, command registration and sidebar focus (src/extension.ts:5-19): these only register things with the editor.
- `resolveWebviewView` (src/extension.ts:26-39): it sets panel options and HTML and stores the view in `_view`. This is host glue with no effect on the workflow. Only its message dispatch is modelled.
- The `console.log` of each message (src/extension.ts:42): it is logging only.
- `getWebviewContent` (src/extension.ts:111-119): a synchronous file read plus URI rewriting through an editor API whose behaviour is not visible. `deactivate` is empty.
- Directory reading is an input. The model takes its entry names in the order given and does not reproduce `fs.readdir`. The listing does not have to agree with the files on disk, which is how a file removed by someone else after the listing is represented.
- Paths are (folder, name) pairs, not platform paths built by `path.join`.
- `fs.unlink` fails when the file is absent or is in an explicit set of files the system refuses to remove. The reasons for a refusal (permissions, file in use) are not told apart.
- The wording of notices (Korean text and emoji) is left out. Notices are kinds carrying the extension, the path or the listing error's message.
- Overlapping requests and promise scheduling are left out. The notices from `showErrorMessage`/`showInformationMessage` are not awaited in the source. The model logs them in call order.
- The panel's `extension` field is taken to be a string. A missing field (JavaScript `undefined`, turned into the text "undefined" by `endsWith`) is not modelled.
- `endsWith` compares UTF-16 code units. The model compares characters, which gives the same answer for well-formed strings. Lone surrogates are not modelled.
- The listener acts only on the command "charen-fileCleaner.deleteFiles" (src/extension.ts:44), and the model does the same. The code treats a workspace folder with an empty path as no folder (a falsy check), and the model does the same.
