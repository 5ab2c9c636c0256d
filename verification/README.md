# go-jobs-ui: the job-tracking core, in Dafny

go-jobs-ui shows a list of named jobs in a terminal UI. It has a progress bar
above the list and a status bar below it. A client registers jobs by name.
It then reports each job active, failed, done or disabled. The library keeps a
registry of `Job` records and one label per job in the jobs box. It also counts
the completions reported and pushes an overall percentage to the progress bar.
The status bar gets the text `"Progress: N %"`.

This project models that core:

- `job.dfy`, module `JobRecord`: the `Job` record. It holds a name, a
  description and three independent flags (active, error, done). `NewJob`
  builds one.
- `text.dfy`, module `UiText`: the two text templates.
  - The job line is `"[%8s] %s"`, with the status upper-cased.
  - The status-bar text is `"Progress: %d %%"`.
  - Each template has a reader, and round trips between template and reader
    are proved.
- `ui.dfy`, module `JobsUi`: the `UI` object, as a class.
  - Its fields are the registry (`jobs`), the labels of the jobs box
    (`labels`), and the label position of each registered name (`jobLabels`).
  - Further fields hold the completion count (`jobsDone`), the value last
    pushed to the progress bar (`progress`), and the status bar's permanent
    and temporary texts.
  - Every public operation has a method. Each method states its whole new
    state and keeps the invariant `Valid()`: every registered job's label
    shows its current description, under a style its flags back up.
  - The invariant is stated on values (`Consistent`). Lemmas prove that
    registering, storing a record and redrawing a label preserve it.
  - Lemmas about the progress formula state its bounds and monotonicity, and
    how it departs from the exact ratio.
- `scenarios.dfy`, module `Scenarios`: client runs of the UI.
  - The four-job run of the example program.
  - A job that is failed and then done.
  - A job reported done twice.
  - An unknown name.

Each scenario's result follows from the operations' contracts alone.

Calls into the terminal toolkit are not modelled as calls. A label's new text
and style, the progress bar's value and the status bar's texts are recorded
in fields instead. The toolkit's update queue is taken as drained, so the
fields show the state after the render loop has applied every queued update.

## Model

| member | source | states |
|---|---|---|
| JobRecord.NewJob | job.go:14-16 | A new job keeps the given name and description, and none of its three flags is set. |
| UiText.Upper | ui.go:222 | `strings.ToUpper` on ASCII: its own contract keeps the length; UiText.UpperSpec states the letter-by-letter effect. |
| UiText.PrepareJobDescription | ui.go:221-223 | `prepareJobDescription`: the line starts with `[`, is at least 11 characters longer than the description and ends with it unchanged. The column layout is stated by UiText.JobLineLayout and the read-back by UiText.JobLineRoundTrip. |
| UiText.Decimal | ui.go:226 | The `%d` verb: at least one character, a leading `-` exactly for negative values, and only digits otherwise. UiText.DecimalRoundTrip states that the value is read back. |
| UiText.PrepareProgressText | ui.go:225-227 | `prepareProgressText`: the text starts with `"Progress: "`, ends with `" %"` and has a number between them. UiText.ProgressTextRoundTrip and UiText.ProgressTextInjective state that the value is determined by the text. |
| UiText.UpperSpec | ui.go:222 | Upper-casing keeps the length and leaves no lower-case letter. It changes only lower-case letters, each to the letter 32 code points below it. |
| UiText.LeftPad | ui.go:222 | The `%8s` field: the width is the larger of the text's length and the field width. The text sits at the right end, with only spaces before it, and is never cut. |
| UiText.LeftPadUpper | ui.go:222 | A status of at most eight characters fills the column as spaces followed by its upper-cased form. |
| UiText.JobLineLayout | ui.go:221-223 | A job line is 11 characters longer than its description. It opens with `[` and carries the padded status in columns 1-8 and `] ` in columns 9-10. The description follows unchanged, so every description starts at the same column. |
| UiText.BlankStatusLine | ui.go:98 | A job without a status shows `"[        ] "` before its description. |
| UiText.JobLineRoundTrip | ui.go:221-223 | Reading a job line back gives the upper-cased status and the description. This holds for a status that fits the column and does not start with a space. |
| UiText.NatDigitsRoundTrip | ui.go:226 | The `%d` digits of a natural number are non-empty decimal digits without a leading zero, and they stand for the number. |
| UiText.DecimalRoundTrip | ui.go:226 | Every integer, negative ones included, is read back from its `%d` form. |
| UiText.ProgressTextRoundTrip | ui.go:225-227 | The progress value is read back from the status-bar text made from it. |
| UiText.ProgressTextInjective | ui.go:225-227 | Two progress values with the same status-bar text are equal. |
| UiText.InitialProgressText | ui.go:53 | The status bar's initial text is the text for progress 0. |
| UiText.CompleteProgressText | ui.go:214 | Once every job is done, the status bar reads `"Progress: 100 %"`. |
| JobsUi.JobLine | ui.go:202 | The label text for a style and description is longer than the description and ends with it. JobsUi.JobLineReadBack and JobsUi.DoneLine state the rest. |
| JobsUi.NotFound | ui.go:111 | The lookup failure is an error whose message ends with the name looked up. The same message is built at ui.go:124, 145 and 167. |
| JobsUi.ProgressPercent | ui.go:213-217 | The percentage computed in `increaseProgress` is never negative and is exactly 100 at completion. The lemmas in the following rows state the rest. |
| JobsUi.JobLineReadBack | ui.go:202 | Every label's text is exactly 11 characters longer than its description. It reads back as its upper-cased style name and the job's description. A label in the normal style shows a blank status column. |
| JobsUi.DoneLine | ui.go:151 | The label of a done job reads `"[    DONE] "` followed by its description. |
| JobsUi.ProgressWithinBounds | ui.go:210-218 | While completions do not outnumber jobs, the pushed percentage lies between 0 and 100. |
| JobsUi.ProgressMonotone | ui.go:210-218 | The pushed percentage never decreases as more completions are counted, up to the job count. |
| JobsUi.ProgressUnderestimates | ui.go:216 | Short of completion, dividing before multiplying gives at most the exact ratio. It falls short by less than one point per completion. |
| JobsUi.ProgressExactWhenCountDivides | ui.go:216 | When the job count divides 100, every pushed percentage is the exact ratio. |
| JobsUi.ProgressStallsBeyondHundredJobs | ui.go:216 | With more than 100 jobs, the percentage stays 0 until the last completion. |
| JobsUi.ProgressOvershoots | ui.go:212-216 | Completions are counted per report, not per job. With more reports than jobs, the percentage exceeds 100 whenever the job count divides 100. |
| JobsUi.ProgressRegressesPastCompletion | ui.go:212-216 | Past completion the bar can move backwards. With more than 50 jobs (other than 99 or 100), the report after the last job pushes less than the 100 pushed before it: with 51 jobs, 52. |
| JobsUi.AddKeepsConsistent | ui.go:95-102 | Registering a job keeps every registered label up to date, including when an existing name is overwritten. |
| JobsUi.StoreKeepsOthers | ui.go:127-129 | Replacing a registered job's record leaves every other job's label up to date. |
| JobsUi.RelabelRestores | ui.go:202-206 | Redrawing a job's label from its record, with a style its flags back up, makes every label up to date again. |
| JobsUi.WithInfo | ui.go:126-128 | The `"%s : %s"` append (also at ui.go:147-149): the description grows by the message plus 3 characters, or not at all for an empty message. JobsUi.WithInfoKeepsDescription states the contents. |
| JobsUi.WithInfoKeepsDescription | ui.go:126-128 | An info message is appended after `" : "`, so the old description stays a prefix. The description is unchanged exactly when the message is empty. |
| JobsUi.UI.constructor | ui.go:41-89 | A new UI has no jobs and no labels, and no completion counted. The progress bar shows 0 and the status bar shows the text for progress 0. |
| JobsUi.UI.AddJob | ui.go:95-103 | Stores a new job under the name and appends a blank-status label for it. The name now points at that label. The job count grows by one unless the name was already registered. The counters and status texts do not change. |
| JobsUi.UI.UpdateJob | ui.go:192-208 | Takes any style but the normal one, which no caller passes. Unknown name: the not-found error and no change. Otherwise only the job's label changes, to the given style and the job's current description, and the invariant is restored. |
| JobsUi.UI.SetProgress | ui.go:178-183 | The progress bar shows the value and the status bar's permanent text is the text for it. Nothing else changes. |
| JobsUi.UI.SetStatus | ui.go:186-190 | Only the status bar's temporary text changes. |
| JobsUi.UI.IncreaseProgress | ui.go:210-219 | Counts one more completion and pushes the percentage for it out of the registered job count. The percentage is exactly 100 when the two are equal. Registry and labels do not change. |
| JobsUi.UI.SetJobDisabled | ui.go:108-116 | Unknown name: the not-found error and no change. Otherwise no job record changes, the label is drawn disabled, and one more completion is counted and pushed. |
| JobsUi.UI.SetJobFailedText | ui.go:121-132 | Unknown name: the not-found error and no change. Otherwise the message is appended to the description, only the error flag is set, and the label is drawn failed with the new description. Counters are untouched. |
| JobsUi.UI.SetJobFailed | ui.go:135-137 | As the previous row with no message: only the error flag changes and the label is drawn failed. |
| JobsUi.UI.SetJobDoneText | ui.go:142-154 | Unknown name: the not-found error and no change. Otherwise the message is appended, only the done flag is set, and the label is drawn done. One more completion is counted and pushed. |
| JobsUi.UI.SetJobDone | ui.go:157-159 | As the previous row with no message. |
| JobsUi.UI.SetJobActive | ui.go:164-173 | Unknown name: the not-found error and no change. Otherwise only the active flag is set and the label is drawn active. Counters are untouched. |
| Scenarios.ActivateThenFinish | example/main.go:14-19 | Making a registered job active and then done pushes the percentage for one more completion. The invariant, the key set and the job count are kept. |
| Scenarios.RegisterPair | example/main.go:9-10 | Registering two new distinct names grows the registry by exactly those two. |
| Scenarios.RegisterFourJobs | example/main.go:8-12 | A fresh UI with four distinctly named jobs has four jobs and no completion counted. |
| Scenarios.FinishPair | example/main.go:19-24 | Two jobs finished in turn push the percentages for the next two completions. |
| Scenarios.FourJobsInTurn | example/main.go:8-34 | Four jobs finished in turn push 25, 50, 75 and exactly 100, and the status bar ends on `"Progress: 100 %"`. |
| Scenarios.FailedThenDone | job.go:6-8 | A job failed with a message and then done carries both flags and keeps the message. It is drawn in the done style and counts as a completion. |
| Scenarios.DoneTwice | ui.go:210-219 | Reporting the only job done twice pushes 100 and then 200. |
| Scenarios.UnknownName | ui.go:142-146 | A never-registered name gets the not-found error and counts nothing. A registered name succeeds. |

## Left out

- Theme, widget construction, `tui.New` and the process exit on its failure (ui.go:26-59): these are toolkit calls.
  - The model records only their observable starting values: empty registry, progress 0, `"Progress: 0 %"`.
- Keybindings and the scroll position (ui.go:61-78): input handling owned by the toolkit.
- The render goroutine and the asynchrony of `UIInternal.Update` (ui.go:83-87, 179-182, 187-189, 203-206).
  - Each queued update is applied at once.
  - Interleavings with the render loop, and concurrent calls from several goroutines, are not modelled.
- JobsUi.UI.UpdateJob: does not model the "couldn't find job widget named" branch (ui.go:198-201).
  - The invariant rules it out: every registered name has a label.
  - Every caller ignores the error anyway.
- A label is held as the style and description it was drawn with. Its text (`Label.Text`) is derived from the two.
- Labels left behind when a name is registered again stay in the jobs box. The methods' contracts keep them exactly as they were drawn, but the invariant `Valid()` says nothing about them.
- `Job` is a value, and the registry is `map<string, Job>`.
  - The source stores `*Job` pointers in an exported map, so a client holding one could mutate a job behind the UI's back.
  - That aliasing is not modelled.
- `strings.ToUpper` is modelled on ASCII letters only. Like Go's fmt, `%8s` counts code points; the terminal display width of a character is not considered.
- `JobsDone` and the percentage are unbounded integers; overflow is not modelled.
  - The percentage `100 / n * k` is a Go `int`, 64 or 32 bits depending on the target.
  - With at most 100 jobs it wraps once `k` exceeds the int maximum divided by `100 / n`: with one job, after about 9.2×10^16 reports on 64-bit targets and about 2.1×10^7 on 32-bit targets.
  - With more than 100 jobs the quotient is 0 and the product never wraps; `JobsDone++` itself wraps at the int maximum.
- Scenarios.FourJobsInTurn: leaves out the demo's sleeps, goroutine, blocking channel and final status call (example/main.go:16-39).
  - The demo also calls `NewUi`, `setProgress` and `setStatus`, which the library does not define.
  - The scenario uses the library's `UI` constructor, `AddJob`, `SetJobActive` and `SetJobDone`.
- The progress formula follows the code: `100 / n * k`, truncating the quotient first, and exactly 100 when `k == n`.
  - The `(100 * k) / n` ordering, clamping of progress values, per-job progress values and a completion signal are described for other revisions of the library.
  - None of them is in this revision's code, so none is modelled.
- JobsUi.UI.UpdateJob: does not model a redraw in the normal style. No caller passes "normal". The source would draw `"[  NORMAL] "`, while a `Label` in the normal style shows the blank column of a new job.
