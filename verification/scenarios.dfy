/** Runs of the UI as a client drives it, with what the specifications of
    its operations let a caller conclude. */
module Scenarios {
  import opened JobRecord
  import opened UiText
  import opened JobsUi

  /** Makes a registered job active and then done, as the example program
      does for each of its jobs, and returns the progress pushed: that of
      one more completion out of the registered count. */
  method ActivateThenFinish(ui: UI, name: string, reported: nat, count: nat) returns (pushed: int)
    requires ui.Valid() && name in ui.jobs
    requires ui.jobsDone == reported && |ui.jobs| == count
    modifies ui
    ensures ui.Valid() && ui.jobs.Keys == old(ui.jobs.Keys) && |ui.jobs| == count
    ensures ui.jobsDone == reported + 1
    ensures pushed == ui.progress == ProgressPercent(reported + 1, count)
    ensures ui.permanentText == PrepareProgressText(pushed)
  {
    var err := ui.SetJobActive(name);
    err := ui.SetJobDone(name);
    pushed := ui.progress;
  }

  /** Two jobs of new, distinct names registered with the same description. */
  method RegisterPair(ui: UI, a: string, b: string, description: string)
    requires ui.Valid() && a != b && a !in ui.jobs && b !in ui.jobs
    modifies ui
    ensures ui.Valid() && ui.jobsDone == old(ui.jobsDone)
    ensures ui.jobs.Keys == old(ui.jobs.Keys) + {a, b}
    ensures |ui.jobs| == old(|ui.jobs|) + 2
  {
    ui.AddJob(a, description);
    ui.AddJob(b, description);
  }

  /** A fresh UI with four jobs of distinct names registered, as the example
      program starts. */
  method RegisterFourJobs(a: string, b: string, c: string, d: string, description: string) returns (ui: UI)
    requires a != b && a != c && a != d && b != c && b != d && c != d
    ensures fresh(ui) && ui.Valid()
    ensures a in ui.jobs && b in ui.jobs && c in ui.jobs && d in ui.jobs
    ensures |ui.jobs| == 4 && ui.jobsDone == 0
  {
    ui := new UI();
    RegisterPair(ui, a, b, description);
    RegisterPair(ui, c, d, description);
  }

  /** Two registered jobs made active and done one after the other. */
  method FinishPair(ui: UI, first: string, second: string, reported: nat, count: nat)
    returns (firstPushed: int, secondPushed: int)
    requires ui.Valid() && first in ui.jobs && second in ui.jobs
    requires ui.jobsDone == reported && |ui.jobs| == count
    modifies ui
    ensures ui.Valid() && ui.jobs.Keys == old(ui.jobs.Keys) && |ui.jobs| == count
    ensures ui.jobsDone == reported + 2
    ensures firstPushed == ProgressPercent(reported + 1, count)
    ensures secondPushed == ui.progress == ProgressPercent(reported + 2, count)
    ensures ui.permanentText == PrepareProgressText(secondPushed)
  {
    firstPushed := ActivateThenFinish(ui, first, reported, count);
    secondPushed := ActivateThenFinish(ui, second, reported + 1, count);
  }

  /** Four jobs registered, then each made active and done in turn, as the
      example program does: the progress bar reads 25, 50, 75 and then
      exactly 100, and the status bar ends on "Progress: 100 %". */
  method FourJobsInTurn() returns (pushed: seq<int>, statusBar: string)
    ensures pushed == [25, 50, 75, 100]
    ensures statusBar == "Progress: 100 %"
  {
    var ui := RegisterFourJobs("jobA", "jobB", "jobC", "jobD", "This is simple job description");
    var a, b := FinishPair(ui, "jobA", "jobB", 0, 4);
    assert a == 25 && b == 50;
    var c, d := FinishPair(ui, "jobC", "jobD", 2, 4);
    assert c == 75 && d == 100;
    pushed := [a, b, c, d];
    statusBar := ui.permanentText;
    CompleteProgressText();
  }

  /** The three flags are independent: a job reported failed and then done
      carries both flags, its description keeps the failure message, its
      label is drawn in the done style with that description (so it reads
      "[    DONE] compile : tests failed"), and it counts towards completion. */
  method FailedThenDone() returns (job: Job, drawn: Label, progress: int)
    ensures job == Job("build", WithInfo("compile", "tests failed"), false, true, true)
    ensures drawn == Label(Done, job.description)
    ensures progress == 100
  {
    var ui := new UI();
    ui.AddJob("build", "compile");
    var err := ui.SetJobFailedText("build", "tests failed");
    err := ui.SetJobDone("build");
    job := ui.jobs["build"];
    drawn := ui.labels[ui.jobLabels["build"]];
    progress := ui.progress;
  }

  /** The finished count counts reports, not jobs: reporting the only job
      done twice pushes 100 and then 200. */
  method DoneTwice() returns (first: int, second: int)
    ensures first == 100 && second == 200
  {
    var ui := new UI();
    ui.AddJob("only", "the only job");
    var err := ui.SetJobDone("only");
    first := ui.progress;
    err := ui.SetJobDone("only");
    second := ui.progress;
  }

  /** A name that was never registered is reported and nothing changes,
      while a registered one is marked active. */
  method UnknownName() returns (missing: Outcome, found: Outcome, doneCount: nat)
    ensures missing == NotFound("jobX")
    ensures found == Ok
    ensures doneCount == 0
  {
    var ui := new UI();
    ui.AddJob("jobA", "first");
    missing := ui.SetJobDone("jobX");
    found := ui.SetJobActive("jobA");
    doneCount := ui.jobsDone;
  }
}
