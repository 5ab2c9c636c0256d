/** The job-tracking state of the terminal UI: the registry of jobs by name,
    the label shown for each job in the jobs box, the count of finished jobs
    and the overall progress pushed to the progress bar and status bar. */
module JobsUi {
  import opened JobRecord
  import opened UiText

  // ---------------------------------------------------------------------
  // Styles and labels
  // ---------------------------------------------------------------------

  /** The label styles of the theme. */
  datatype Style = Normal | Disabled | Failed | Done | Active

  function StyleName(s: Style): (r: string)
  {
    match s
    case Normal => "normal"
    case Disabled => "disabled"
    case Failed => "failed"
    case Done => "done"
    case Active => "active"
  }

  /** The word shown in a label's status column: blank for a new job, the
      style name once the job's state has been set. */
  function StatusWord(s: Style): (r: string)
  {
    if s == Normal then "" else StyleName(s)
  }

  /** The text of the label of a job with the given style and description. */
  function JobLine(s: Style, description: string): (r: string)
    ensures |r| > |description| && r[|r| - |description|..] == description
  {
    PrepareJobDescription(StatusWord(s), description)
  }

  /** A label in the jobs box, held as the style and the description it was
      last drawn with; its text is the job line made from the two. */
  datatype Label = Label(style: Style, description: string) {
    function Text(): (r: string)
    {
      JobLine(style, description)
    }
  }

  /** The label's style is backed by the job's flags: a new-looking label
      belongs to a job with no flag set, and an active, failed or done label
      to a job with that flag set. */
  predicate StyleAgrees(s: Style, j: Job)
  {
    match s
    case Normal => !j.active && !j.error && !j.done
    case Disabled => true
    case Failed => j.error
    case Done => j.done
    case Active => j.active
  }

  /** The status column of every label fits the eight-character column, and
      the label texts can be read back. */
  lemma JobLineReadBack(s: Style, description: string)
    ensures |JobLine(s, description)| == StatusWidth + 3 + |description|
    ensures ParseJobLine(JobLine(s, description)) == Some((Upper(StatusWord(s)), description))
    ensures s == Normal ==> JobLine(s, description) == "[        ] " + description
  {
    var w := StatusWord(s);
    assert |w| <= StatusWidth && (w == [] || w[0] != ' ');
    JobLineLayout(w, description);
    JobLineRoundTrip(w, description);
    if s == Normal {
      BlankStatusLine(description);
    }
  }

  /** The label of a done job. */
  lemma DoneLine(description: string)
    ensures JobLine(Done, description) == "[    DONE] " + description
  {
    assert Upper("done") == "DONE" by {
      assert UpperChar('d') == 'D' && UpperChar('o') == 'O';
      assert UpperChar('n') == 'N' && UpperChar('e') == 'E';
    }
    assert LeftPad("DONE", StatusWidth) == "    DONE";
  }

  // ---------------------------------------------------------------------
  // Errors
  // ---------------------------------------------------------------------

  /** What an operation on a named job returns: nothing, or an error. */
  datatype Outcome = Ok | Err(message: string)

  /** The error for a name that was never registered. */
  function NotFound(name: string): (r: Outcome)
    ensures r.Err? && |r.message| > |name| && r.message[|r.message| - |name|..] == name
  {
    Err("couldn't find job named " + name)
  }

  // ---------------------------------------------------------------------
  // Overall progress
  // ---------------------------------------------------------------------

  /** The overall percentage pushed when `done` of `count` jobs have been
      reported finished: exactly 100 when the two are equal, otherwise 100
      divided by the job count (truncated) times the finished count. */
  function ProgressPercent(done: nat, count: nat): (r: int)
    requires count > 0
    ensures r >= 0
    ensures done == count ==> r == 100
  {
    if done == count then 100 else 100 / count * done
  }

  lemma MulLeft(a: nat, b: nat, c: nat)
    requires b <= c
    ensures a * b <= a * c
  {
  }

  /** While no more jobs are reported finished than there are, the
      percentage lies between 0 and 100. */
  lemma ProgressWithinBounds(done: nat, count: nat)
    requires 0 < count && done <= count
    ensures 0 <= ProgressPercent(done, count) <= 100
  {
    if done < count {
      MulLeft(100 / count, done, count);
      assert 100 / count * count <= 100;
    }
  }

  /** The percentage never goes down as more jobs are reported finished. */
  lemma ProgressMonotone(d1: nat, d2: nat, count: nat)
    requires 0 < count && d1 <= d2 <= count
    ensures ProgressPercent(d1, count) <= ProgressPercent(d2, count)
  {
    ProgressWithinBounds(d1, count);
    if d2 < count {
      MulLeft(100 / count, d1, d2);
    }
  }

  /** Short of completion the percentage is the exact ratio truncated, less
      than one point per finished job below it: dividing before multiplying
      loses up to `done` points. */
  lemma ProgressUnderestimates(done: nat, count: nat)
    requires 0 < done < count
    ensures ProgressPercent(done, count) * count <= 100 * done
    ensures 100 * done < (ProgressPercent(done, count) + done) * count
  {
    var q, r := 100 / count, 100 % count;
    assert 100 == q * count + r && r < count;
    assert 100 * done == q * count * done + r * done;
    MulLeft(done, r, count);
    assert r * done < count * done by {
      assert done * r < done * count;
    }
  }

  /** When the job count divides 100 every step is exact. */
  lemma ProgressExactWhenCountDivides(done: nat, count: nat)
    requires 0 < count && 100 % count == 0 && done <= count
    ensures ProgressPercent(done, count) * count == 100 * done
  {
    var q := 100 / count;
    assert q * count == 100;
    assert q * done * count == q * count * done;
  }

  /** With more than 100 jobs the truncated quotient is zero, so the
      percentage stays at 0 until the very last job is reported. */
  lemma ProgressStallsBeyondHundredJobs(done: nat, count: nat)
    requires count > 100 && done != count
    ensures ProgressPercent(done, count) == 0
  {
    assert 100 / count == 0;
  }

  /** The finished count is a count of reports, not of jobs: reporting more
      completions than there are jobs pushes a value above 100 whenever the
      job count divides 100. */
  lemma ProgressOvershoots(done: nat, count: nat)
    requires 0 < count && 100 % count == 0 && done > count
    ensures ProgressPercent(done, count) > 100
  {
    var q := 100 / count;
    assert q * count == 100 && q >= 1;
    assert q * done > q * count;
  }

  /** Past completion the percentage can also go back down: with more than
      50 jobs the quotient is at most 1, so the report after the last job
      (which pushed 100) pushes at most the job count plus one, below 100
      unless there are 99 or 100 jobs. With 51 jobs it falls from 100 to 52. */
  lemma ProgressRegressesPastCompletion(count: nat)
    requires 50 < count && count != 99 && count != 100
    ensures ProgressPercent(count, count) == 100
    ensures ProgressPercent(count + 1, count) < 100
    ensures count == 51 ==> ProgressPercent(count + 1, count) == 52
  {
    if count <= 100 {
      assert 100 / count == 1;
    } else {
      assert 100 / count == 0;
    }
  }

  // ---------------------------------------------------------------------
  // Registry and jobs box, as values
  // ---------------------------------------------------------------------

  /** The registry and the labels fit together: exactly the registered
      names have a label position, every position is in the jobs box, no two
      names share a label, and every record carries the name it is
      registered under. */
  ghost predicate WellFormed(jobs: map<string, Job>, labels: seq<Label>, jobLabels: map<string, nat>)
  {
    && (forall n {:trigger jobLabels[n]} :: n in jobLabels ==> n in jobs && jobLabels[n] < |labels|)
    && (forall n, m {:trigger jobLabels[n], jobLabels[m]} ::
          n in jobLabels && m in jobLabels && n != m ==> jobLabels[n] != jobLabels[m])
    && jobs.Keys <= jobLabels.Keys
    && (forall n {:trigger jobs[n]} :: n in jobs ==> jobs[n].name == n)
  }

  /** The label of job `n` shows the job's current description under a
      style that its flags back up. */
  ghost predicate LabelShows(jobs: map<string, Job>, labels: seq<Label>, jobLabels: map<string, nat>, n: string)
  {
    && n in jobs && n in jobLabels && jobLabels[n] < |labels|
    && labels[jobLabels[n]].description == jobs[n].description
    && StyleAgrees(labels[jobLabels[n]].style, jobs[n])
  }

  /** Well formed, and every label but possibly the one of `skip` is up to date. */
  ghost predicate ConsistentExcept(jobs: map<string, Job>, labels: seq<Label>, jobLabels: map<string, nat>, skip: string)
  {
    && WellFormed(jobs, labels, jobLabels)
    && forall n {:trigger LabelShows(jobs, labels, jobLabels, n)} ::
         n in jobs && n != skip ==> LabelShows(jobs, labels, jobLabels, n)
  }

  /** Well formed, and every label is up to date. */
  ghost predicate Consistent(jobs: map<string, Job>, labels: seq<Label>, jobLabels: map<string, nat>)
  {
    && WellFormed(jobs, labels, jobLabels)
    && forall n {:trigger LabelShows(jobs, labels, jobLabels, n)} ::
         n in jobs ==> LabelShows(jobs, labels, jobLabels, n)
  }

  /** Registering a job, even under a name already in use, keeps the
      registry and the jobs box consistent. */
  lemma AddKeepsConsistent(jobs: map<string, Job>, labels: seq<Label>, jobLabels: map<string, nat>,
                           name: string, description: string)
    requires Consistent(jobs, labels, jobLabels)
    ensures Consistent(jobs[name := NewJob(name, description)],
                       labels + [Label(Normal, description)],
                       jobLabels[name := |labels|])
  {
    var jobs', labels', jobLabels' := jobs[name := NewJob(name, description)],
      labels + [Label(Normal, description)], jobLabels[name := |labels|];
    forall n | n in jobs'
      ensures LabelShows(jobs', labels', jobLabels', n)
    {
      if n != name {
        assert LabelShows(jobs, labels, jobLabels, n);
        assert labels'[jobLabels'[n]] == labels[jobLabels[n]];
      }
    }
  }

  /** Storing a new record for a registered job leaves every other label up to date. */
  lemma StoreKeepsOthers(jobs: map<string, Job>, labels: seq<Label>, jobLabels: map<string, nat>,
                         name: string, job: Job)
    requires Consistent(jobs, labels, jobLabels)
    requires name in jobs && job.name == name
    ensures ConsistentExcept(jobs[name := job], labels, jobLabels, name)
  {
    var jobs' := jobs[name := job];
    forall n | n in jobs' && n != name
      ensures LabelShows(jobs', labels, jobLabels, n)
    {
      assert LabelShows(jobs, labels, jobLabels, n);
    }
  }

  /** Redrawing the label of `name` from its record, under a style the
      record backs up, makes every label up to date again. */
  lemma RelabelRestores(jobs: map<string, Job>, labels: seq<Label>, jobLabels: map<string, nat>,
                        name: string, style: Style)
    requires ConsistentExcept(jobs, labels, jobLabels, name)
    requires name in jobs && StyleAgrees(style, jobs[name])
    ensures Consistent(jobs, labels[jobLabels[name] := Label(style, jobs[name].description)], jobLabels)
  {
    var i := jobLabels[name];
    var labels' := labels[i := Label(style, jobs[name].description)];
    forall n | n in jobs
      ensures LabelShows(jobs, labels', jobLabels, n)
    {
      if n != name {
        assert LabelShows(jobs, labels, jobLabels, n);
        assert jobLabels[n] != i;
        assert labels'[jobLabels[n]] == labels[jobLabels[n]];
      }
    }
  }

  // ---------------------------------------------------------------------
  // The UI object
  // ---------------------------------------------------------------------

  class UI {
    /** The registry: job name to job record. */
    var jobs: map<string, Job>
    /** The labels of the jobs box, top to bottom, one per registration. */
    var labels: seq<Label>
    /** For each registered name, the position of its current label. */
    var jobLabels: map<string, nat>
    /** How many completions (done or disabled) have been reported. */
    var jobsDone: nat
    /** The value shown by the progress bar. */
    var progress: int
    /** The permanent text of the status bar. */
    var permanentText: string
    /** The temporary text of the status bar. */
    var statusText: string

    ghost predicate Valid()
      reads this
    {
      Consistent(jobs, labels, jobLabels)
    }

    /** A UI with no jobs, the progress bar at 0 and the status bar showing
        "Progress: 0 %". */
    constructor ()
      ensures Valid()
      ensures jobs == map[] && labels == [] && jobLabels == map[] && jobsDone == 0
      ensures progress == 0 && permanentText == PrepareProgressText(0) && statusText == ""
    {
      jobs := map[];
      labels := [];
      jobLabels := map[];
      jobsDone := 0;
      progress := 0;
      permanentText := "Progress: 0 %";
      statusText := "";
      InitialProgressText();
    }

    /** Registers a job under `name` (replacing any job of that name) and
        appends a blank-status label for it to the jobs box. */
    method AddJob(name: string, description: string)
      requires Valid()
      modifies this
      ensures Valid()
      ensures jobs == old(jobs)[name := NewJob(name, description)]
      ensures labels == old(labels) + [Label(Normal, description)]
      ensures jobLabels == old(jobLabels)[name := |old(labels)|]
      ensures |jobs| == if name in old(jobs) then |old(jobs)| else |old(jobs)| + 1
      ensures jobsDone == old(jobsDone) && progress == old(progress)
      ensures permanentText == old(permanentText) && statusText == old(statusText)
    {
      AddKeepsConsistent(jobs, labels, jobLabels, name, description);
      jobs := jobs[name := NewJob(name, description)];
      jobLabels := jobLabels[name := |labels|];
      labels := labels + [Label(Normal, description)];
    }

    /** Redraws the label of job `name` with the given style and the job's
        current description. Only that label changes. */
    method UpdateJob(name: string, style: Style) returns (err: Outcome)
      requires ConsistentExcept(jobs, labels, jobLabels, name)
      requires name in jobs ==> StyleAgrees(style, jobs[name])
    requires style != Normal
      modifies this
      ensures jobs == old(jobs) && jobLabels == old(jobLabels) && jobsDone == old(jobsDone)
      ensures progress == old(progress) && permanentText == old(permanentText) && statusText == old(statusText)
      ensures name !in jobs ==> err == NotFound(name) && unchanged(this)
      ensures name in jobs ==>
        && err == Ok
        && labels == old(labels)[jobLabels[name] := Label(style, jobs[name].description)]
        && Valid()
    {
      if name !in jobs {
        return NotFound(name);
      }
      RelabelRestores(jobs, labels, jobLabels, name, style);
      labels := labels[jobLabels[name] := Label(style, jobs[name].description)];
      err := Ok;
    }

    /** Pushes an overall progress value to the progress bar and its text to
        the status bar. */
    method SetProgress(value: int)
      modifies this
      ensures progress == value && permanentText == PrepareProgressText(value)
      ensures jobs == old(jobs) && labels == old(labels) && jobLabels == old(jobLabels)
      ensures jobsDone == old(jobsDone) && statusText == old(statusText)
    {
      progress := value;
      permanentText := PrepareProgressText(value);
    }

    /** Sets the temporary status-bar text. */
    method SetStatus(text: string)
      modifies this
      ensures statusText == text
      ensures jobs == old(jobs) && labels == old(labels) && jobLabels == old(jobLabels)
      ensures jobsDone == old(jobsDone) && progress == old(progress) && permanentText == old(permanentText)
    {
      statusText := text;
    }

    /** Counts one more completion and pushes the resulting percentage.
        Only reached after a job was found, so the registry is not empty. */
    method IncreaseProgress()
      requires |jobs| > 0
      modifies this
      ensures jobs == old(jobs) && labels == old(labels) && jobLabels == old(jobLabels)
      ensures statusText == old(statusText)
      ensures jobsDone == old(jobsDone) + 1
      ensures progress == ProgressPercent(jobsDone, |jobs|)
      ensures permanentText == PrepareProgressText(progress)
    {
      var jobsCount := |jobs|;
      jobsDone := jobsDone + 1;
      if jobsDone == jobsCount {
        SetProgress(100);
      } else {
        var progressValue := 100 / jobsCount * jobsDone;
        SetProgress(progressValue);
      }
    }

    /** Marks job `name` disabled: its label shows DISABLED and one more
        completion is counted; no flag of the job changes. */
    method SetJobDisabled(name: string) returns (err: Outcome)
      requires Valid()
      modifies this
      ensures Valid()
      ensures name !in old(jobs) ==> err == NotFound(name) && unchanged(this)
      ensures name in old(jobs) ==>
        && err == Ok
        && jobs == old(jobs) && jobLabels == old(jobLabels)
        && labels == old(labels)[jobLabels[name] := Label(Disabled, jobs[name].description)]
        && jobsDone == old(jobsDone) + 1
        && progress == ProgressPercent(jobsDone, |jobs|)
        && permanentText == PrepareProgressText(progress)
        && statusText == old(statusText)
    {
      if name !in jobs {
        return NotFound(name);
      }
      var _ := UpdateJob(name, Disabled);
      IncreaseProgress();
      err := Ok;
    }

    /** Marks job `name` failed: a non-empty message is appended to its
        description after " : ", its error flag is set and its label shows
        FAILED. Nothing is counted. */
    method SetJobFailedText(name: string, message: string) returns (err: Outcome)
      requires Valid()
      modifies this
      ensures Valid()
      ensures name !in old(jobs) ==> err == NotFound(name) && unchanged(this)
      ensures name in old(jobs) ==>
        && err == Ok
        && jobs == old(jobs)[name := old(jobs)[name].(description := WithInfo(old(jobs)[name].description, message), error := true)]
        && jobLabels == old(jobLabels)
        && labels == old(labels)[jobLabels[name] := Label(Failed, jobs[name].description)]
        && jobsDone == old(jobsDone) && progress == old(progress)
        && permanentText == old(permanentText) && statusText == old(statusText)
    {
      if name !in jobs {
        return NotFound(name);
      }
      var job := jobs[name];
      if message != "" {
        job := job.(description := job.description + " : " + message);
      }
      job := job.(error := true);
      StoreKeepsOthers(jobs, labels, jobLabels, name, job);
      jobs := jobs[name := job];
      var _ := UpdateJob(name, Failed);
      err := Ok;
    }

    /** Marks job `name` failed without a message. */
    method SetJobFailed(name: string) returns (err: Outcome)
      requires Valid()
      modifies this
      ensures Valid()
      ensures name !in old(jobs) ==> err == NotFound(name) && unchanged(this)
      ensures name in old(jobs) ==>
        && err == Ok
        && jobs == old(jobs)[name := old(jobs)[name].(error := true)]
        && jobLabels == old(jobLabels)
        && labels == old(labels)[jobLabels[name] := Label(Failed, jobs[name].description)]
        && jobsDone == old(jobsDone) && progress == old(progress)
        && permanentText == old(permanentText) && statusText == old(statusText)
    {
      err := SetJobFailedText(name, "");
    }

    /** Marks job `name` done: a non-empty message is appended to its
        description after " : ", its done flag is set, its label shows DONE
        and one more completion is counted. */
    method SetJobDoneText(name: string, message: string) returns (err: Outcome)
      requires Valid()
      modifies this
      ensures Valid()
      ensures name !in old(jobs) ==> err == NotFound(name) && unchanged(this)
      ensures name in old(jobs) ==>
        && err == Ok
        && jobs == old(jobs)[name := old(jobs)[name].(description := WithInfo(old(jobs)[name].description, message), done := true)]
        && jobLabels == old(jobLabels)
        && labels == old(labels)[jobLabels[name] := Label(Done, jobs[name].description)]
        && jobsDone == old(jobsDone) + 1
        && progress == ProgressPercent(jobsDone, |jobs|)
        && permanentText == PrepareProgressText(progress)
        && statusText == old(statusText)
    {
      if name !in jobs {
        return NotFound(name);
      }
      var job := jobs[name];
      if message != "" {
        job := job.(description := job.description + " : " + message);
      }
      job := job.(done := true);
      StoreKeepsOthers(jobs, labels, jobLabels, name, job);
      jobs := jobs[name := job];
      var _ := UpdateJob(name, Done);
      IncreaseProgress();
      err := Ok;
    }

    /** Marks job `name` done without a message. */
    method SetJobDone(name: string) returns (err: Outcome)
      requires Valid()
      modifies this
      ensures Valid()
      ensures name !in old(jobs) ==> err == NotFound(name) && unchanged(this)
      ensures name in old(jobs) ==>
        && err == Ok
        && jobs == old(jobs)[name := old(jobs)[name].(done := true)]
        && jobLabels == old(jobLabels)
        && labels == old(labels)[jobLabels[name] := Label(Done, jobs[name].description)]
        && jobsDone == old(jobsDone) + 1
        && progress == ProgressPercent(jobsDone, |jobs|)
        && permanentText == PrepareProgressText(progress)
        && statusText == old(statusText)
    {
      err := SetJobDoneText(name, "");
    }

    /** Marks job `name` active: only its active flag is set and its label
        shows ACTIVE. Nothing is counted. */
    method SetJobActive(name: string) returns (err: Outcome)
      requires Valid()
      modifies this
      ensures Valid()
      ensures name !in old(jobs) ==> err == NotFound(name) && unchanged(this)
      ensures name in old(jobs) ==>
        && err == Ok
        && jobs == old(jobs)[name := old(jobs)[name].(active := true)]
        && jobLabels == old(jobLabels)
        && labels == old(labels)[jobLabels[name] := Label(Active, jobs[name].description)]
        && jobsDone == old(jobsDone) && progress == old(progress)
        && permanentText == old(permanentText) && statusText == old(statusText)
    {
      if name !in jobs {
        return NotFound(name);
      }
      var job := jobs[name].(active := true);
      StoreKeepsOthers(jobs, labels, jobLabels, name, job);
      jobs := jobs[name := job];
      var _ := UpdateJob(name, Active);
      err := Ok;
    }
  }

  /** A description with an info message appended after " : "; an empty
      message leaves it as it was. */
  function WithInfo(description: string, message: string): (r: string)
    ensures |r| == if message == "" then |description| else |description| + 3 + |message|
  {
    if message == "" then description else description + " : " + message
  }

  /** Appending a message keeps the old description as a prefix and the
      message readable at the end; the empty message changes nothing. */
  lemma WithInfoKeepsDescription(description: string, message: string)
    ensures message == "" <==> WithInfo(description, message) == description
    ensures message != "" ==>
      && WithInfo(description, message)[..|description|] == description
      && WithInfo(description, message)[|description|..] == " : " + message
  {
    if message != "" {
      assert |WithInfo(description, message)| > |description|;
    }
  }
}
