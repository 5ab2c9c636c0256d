/** The record kept for each registered job. */
module JobRecord {

  /** One job: the name it is looked up by, the text shown for it, and three
      status flags that are set independently of each other (a job can be
      both failed and done). */
  datatype Job = Job(name: string, description: string, active: bool, error: bool, done: bool)

  /** A job as first registered: it keeps the given name and description
      and none of its flags is set. */
  function NewJob(name: string, description: string): (j: Job)
    ensures j.name == name
    ensures j.description == description
    ensures !j.active && !j.error && !j.done
  {
    Job(name, description, false, false, false)
  }
}
