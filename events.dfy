/** What a decoded `(cmd, payload)` event hands to each branch of gui_update. */
module Events {
  import opened Text
  import opened Jobs
  import opened Disks

  /** A decoded payload. A JSON array is a list of job records or a list of
      disk records; `Empty` is the empty object `{}` or an empty text that
      did not decode; `Other` is any other value (an object without those
      keys, non-empty text that did not decode). */
  datatype Payload =
    | Single(job: JobRecord)
    | JobList(jobs: seq<JobRecord>)
    | DiskList(disks: seq<DiskRecord>)
    | Empty
    | Other

  /** A value of length 0: the empty JSON array, whichever list it was
      decoded as, the empty object or the empty text. Iterating over it runs
      no pass and `len` of it is 0. */
  predicate IsEmptyValue(p: Payload) {
    p == JobList([]) || p == DiskList([]) || p.Empty?
  }

  /** The records the newer front-end's queue branch loops over: a
      `queue_status` object is wrapped into a one-element list, a `get_queue`
      list is taken as it is. Any other shape raises (indexing a list or a
      key string by "id") before a cell is touched: None. */
  function PinoloQueueBatch(cmd: string, p: Payload): (r: Option<seq<JobRecord>>)
    ensures cmd == "queue_status" ==> (r.Some? <==> p.Single?)
    ensures cmd == "queue_status" && p.Single? ==> r == Some([p.job])
    ensures cmd == "get_queue" ==> (r.Some? <==> p.JobList? || IsEmptyValue(p))
    ensures cmd == "get_queue" && r.Some? ==> r.value == if p.JobList? then p.jobs else []
    ensures cmd != "queue_status" && cmd != "get_queue" ==> r.None?
  {
    if cmd == "queue_status" then
      (match p case Single(job) => Some([job]) case _ => None)
    else if cmd == "get_queue" then
      (match p
       case JobList(jobs) => Some(jobs)
       case DiskList(ds) => if ds == [] then Some([]) else None
       case Empty => Some([])
       case _ => None)
    else None
  }

  /** The record the older front-end's `queue_status` branch reads (it does
      not wrap or loop). */
  function PestoQueueRecord(cmd: string, p: Payload): (r: Option<JobRecord>)
    ensures r.Some? <==> cmd == "queue_status" && p.Single?
    ensures r.Some? ==> r.value == p.job
  {
    if cmd == "queue_status" && p.Single? then Some(p.job) else None
  }

  /** The records the `get_disks` branch reads; any other shape raises before
      the table is touched: None. */
  function DiskBatch(p: Payload): (r: Option<seq<DiskRecord>>)
    ensures r.Some? <==> p.DiskList? || IsEmptyValue(p)
    ensures r.Some? ==> r.value == if p.DiskList? then p.disks else []
  {
    match p
    case DiskList(ds) => Some(ds)
    case JobList(jobs) => if jobs == [] then Some([]) else None
    case Empty => Some([])
    case _ => None
  }
}
