/**
 * The two write-side request handlers: posting a job (`POST /hire`) and
 * applying to one (`POST /apply`). The clock reading behind the new id and the
 * relative-time label are parameters.
 */
module Workflows {
  import opened Wrappers
  import opened JsText
  import opened Listings

  // ---------------------------------------------------------------------------
  // POST /hire

  /** The fields of the posting form, each possibly absent. */
  datatype HireForm = HireForm(
    title: Option<string>,
    location: Option<string>,
    pay: Option<string>,
    tags: Option<string>,
    duration: Option<string>,
    description: Option<string>)

  /** Either the form is re-shown with "Please fill properly." or the job is built. */
  datatype HireOutcome = IncompleteForm | Built(job: JobRecord)

  /** The duration shown when the form leaves it out. */
  const UnspecifiedDuration := "Not specified"

  /** The id `Job-${Date.now()}` for a clock reading `now`, in milliseconds. */
  function NewJobId(now: nat): (id: string)
    ensures |id| > 4 && id[..4] == "Job-" && id[4..] == DecimalString(now)
  {
    "Job-" + DecimalString(now)
  }

  /** Two readings give the same id only when they are equal. */
  lemma NewJobIdInjective(a: nat, b: nat)
    ensures NewJobId(a) == NewJobId(b) <==> a == b
  {
    if NewJobId(a) == NewJobId(b) {
      DecimalInjective(a, b);
    }
  }

  /** No clock reading gives the id of a seed record: the digits after "Job-" never start with 0 when there are two. */
  lemma NewJobIdNotSeed()
    ensures forall now: nat, k :: 0 <= k < |Seed()| ==> NewJobId(now) != Seed()[k].id
  {
    forall now: nat, k | 0 <= k < |Seed()|
      ensures NewJobId(now) != Seed()[k].id
    {
      var digits := DecimalString(now);
      var id := NewJobId(now);
      var seedId := Seed()[k].id;
      assert |seedId| == 6 && seedId[4] == '0';
      if |id| == 6 {
        assert |digits| == 2 && digits[0] == id[4];
      }
    }
  }

  /** `tags ? tags.split(",").map(t => t.trim()) : []` */
  function ParseTags(tags: Option<string>): (r: seq<string>)
    ensures Falsy(tags) ==> r == []
    ensures !Falsy(tags) ==> |r| == |Split(tags.value, ',')| == Count(tags.value, ',') + 1
    ensures !Falsy(tags) ==> forall k :: 0 <= k < |r| ==> r[k] == Trim(Split(tags.value, ',')[k])
  {
    if Falsy(tags) then
      []
    else
      var pieces := Split(tags.value, ',');
      SplitCount(tags.value, ',');
      seq(|pieces|, k requires 0 <= k < |pieces| => Trim(pieces[k]))
  }

  /** A tag as a trimmed piece of a comma-separated list: no comma, no space at either end. */
  predicate CleanTag(t: string) {
    ',' !in t && (t != [] ==> !IsJsSpace(t[0]) && !IsJsSpace(t[|t| - 1]))
  }

  /** Each parsed tag is clean. */
  lemma ParsedTagsClean(tags: Option<string>)
    ensures forall k :: 0 <= k < |ParseTags(tags)| ==> CleanTag(ParseTags(tags)[k])
  {
    var r := ParseTags(tags);
    if !Falsy(tags) {
      var pieces := Split(tags.value, ',');
      forall k | 0 <= k < |r|
        ensures ',' !in r[k]
      {
        var t := Trim(pieces[k]);
        assert t == pieces[k][LeadingSpaces(pieces[k])..LeadingSpaces(pieces[k]) + |t|];
        assert forall i :: 0 <= i < |t| ==> t[i] in pieces[k];
      }
    }
  }

  /** Tags entered without padding and without commas come back exactly as entered. */
  lemma ParseTagsOfCleanList(tags: seq<string>)
    requires |tags| >= 1 && Join(tags, ',') != ""
    requires forall k :: 0 <= k < |tags| ==> CleanTag(tags[k])
    ensures ParseTags(Some(Join(tags, ','))) == tags
  {
    var joined := Join(tags, ',');
    assert Split(joined, ',') == tags by {
      assert forall k :: 0 <= k < |tags| ==> ',' !in tags[k];
      SplitJoin(tags, ',');
    }
    var r := ParseTags(Some(joined));
    assert |r| == |tags|;
    forall k | 0 <= k < |tags|
      ensures r[k] == tags[k]
    {
      ParsedCleanTag(tags, joined, k);
    }
  }

  /** Helper: a clean piece of the split parses to itself. */
  lemma ParsedCleanTag(tags: seq<string>, joined: string, k: nat)
    requires joined != "" && k < |tags|
    requires Split(joined, ',') == tags
    requires CleanTag(tags[k])
    ensures k < |ParseTags(Some(joined))| && ParseTags(Some(joined))[k] == tags[k]
  {
    TrimUnpadded(tags[k]);
  }

  /** A record holds a non-empty title, location and pay. */
  predicate WellFormed(j: JobRecord) {
    j.title != "" && j.location != "" && j.pay != ""
  }

  /**
   * The `POST /hire` handler up to the insertion: the form is rejected when
   * title, location or pay is falsy; otherwise the record is built with the id
   * for `now`, the given `posted` label, the parsed tags and the defaults for
   * duration and description.
   */
  function CreateJob(form: HireForm, now: nat, posted: string): (r: HireOutcome)
    ensures r.IncompleteForm? <==> Falsy(form.title) || Falsy(form.location) || Falsy(form.pay)
    ensures r.Built? ==> WellFormed(r.job)
    ensures r.Built? ==> && Some(r.job.title) == form.title
                         && Some(r.job.location) == form.location
                         && Some(r.job.pay) == form.pay
    ensures r.Built? ==> r.job.id == NewJobId(now) && r.job.posted == posted
    ensures r.Built? ==> r.job.tags == ParseTags(form.tags)
    ensures r.Built? ==> r.job.duration == (if Falsy(form.duration) then UnspecifiedDuration else form.duration.value)
    ensures r.Built? ==> r.job.description == form.description.GetOr("")
  {
    if Falsy(form.title) || Falsy(form.location) || Falsy(form.pay) then
      IncompleteForm
    else
      Built(JobRecord(
        id := NewJobId(now),
        title := form.title.value,
        location := form.location.value,
        pay := form.pay.value,
        tags := ParseTags(form.tags),
        posted := posted,
        duration := if Falsy(form.duration) then UnspecifiedDuration else form.duration.value,
        description := if Falsy(form.description) then "" else form.description.value))
  }

  /** Only emptiness is checked: a title, location and pay of spaces are accepted. */
  lemma BlankFieldsAccepted(now: nat, posted: string)
    ensures CreateJob(HireForm(Some(" "), Some(" "), Some(" "), None, None, None), now, posted).Built?
  {
  }

  // ---------------------------------------------------------------------------
  // Histories of posts

  /** One submission of the posting form, with the clock reading and label it got. */
  datatype PostRequest = PostRequest(form: HireForm, now: nat, posted: string)

  /** The store after one posting request: the built record in front, or nothing new. */
  function Step(jobs: seq<JobRecord>, p: PostRequest): (next: seq<JobRecord>)
    ensures CreateJob(p.form, p.now, p.posted).IncompleteForm? ==> next == jobs
    ensures CreateJob(p.form, p.now, p.posted).Built? ==> next == [CreateJob(p.form, p.now, p.posted).job] + jobs
  {
    match CreateJob(p.form, p.now, p.posted)
    case Built(job) => [job] + jobs
    case IncompleteForm => jobs
  }

  /** The store after handling `posts` in order, starting from `jobs`. */
  function Replay(jobs: seq<JobRecord>, posts: seq<PostRequest>): (r: seq<JobRecord>)
    ensures |jobs| <= |r| <= |jobs| + |posts|
    decreases |posts|
  {
    if posts == [] then jobs else Replay(Step(jobs, posts[0]), posts[1..])
  }

  /** Every accepted post adds exactly one record: N accepted posts grow the store by N. */
  lemma {:induction false} ReplayAllAccepted(jobs: seq<JobRecord>, posts: seq<PostRequest>)
    requires forall m :: 0 <= m < |posts| ==> CreateJob(posts[m].form, posts[m].now, posts[m].posted).Built?
    ensures |Replay(jobs, posts)| == |jobs| + |posts|
    decreases |posts|
  {
    if posts != [] {
      assert forall m :: 0 <= m < |posts| - 1 ==> posts[1..][m] == posts[m + 1];
      ReplayAllAccepted(Step(jobs, posts[0]), posts[1..]);
    }
  }

  /** Rejected posts change nothing: a history of them leaves the store as it was. */
  lemma {:induction false} ReplayAllRejected(jobs: seq<JobRecord>, posts: seq<PostRequest>)
    requires forall m :: 0 <= m < |posts| ==> CreateJob(posts[m].form, posts[m].now, posts[m].posted).IncompleteForm?
    ensures Replay(jobs, posts) == jobs
    decreases |posts|
  {
    if posts != [] {
      assert forall m :: 0 <= m < |posts| - 1 ==> posts[1..][m] == posts[m + 1];
      ReplayAllRejected(Step(jobs, posts[0]), posts[1..]);
    }
  }

  /** `job` was there at the start, or carries the id of one of the posts' clock readings. */
  ghost predicate FromStartOrClock(job: JobRecord, jobs: seq<JobRecord>, posts: seq<PostRequest>) {
    job in jobs || exists m :: 0 <= m < |posts| && job.id == NewJobId(posts[m].now)
  }

  /** Every record of a replayed store was there at the start or was built by one of the posts. */
  lemma {:induction false} ReplayIds(jobs: seq<JobRecord>, posts: seq<PostRequest>, k: nat)
    requires k < |Replay(jobs, posts)|
    ensures FromStartOrClock(Replay(jobs, posts)[k], jobs, posts)
    decreases |posts|
  {
    if posts != [] {
      var next := Step(jobs, posts[0]);
      var rest := posts[1..];
      ReplayIds(next, rest, k);
      var r := Replay(jobs, posts)[k];
      if r in next {
        if r !in jobs {
          assert r.id == NewJobId(posts[0].now);
        }
      } else {
        var m :| 0 <= m < |rest| && r.id == NewJobId(rest[m].now);
        assert rest[m] == posts[m + 1];
      }
    } else {
      assert Replay(jobs, posts)[k] in jobs;
    }
  }

  /** A post adds the same records in front of any store. */
  lemma StepAddsAtFront(jobs: seq<JobRecord>, p: PostRequest)
    ensures Step(jobs, p) == Step([], p) + jobs
  {
  }

  /** The records a history of posts builds, newest first. */
  function NewRecords(posts: seq<PostRequest>): seq<JobRecord>
    decreases |posts|
  {
    if posts == [] then [] else NewRecords(posts[1..]) + Step([], posts[0])
  }

  /**
   * The store only grows at the front: after any history of posts it is the
   * records those posts built, newest first, followed by the old contents
   * unchanged and in order.
   */
  lemma {:induction false} ReplayKeepsOld(jobs: seq<JobRecord>, posts: seq<PostRequest>)
    ensures Replay(jobs, posts) == NewRecords(posts) + jobs
    decreases |posts|
  {
    if posts != [] {
      var p := posts[0];
      ReplayKeepsOld(Step(jobs, p), posts[1..]);
      StepAddsAtFront(jobs, p);
      assert NewRecords(posts[1..]) + (Step([], p) + jobs) == NewRecords(posts[1..]) + Step([], p) + jobs;
    }
  }

  /** Putting a record with a fresh id in front keeps ids unique. */
  lemma PrependKeepsIdsUnique(job: JobRecord, jobs: seq<JobRecord>)
    requires UniqueIds(jobs)
    requires forall i :: 0 <= i < |jobs| ==> jobs[i].id != job.id
    ensures UniqueIds([job] + jobs)
  {
    var next := [job] + jobs;
    forall i, j | 0 <= i < j < |next|
      ensures next[i].id != next[j].id
    {
      assert next[j] == jobs[j - 1];
      if i > 0 {
        assert next[i] == jobs[i - 1];
      }
    }
  }

  /**
   * Posts at pairwise distinct clock readings keep ids unique. The handler
   * itself does nothing to ensure distinct readings: two posts in the same
   * millisecond get the same id.
   */
  lemma {:induction false} DistinctTimesKeepIdsUnique(jobs: seq<JobRecord>, posts: seq<PostRequest>)
    requires UniqueIds(jobs)
    requires forall i, m :: 0 <= i < |jobs| && 0 <= m < |posts| ==> jobs[i].id != NewJobId(posts[m].now)
    requires forall m, n :: 0 <= m < n < |posts| ==> posts[m].now != posts[n].now
    ensures UniqueIds(Replay(jobs, posts))
    decreases |posts|
  {
    if posts != [] {
      var p := posts[0];
      var outcome := CreateJob(p.form, p.now, p.posted);
      var next := Step(jobs, p);
      var rest := posts[1..];
      assert forall m :: 0 <= m < |rest| ==> rest[m] == posts[m + 1];
      if outcome.Built? {
        assert forall i :: 0 <= i < |jobs| ==> jobs[i].id != outcome.job.id;
        PrependKeepsIdsUnique(outcome.job, jobs);
        forall i, m | 0 <= i < |next| && 0 <= m < |rest|
          ensures next[i].id != NewJobId(rest[m].now)
        {
          if i == 0 {
            NewJobIdInjective(p.now, rest[m].now);
          } else {
            assert next[i] == jobs[i - 1];
          }
        }
      }
      DistinctTimesKeepIdsUnique(next, rest);
    }
  }

  /** Starting from the seed, posts at distinct clock readings keep ids unique. */
  lemma SeedHistoryIdsUnique(posts: seq<PostRequest>)
    requires forall m, n :: 0 <= m < n < |posts| ==> posts[m].now != posts[n].now
    ensures UniqueIds(Replay(Seed(), posts))
  {
    SeedIdsUnique();
    NewJobIdNotSeed();
    DistinctTimesKeepIdsUnique(Seed(), posts);
  }

  /** Two accepted posts in the same millisecond share an id, and lookups then find only the later one. */
  lemma SameMillisecondCollides(jobs: seq<JobRecord>, first: HireForm, second: HireForm, now: nat, posted: string)
    requires CreateJob(first, now, posted).Built? && CreateJob(second, now, posted).Built?
    ensures var store := Replay(jobs, [PostRequest(first, now, posted), PostRequest(second, now, posted)]);
            && !UniqueIds(store)
            && Find(store, NewJobId(now)) == Some(CreateJob(second, now, posted).job)
  {
    var a := CreateJob(first, now, posted).job;
    var b := CreateJob(second, now, posted).job;
    var posts := [PostRequest(first, now, posted), PostRequest(second, now, posted)];
    assert Replay(jobs, posts) == Replay(Step(jobs, posts[0]), posts[1..]);
    assert Replay([a] + jobs, posts[1..]) == Replay(Step([a] + jobs, posts[1]), []);
    var store := [b] + ([a] + jobs);
    assert store[0].id == store[1].id;
    FindAfterPrepend(b, [a] + jobs, NewJobId(now));
  }

  // ---------------------------------------------------------------------------
  // POST /apply

  /** 404 for an unknown job, the job page again with an error, or the confirmation page. */
  datatype ApplyOutcome =
    | JobNotFound
    | ApplicantMissing(job: JobRecord)
    | Applied(job: JobRecord, name: string, phone: string)

  /**
   * The `POST /apply` handler: find the first record with the submitted id;
   * without one, not found; otherwise both applicant fields must be truthy.
   */
  function Apply(jobs: seq<JobRecord>, jobId: Option<string>, name: Option<string>, phone: Option<string>): (r: ApplyOutcome)
    ensures r.JobNotFound? <==> jobId.None? || forall k :: 0 <= k < |jobs| ==> jobs[k].id != jobId.value
    ensures !r.JobNotFound? ==> jobId.Some? && Find(jobs, jobId.value) == Some(r.job)
    ensures r.ApplicantMissing? <==> !r.JobNotFound? && (Falsy(name) || Falsy(phone))
    ensures r.Applied? ==> Some(r.name) == name && Some(r.phone) == phone
  {
    var job := if jobId.None? then None else Find(jobs, jobId.value);
    if job.None? then
      JobNotFound
    else if Falsy(name) || Falsy(phone) then
      ApplicantMissing(job.value)
    else
      Applied(job.value, name.value, phone.value)
  }

  /** The job an application reaches is a stored record with that id, and the first such. */
  lemma ApplyFindsFirst(jobs: seq<JobRecord>, jobId: Option<string>, name: Option<string>, phone: Option<string>)
    requires !Apply(jobs, jobId, name, phone).JobNotFound?
    ensures var job := Apply(jobs, jobId, name, phone).job;
            exists k :: 0 <= k < |jobs| && jobs[k] == job && job.id == jobId.value
                        && forall i :: 0 <= i < k ==> jobs[i].id != jobId.value
  {
  }

  /** An unknown id is not found, whatever the name and phone are. */
  lemma ApplyUnknownIgnoresApplicant(jobs: seq<JobRecord>, jobId: string,
                                     name: Option<string>, phone: Option<string>,
                                     name': Option<string>, phone': Option<string>)
    requires forall k :: 0 <= k < |jobs| ==> jobs[k].id != jobId
    ensures Apply(jobs, Some(jobId), name, phone) == Apply(jobs, Some(jobId), name', phone') == JobNotFound
  {
  }

  /** Applying to a seed job without a phone number shows that job again. */
  lemma SeedApplyWithoutPhone()
    ensures Apply(Seed(), Some("Job-02"), Some("Asha"), Some("")) == ApplicantMissing(Seed()[1])
  {
    assert Find(Seed(), "Job-02") == Some(Seed()[1]) by {
      SeedIdsUnique();
      FindUnique(Seed(), 1);
    }
  }
}
