/**
 * The module-level `JOBS` array: an ordered collection of postings, newest
 * first, changed only by putting a new posting in front.
 */
module Store {
  import opened Wrappers
  import opened Listings
  import opened Workflows

  class ListingStore {
    var jobs: seq<JobRecord>

    /** Every stored record holds a title, a location and a pay. */
    ghost predicate Valid()
      reads this
    {
      forall k :: 0 <= k < |jobs| ==> WellFormed(jobs[k])
    }

    /** The store as the process starts: the three seed postings. */
    constructor ()
      ensures Valid() && jobs == Seed()
    {
      jobs := Seed();
    }

    /** `JOBS.unshift(job)`: the new record goes in front, everything else stays in order. */
    method InsertFront(job: JobRecord)
      modifies this
      ensures jobs == [job] + old(jobs)
      ensures old(Valid()) && WellFormed(job) ==> Valid()
    {
      jobs := [job] + jobs;
    }

    /**
     * `POST /hire`: build the record from the form and, when the form is
     * complete, put it in front; a rejected form leaves the store as it was.
     */
    method PostJob(form: HireForm, now: nat, posted: string) returns (outcome: HireOutcome)
      requires Valid()
      modifies this
      ensures Valid()
      ensures outcome == CreateJob(form, now, posted)
      ensures jobs == Step(old(jobs), PostRequest(form, now, posted))
      ensures outcome.IncompleteForm? ==> jobs == old(jobs)
      ensures outcome.Built? ==> jobs == [outcome.job] + old(jobs) && |jobs| == |old(jobs)| + 1
    {
      outcome := CreateJob(form, now, posted);
      if outcome.Built? {
        InsertFront(outcome.job);
      }
    }
  }

  /** A fresh store answers a complete posting by listing it first, ahead of the three seed jobs. */
  method PostingScenario(now: nat, posted: string) {
    var store := new ListingStore();
    var form := HireForm(Some("X"), Some("Y"), Some("100"), None, None, None);
    var outcome := store.PostJob(form, now, posted);
    assert outcome.Built?;
    assert |store.jobs| == 4;
    assert store.jobs[0].id == NewJobId(now);
    assert store.jobs[0].tags == [] && store.jobs[0].duration == UnspecifiedDuration;
    assert store.jobs[1..] == Seed();
    assert Latest(store.jobs) == [store.jobs[0], Seed()[0], Seed()[1]];

    var rejected := store.PostJob(HireForm(Some("X"), Some(""), Some("100"), None, None, None), now, posted);
    assert rejected.IncompleteForm? && |store.jobs| == 4;
  }
}
