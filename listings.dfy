/**
 * The job listings and the read-only queries over them: the seed data, the
 * search of `GET /jobs`, the lookup by id of `GET /jobs/:id` and `POST /apply`,
 * and the "latest jobs" preview of the home page.
 */
module Listings {
  import opened Wrappers
  import opened JsText

  /** One job posting. `posted` is a relative-time label fixed when the record is built. */
  datatype JobRecord = JobRecord(
    id: string,
    title: string,
    location: string,
    pay: string,
    tags: seq<string>,
    posted: string,
    duration: string,
    description: string)

  /**
   * The three postings the store holds when the process starts. Longer texts
   * are written as concatenations of short literals, which the verifier
   * handles much more cheaply than one long literal, and the searchable texts
   * are named so that a proof about one of them need not look at the others.
   */
  function Seed(): seq<JobRecord> {
    [Job01, Job02, Job03]
  }

  /** The construction helper posting. */
  const Job01 := JobRecord(
    id := "Job-01",
    title := ConstructionTitle,
    location := ConstructionLocation,
    pay := "500.00rs/day",
    tags := ["Mansory", "Physical " + "Work"],
    posted := "About 2 " + "days ago",
    duration := "2 weeks",
    description := ConstructionDescription)

  const ConstructionTitle := "Construction " + "Helper " + "Needed"
  const ConstructionLocation := "Gurgaon, " + "Haryana"
  const ConstructionDescription := "Need 2 " + "experienced " + "construction " + "workers for " + "building " + "projects"

  /** The plumbing repair posting. */
  const Job02 := JobRecord(
    id := "Job-02",
    title := PlumbingTitle,
    location := PlumbingLocation,
    pay := "800.00rs/day",
    tags := ["Plumbing", "Pipe Repair"],
    posted := "About 7 " + "hours ago",
    duration := "3 days",
    description := PlumbingDescription)

  const PlumbingTitle := "Plumbing " + "Repair work"
  const PlumbingLocation := "Noida, UP"
  const PlumbingDescription := "Urgent " + "plumbing " + "repair " + "needed in " + "residential " + "complex. " + "Experience " + "with pipe " + "fitting " + "required."

  /** The house painting posting. */
  const Job03 := JobRecord(
    id := "Job-03",
    title := PaintingTitle,
    location := PaintingLocation,
    pay := "600.00rs/day",
    tags := ["Painting", "Interior " + "Design"],
    posted := "1 day ago",
    duration := "1 week",
    description := PaintingDescription)

  const PaintingTitle := "House " + "Painting " + "Project"
  const PaintingLocation := "Delhi, NCR"
  const PaintingDescription := "Interior " + "and " + "exterior " + "painting " + "work for " + "3BHK house. " + "Must bring " + "own brushes " + "and basic " + "equipments"

  /** No two records share an id. */
  ghost predicate UniqueIds(jobs: seq<JobRecord>) {
    forall i, j :: 0 <= i < j < |jobs| ==> jobs[i].id != jobs[j].id
  }

  // ---------------------------------------------------------------------------
  // Array.prototype.filter

  /** `r` is `s` with some elements dropped and the rest in their original order. */
  ghost predicate IsSubsequence<T>(r: seq<T>, s: seq<T>)
    decreases |s|
  {
    if r == [] then true
    else if s == [] then false
    else (r[0] == s[0] && IsSubsequence(r[1..], s[1..])) || IsSubsequence(r, s[1..])
  }

  /** `s.filter(p)`: the elements of `s` that satisfy `p`, each as often as in `s`, in order. */
  function Filter<T(==,!new)>(s: seq<T>, p: T -> bool): (r: seq<T>)
    ensures forall x :: x in r <==> x in s && p(x)
    ensures forall x :: multiset(r)[x] == if p(x) then multiset(s)[x] else 0
    ensures IsSubsequence(r, s)
  {
    if s == [] then
      []
    else
      var rest := Filter(s[1..], p);
      assert s == [s[0]] + s[1..];
      if p(s[0]) then [s[0]] + rest else rest
  }

  /** Filtering by `p` and then by `q` is filtering by their conjunction `both`. */
  lemma {:induction false} FilterFilter<T(!new)>(s: seq<T>, p: T -> bool, q: T -> bool, both: T -> bool)
    requires forall x :: both(x) == (p(x) && q(x))
    ensures Filter(Filter(s, p), q) == Filter(s, both)
  {
    if s != [] {
      FilterFilter(s[1..], p, q, both);
    }
  }

  /** Filtering depends only on which elements pass. */
  lemma {:induction false} FilterExtensional<T(!new)>(s: seq<T>, p: T -> bool, q: T -> bool)
    requires forall x :: p(x) == q(x)
    ensures Filter(s, p) == Filter(s, q)
  {
    if s != [] {
      FilterExtensional(s[1..], p, q);
    }
  }

  /** A predicate that holds of every element keeps the whole sequence. */
  lemma {:induction false} FilterAll<T(!new)>(s: seq<T>, p: T -> bool)
    requires forall k :: 0 <= k < |s| ==> p(s[k])
    ensures Filter(s, p) == s
  {
    if s != [] {
      FilterAll(s[1..], p);
    }
  }

  // ---------------------------------------------------------------------------
  // GET /jobs

  /** The free-text filter: the lowered term occurs in the lowered title, location or description. */
  predicate MatchesTerm(j: JobRecord, q: string): (b: bool)
    ensures b <==> exists i :: OccursAt(ToLower(j.title), ToLower(q), i)
                           || OccursAt(ToLower(j.location), ToLower(q), i)
                           || OccursAt(ToLower(j.description), ToLower(q), i)
  {
    var needle := ToLower(q);
    Contains(ToLower(j.title), needle)
      || Contains(ToLower(j.location), needle)
      || Contains(ToLower(j.description), needle)
  }

  /** The lowered copy of every tag, as `tags.map(t => t.toLowerCase())`. */
  function LowerTags(tags: seq<string>): (r: seq<string>)
    ensures forall x :: x in r <==> exists k :: 0 <= k < |tags| && ToLower(tags[k]) == x
  {
    var r := seq(|tags|, k requires 0 <= k < |tags| => ToLower(tags[k]));
    assert forall k :: 0 <= k < |tags| ==> r[k] == ToLower(tags[k]);
    r
  }

  /** The skill filter: the lowered skill is one of the lowered tags. */
  predicate HasSkill(j: JobRecord, skill: string): (b: bool)
    ensures b <==> exists k :: 0 <= k < |j.tags| && ToLower(j.tags[k]) == ToLower(skill)
  {
    ToLower(skill) in LowerTags(j.tags)
  }

  /**
   * The records of `jobs` that `GET /jobs?q=…&skill=…` lists. An absent
   * parameter counts as "". The term filter runs first, and only when the term
   * is truthy; then the skill filter, only when the skill is truthy.
   */
  function Search(jobs: seq<JobRecord>, q: Option<string>, skill: Option<string>): (r: seq<JobRecord>)
    ensures forall j :: j in r <==> j in jobs && Selected(j, q, skill)
  {
    var q := q.GetOr("");
    var skill := skill.GetOr("");
    var results := if q != "" then Filter(jobs, TermFilter(q)) else jobs;
    if skill != "" then Filter(results, SkillFilter(skill)) else results
  }

  /** The callback of the term filter. */
  function TermFilter(q: string): JobRecord -> bool {
    j => MatchesTerm(j, q)
  }

  /** The callback of the skill filter. */
  function SkillFilter(skill: string): JobRecord -> bool {
    j => HasSkill(j, skill)
  }

  /** The record passes every filter the request switches on. */
  predicate Selected(j: JobRecord, q: Option<string>, skill: Option<string>) {
    && (Falsy(q) || MatchesTerm(j, q.value))
    && (Falsy(skill) || HasSkill(j, skill.value))
  }

  /** `Selected` as a filter callback. */
  function SelectedFilter(q: Option<string>, skill: Option<string>): JobRecord -> bool {
    j => Selected(j, q, skill)
  }

  /** The search is one filter by the conjunction of both conditions. */
  lemma SearchIsFilter(jobs: seq<JobRecord>, q: Option<string>, skill: Option<string>)
    ensures Search(jobs, q, skill) == Filter(jobs, SelectedFilter(q, skill))
  {
    var sel := SelectedFilter(q, skill);
    var qs, ss := q.GetOr(""), skill.GetOr("");
    var term := TermFilter(qs);
    var tag := SkillFilter(ss);
    if qs != "" && ss != "" {
      assert Search(jobs, q, skill) == Filter(jobs, sel) by {
        assert Search(jobs, q, skill) == Filter(Filter(jobs, term), tag);
        FilterFilter(jobs, term, tag, sel);
      }
    } else if qs != "" {
      assert Search(jobs, q, skill) == Filter(jobs, sel) by {
        assert Search(jobs, q, skill) == Filter(jobs, term);
        FilterExtensional(jobs, term, sel);
      }
    } else if ss != "" {
      assert Search(jobs, q, skill) == Filter(jobs, sel) by {
        assert Search(jobs, q, skill) == Filter(jobs, tag);
        FilterExtensional(jobs, tag, sel);
      }
    } else {
      FilterAll(jobs, sel);
    }
  }

  /** The listing keeps store order and lists each record as often as the store holds it. */
  lemma SearchKeepsOrder(jobs: seq<JobRecord>, q: Option<string>, skill: Option<string>)
    ensures IsSubsequence(Search(jobs, q, skill), jobs)
    ensures forall j :: multiset(Search(jobs, q, skill))[j]
                          == if Selected(j, q, skill) then multiset(jobs)[j] else 0
  {
    SearchIsFilter(jobs, q, skill);
  }

  /** Without a term and without a skill, the whole store is listed as it is. */
  lemma SearchWithoutFilters(jobs: seq<JobRecord>, q: Option<string>, skill: Option<string>)
    requires Falsy(q) && Falsy(skill)
    ensures Search(jobs, q, skill) == jobs
  {
  }

  /** With a term only: listed exactly when the term occurs, ignoring case, in title, location or description. */
  lemma SearchByTerm(jobs: seq<JobRecord>, q: string, skill: Option<string>, j: JobRecord)
    requires q != "" && Falsy(skill)
    ensures j in Search(jobs, Some(q), skill) <==>
              j in jobs && (exists i :: OccursAt(ToLower(j.title), ToLower(q), i)
                                     || OccursAt(ToLower(j.location), ToLower(q), i)
                                     || OccursAt(ToLower(j.description), ToLower(q), i))
  {
  }

  /** With a skill only: listed exactly when some tag equals the skill, ignoring case. */
  lemma SearchBySkill(jobs: seq<JobRecord>, q: Option<string>, skill: string, j: JobRecord)
    requires Falsy(q) && skill != ""
    ensures j in Search(jobs, q, Some(skill)) <==>
              j in jobs && exists k :: 0 <= k < |j.tags| && ToLower(j.tags[k]) == ToLower(skill)
  {
  }

  /** A falsy term and the empty term list the same records: the term filter on "" keeps everything. */
  lemma EmptyTermKeepsAll(jobs: seq<JobRecord>)
    ensures Filter(jobs, TermFilter("")) == jobs
  {
    forall k | 0 <= k < |jobs|
      ensures TermFilter("")(jobs[k])
    {
      ContainsEmpty(ToLower(jobs[k].title));
    }
    FilterAll(jobs, TermFilter(""));
  }

  /** The skill is compared ignoring its case: asking for its lowered form finds the same records. */
  lemma HasSkillIgnoresCase(j: JobRecord, skill: string)
    ensures HasSkill(j, ToLower(skill)) == HasSkill(j, skill)
  {
    ToLowerIdempotent(skill);
  }

  /** Applying the skill filter to the term results, or the other way round, gives the same listing. */
  lemma SearchFiltersCommute(jobs: seq<JobRecord>, q: Option<string>, skill: Option<string>)
    ensures Search(jobs, q, skill) == Search(Search(jobs, q, None), None, skill)
    ensures Search(jobs, q, skill) == Search(Search(jobs, None, skill), q, None)
  {
    var term := SelectedFilter(q, None);
    var tag := SelectedFilter(None, skill);
    SearchIsFilter(jobs, q, skill);
    SearchIsFilter(jobs, q, None);
    SearchIsFilter(jobs, None, skill);
    SearchIsFilter(Filter(jobs, term), None, skill);
    SearchIsFilter(Filter(jobs, tag), q, None);
    FilterFilter(jobs, term, tag, SelectedFilter(q, skill));
    FilterFilter(jobs, tag, term, SelectedFilter(q, skill));
  }

  // ---------------------------------------------------------------------------
  // JOBS.find(j => j.id === id)

  /** The first record whose id is `id`, if any. */
  function Find(jobs: seq<JobRecord>, id: string): (r: Option<JobRecord>)
    ensures r.None? <==> forall k :: 0 <= k < |jobs| ==> jobs[k].id != id
    ensures r.Some? ==> exists k :: 0 <= k < |jobs| && jobs[k] == r.value && r.value.id == id
                                    && forall i :: 0 <= i < k ==> jobs[i].id != id
  {
    if jobs == [] then
      None
    else if jobs[0].id == id then
      Some(jobs[0])
    else
      var r := Find(jobs[1..], id);
      assert forall k :: 1 <= k < |jobs| ==> jobs[k] == jobs[1..][k - 1];
      assert r.Some? ==> exists k :: 0 <= k < |jobs| && jobs[k] == r.value && r.value.id == id
                                      && forall i :: 0 <= i < k ==> jobs[i].id != id by {
        if r.Some? {
          var k :| 0 <= k < |jobs| - 1 && jobs[1..][k] == r.value && r.value.id == id
                   && forall i :: 0 <= i < k ==> jobs[1..][i].id != id;
          assert jobs[k + 1] == r.value;
        }
      }
      r
  }

  /** When ids are unique, looking up a stored record's id finds that record. */
  lemma FindUnique(jobs: seq<JobRecord>, k: nat)
    requires UniqueIds(jobs) && k < |jobs|
    ensures Find(jobs, jobs[k].id) == Some(jobs[k])
  {
    var r := Find(jobs, jobs[k].id);
    var m :| 0 <= m < |jobs| && jobs[m] == r.value && r.value.id == jobs[k].id
             && forall i :: 0 <= i < m ==> jobs[i].id != jobs[k].id;
    assert m == k;
  }

  /** A record put in front answers its own id first and leaves every other lookup alone. */
  lemma {:induction false} FindAfterPrepend(job: JobRecord, jobs: seq<JobRecord>, id: string)
    ensures Find([job] + jobs, id) == if job.id == id then Some(job) else Find(jobs, id)
  {
    assert ([job] + jobs)[1..] == jobs;
  }

  // ---------------------------------------------------------------------------
  // JOBS.slice(0, 3)

  /** The home page preview: the first three records, or all of them when there are fewer. */
  function Latest(jobs: seq<JobRecord>): (r: seq<JobRecord>)
    ensures |r| == if |jobs| < 3 then |jobs| else 3
    ensures forall k :: 0 <= k < |r| ==> r[k] == jobs[k]
  {
    if |jobs| < 3 then jobs else jobs[..3]
  }

  /** After a record is put in front, the preview starts with it and then shows the old preview's head. */
  lemma LatestAfterPrepend(job: JobRecord, jobs: seq<JobRecord>)
    ensures Latest([job] + jobs) == [job] + Latest(jobs)[..if |jobs| < 2 then |jobs| else 2]
  {
  }

  // ---------------------------------------------------------------------------
  // The seed data

  lemma SeedIdsUnique()
    ensures UniqueIds(Seed())
  {
  }

  /** The free-text search "plumbing" lists exactly the plumbing job of the seed. */
  lemma SeedSearchPlumbing()
    ensures Search(Seed(), Some("plumbing"), None) == [Seed()[1]]
  {
    var jobs := Seed();
    var p := TermFilter("plumbing");
    SeedPlumbingTerm();
    assert Filter(jobs[2..], p) == [];
    assert Filter(jobs[1..], p) == [jobs[1]];
  }

  /** Of the seed records only Job-02 mentions "plumbing", ignoring case. */
  lemma SeedPlumbingTerm()
    ensures !MatchesTerm(Seed()[0], "plumbing")
    ensures MatchesTerm(Seed()[1], "plumbing")
    ensures !MatchesTerm(Seed()[2], "plumbing")
  {
    assert "plumbing"[1] == 'l' && "plumbing"[3] == 'm';
    assert ToLower("plumbing") == "plumbing";
    SeedPlumbingTitle();
    var first, third := Job01, Job03;
    ConstructionLacksLowerM();
    ConstructionLacksUpperM();
    CaselessMissingLetter(first.title, "plumbing", 'm');
    CaselessMissingLetter(first.location, "plumbing", 'm');
    CaselessMissingLetter(first.description, "plumbing", 'm');
    PaintingLacksM();
    PaintingDescriptionLacksLowerL();
    PaintingDescriptionLacksUpperL();
    CaselessMissingLetter(third.title, "plumbing", 'm');
    CaselessMissingLetter(third.location, "plumbing", 'm');
    CaselessMissingLetter(third.description, "plumbing", 'l');
  }

  /** The lowered title of Job-02 starts with "plumbing". */
  lemma SeedPlumbingTitle()
    ensures MatchesTerm(Seed()[1], "plumbing")
  {
    var title := ToLower(Seed()[1].title);
    assert ToLower("plumbing") == "plumbing";
    assert title[..8] == "plumbing";
    assert OccursAt(title, ToLower("plumbing"), 0);
  }

  /** The construction texts have no "m". */
  lemma ConstructionLacksLowerM()
    ensures 'm' !in ConstructionTitle && 'm' !in ConstructionLocation && 'm' !in ConstructionDescription
  {
  }

  /** The construction texts have no "M". */
  lemma ConstructionLacksUpperM()
    ensures 'M' !in ConstructionTitle && 'M' !in ConstructionLocation && 'M' !in ConstructionDescription
  {
  }

  /** The painting title and location have no "m" in either case. */
  lemma PaintingLacksM()
    ensures 'm' !in PaintingTitle && 'm' !in PaintingLocation
    ensures 'M' !in PaintingTitle && 'M' !in PaintingLocation
  {
  }

  /** The painting description has no "l". */
  lemma PaintingDescriptionLacksLowerL()
    ensures 'l' !in PaintingDescription
  {
  }

  /** The painting description has no "L". */
  lemma PaintingDescriptionLacksUpperL()
    ensures 'L' !in PaintingDescription
  {
  }

  /** The skill "Painting" finds only the painting job of the seed. */
  lemma SeedSearchPainting()
    ensures Search(Seed(), None, Some("Painting")) == [Seed()[2]]
  {
    var jobs := Seed();
    SeedPaintingTags();
    var p := SkillFilter("Painting");
    assert Filter(jobs[2..], p) == [jobs[2]];
    assert Filter(jobs[1..], p) == [jobs[2]];
  }

  /** Only the third seed record is tagged "Painting", ignoring case. */
  lemma SeedPaintingTags()
    ensures !HasSkill(Seed()[0], "Painting")
    ensures !HasSkill(Seed()[1], "Painting")
    ensures HasSkill(Seed()[2], "Painting")
  {
    var lowered := ToLower("Painting");
    assert lowered == "painting";
    var first, second, third := LowerTags(Seed()[0].tags), LowerTags(Seed()[1].tags), LowerTags(Seed()[2].tags);
    assert |first| == 2 && |first[0]| == 7 && |first[1]| == 13;
    assert |second| == 2 && second[0][1] == 'l' && |second[1]| == 11;
    assert third[0] == "painting";
  }

  /** Skills match whole tags only: "plumb" finds nothing, not even the job tagged "Plumbing". */
  lemma SeedSearchPartialSkill()
    ensures Search(Seed(), None, Some("plumb")) == []
  {
    var jobs := Seed();
    assert !HasSkill(jobs[0], "plumb");
    assert !HasSkill(jobs[1], "plumb");
    assert !HasSkill(jobs[2], "plumb");
    var p := SkillFilter("plumb");
    assert Filter(jobs[2..], p) == [];
    assert Filter(jobs[1..], p) == [];
  }
}
