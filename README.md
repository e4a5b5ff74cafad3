# Job board listing store — a verified model

This project models the core of a small community job board written as an
Express application (`app.js`). The core is the in-memory list of job
postings (`JOBS`) and what the request handlers do with it:

- the seed of three postings the process starts with;
- the search of `GET /jobs`: an optional free-text term and an optional skill,
  each applied as a filter only when it is truthy, keeping store order;
- the lookup of a posting by id (`JOBS.find`), used by the detail page and by
  `POST /apply`;
- `POST /apply`: not found, the job page again with an error, or success;
- `POST /hire`: rejection of a form without title, location or pay, building of
  the record (id `Job-<milliseconds>`, comma-separated tags trimmed, defaults for
  duration and description), and `JOBS.unshift`, the only change the store
  ever sees;
- the home page preview, `JOBS.slice(0, 3)`.

Modules:

- `Wrappers` — `Option`, for a form field or query parameter that may be absent.
- `JsText` — the JavaScript string built-ins the handlers use: truthiness of a
  form string, `toLowerCase` (as ASCII case folding), `includes`, `split` on one
  character, `trim` (with ECMAScript's white-space and line-terminator set), and
  the decimal rendering of a number inside a template literal. Each comes with
  its partner: `Join` and `DecimalValue` as inverses, idempotence, padding laws.
- `Listings` — `JobRecord`, the seed, `Filter` (as `Array.prototype.filter`),
  `Search`, `Find`, `Latest`, and the lemmas that pin the search down: it is a
  single filter by the conjunction of both conditions, it keeps store order and
  multiplicities, the two filters commute, and each filter means what the page
  promises (substring of title, location or description; whole-tag equality).
- `Workflows` — `CreateJob`, `ParseTags`, `NewJobId`, `Apply`, and `Replay`, the
  store after a history of posting requests, with the id lemmas: ids are
  injective in the clock reading, never equal a seed id, stay unique when the
  readings are distinct, and collide when two posts share a millisecond.
- `Store` — the `ListingStore` class: one `seq<JobRecord>` field, `InsertFront`
  (the `unshift`) and `PostJob` (the whole `POST /hire`), with `Valid()` saying
  every stored record has a title, location and pay.

The clock (`Date.now()`) and the relative-time label (`dayjs().fromNow()`) are
parameters: `now: nat` is the millisecond reading the id is built from, and
`posted: string` is taken as given.

A reader might expect required fields to be trimmed, a rejected form to name
what is missing, and ids to be unique. The code does less, and so does the model:

- Required fields are checked for emptiness only, not after trimming: a title of
  spaces is accepted (`Workflows.BlankFieldsAccepted`).
- A rejected posting carries no list of missing fields: the page only says
  "Please fill properly." (`Workflows.HireOutcome.IncompleteForm`).
- Inserting never checks for a duplicate id. Ids are unique only while clock
  readings are distinct (`Workflows.DistinctTimesKeepIdsUnique`); two posts in the
  same millisecond share an id and the older one can no longer be found by id
  (`Workflows.SameMillisecondCollides`).

## Model

| member | source | states |
|---|---|---|
| `JsText.Falsy` | app.js:125-128 | A form or query string is falsy exactly when it is absent or empty, the values that a default of "" turns into "" |
| `JsText.LowerChar` | app.js:129 | A lowered character is never an upper-case letter; it is unchanged exactly when it was not one, and an upper-case letter becomes the lower-case letter at the same place in the alphabet |
| `JsText.ToLower` | app.js:129 | `toLowerCase` keeps the length, leaves no upper-case letter, turns each upper-case letter into the lower-case letter at the same place in the alphabet, and changes no other character |
| `JsText.ToLowerIdempotent` | app.js:140 | Lowering a lowered string changes nothing (used by `Listings.HasSkillIgnoresCase`) |
| `JsText.Contains` | app.js:132-134 | `includes` holds exactly when some position of the haystack starts a copy of the needle |
| `JsText.ContainsEmpty` | app.js:132-134 | `includes("")` holds of every string (used by `Listings.EmptyTermKeepsAll`) |
| `JsText.MissingCharNotContained` | app.js:132-134 | A needle holding a character the haystack lacks is not included in it |
| `JsText.LowerMissingChar` | app.js:132-134 | A lower-case letter absent from a string in both cases is absent from its lowered form |
| `JsText.CaselessMissingLetter` | app.js:129-134 | Ignoring case, a term holding a letter that a text lacks in both cases is not included in that text |
| `JsText.LeadingSpaces` | app.js:187 | The count is the length of the longest prefix made only of ECMAScript white space |
| `JsText.TrailingSpaces` | app.js:187 | The count is the length of the longest suffix made only of ECMAScript white space |
| `JsText.Trim` | app.js:187 | `trim` returns a slice of the input, cuts off only white space, and leaves no white space at either end |
| `JsText.TrimIdempotent` | app.js:187 | Trimming a trimmed string changes nothing |
| `JsText.TrimUnpadded` | app.js:187 | A string with no white space at either end is its own trim |
| `JsText.LeadingSpacesPadded` | app.js:187 | White-space padding in front adds exactly its length to the leading-space count |
| `JsText.TrailingSpacesPadded` | app.js:187 | White-space padding at the back adds exactly its length to the trailing-space count |
| `JsText.TrimStripsPadding` | app.js:187 | Trimming white-space padding around a string with non-space ends returns that string exactly |
| `JsText.Split` | app.js:187 | `split(",")` gives at least one piece and no piece contains the separator |
| `JsText.JoinSplit` | app.js:187 | Joining the pieces of a split with the separator gives back the input: nothing is lost |
| `JsText.SplitJoin` | app.js:187 | Splitting a join of separator-free pieces gives back the pieces, empty ones included |
| `JsText.SplitCount` | app.js:187 | A split gives one piece more than there are separators: empty segments are kept |
| `JsText.DecimalString` | app.js:183 | The rendering of `now` in the id is a non-empty string of digits without a leading zero unless it is 0 |
| `JsText.DecimalRoundTrip` | app.js:183 | Reading the rendered digits back gives the number |
| `JsText.DecimalInjective` | app.js:183 | Different numbers render differently |
| `Listings.Filter` | app.js:130-135 | `filter` keeps exactly the elements that pass, each as often as in the input, as an order-preserving subsequence |
| `Listings.FilterFilter` | app.js:138-142 | Filtering the term results by the skill is one filter by the conjunction of both callbacks |
| `Listings.FilterExtensional` | app.js:139-141 | Two callbacks that agree on every record filter the same |
| `Listings.FilterAll` | app.js:126 | A filter every record passes returns the store unchanged |
| `Listings.Seed` | app.js:34-68 | The three postings Job-01, Job-02 and Job-03 with their fields as written |
| `Listings.MatchesTerm` | app.js:129-135 | A record passes the term filter exactly when the lowered term occurs at some position of its lowered title, location or description |
| `Listings.LowerTags` | app.js:140 | A string is among the mapped tags exactly when it is the lowered form of one of the record's tags |
| `Listings.HasSkill` | app.js:139-141 | A record passes the skill filter exactly when one of its tags, lowered, equals the lowered skill |
| `Listings.Search` | app.js:124-145 | A record is listed exactly when it is stored and passes the term filter if the term is truthy and the skill filter if the skill is truthy |
| `Listings.SearchIsFilter` | app.js:124-145 | The listing equals the store filtered by "passes the term filter if the term is truthy and the skill filter if the skill is truthy" |
| `Listings.SearchKeepsOrder` | app.js:126-142 | The listing is a subsequence of the store in store order, each passing record as often as it is stored, the others not at all |
| `Listings.SearchWithoutFilters` | app.js:125-128 | With an absent or empty term and skill the listing is the store, unchanged and in order |
| `Listings.SearchByTerm` | app.js:128-136 | With a term only, a record is listed exactly when the lowered term occurs in its lowered title, location or description |
| `Listings.SearchBySkill` | app.js:138-142 | With a skill only, a record is listed exactly when one of its tags equals the skill ignoring case (equality, not substring) |
| `Listings.EmptyTermKeepsAll` | app.js:125-128 | The term filter with "" keeps every record, so skipping it for a falsy term lists the same records |
| `Listings.HasSkillIgnoresCase` | app.js:140 | Asking for a skill or for its lowered form selects the same records |
| `Listings.SearchFiltersCommute` | app.js:128-142 | Term-then-skill, skill-then-term and both at once list the same records in the same order |
| `Listings.Find` | app.js:148 | `find` returns nothing exactly when no record has the id, and otherwise the record at the first position with that id |
| `Listings.FindUnique` | app.js:155 | With unique ids, looking up a stored record's id returns that record |
| `Listings.FindAfterPrepend` | app.js:193 | After `unshift`, the new record answers its own id and every other lookup is as before |
| `Listings.Latest` | app.js:77 | The preview holds the first three records, or all records when there are fewer |
| `Listings.LatestAfterPrepend` | app.js:77 | After a post, the preview is the new record followed by the first two of the old preview |
| `Listings.SeedIdsUnique` | app.js:34-68 | The three seed records have distinct ids |
| `Listings.SeedPlumbingTerm` | app.js:34-68 | Of the seed records only Job-02 mentions "plumbing" in its title, location or description, ignoring case |
| `Listings.SeedSearchPlumbing` | app.js:34-68 | The term "plumbing" lists exactly the plumbing repair job |
| `Listings.SeedSearchPainting` | app.js:57-67 | The skill "Painting" lists exactly the house painting job |
| `Listings.SeedPaintingTags` | app.js:34-68 | Of the seed records only Job-03 has a tag equal to "Painting" ignoring case |
| `Listings.SeedSearchPartialSkill` | app.js:138-142 | The skill "plumb" lists nothing, not even the job tagged "Plumbing" |
| `Workflows.NewJobId` | app.js:183 | The id is "Job-" followed by the decimal rendering of the clock reading |
| `Workflows.NewJobIdInjective` | app.js:183 | Two clock readings give the same id exactly when they are equal |
| `Workflows.NewJobIdNotSeed` | app.js:183 | No clock reading gives the id of a seed record, because the digits never start with 0 when there are two |
| `Workflows.ParseTags` | app.js:187 | A falsy tags field gives no tags; otherwise one tag per comma-separated segment, each trimmed, empty ones kept |
| `Workflows.ParsedTagsClean` | app.js:187 | Every parsed tag is comma-free and has no white space at either end |
| `Workflows.ParseTagsOfCleanList` | app.js:187 | Clean tags joined with commas parse back to exactly those tags |
| `Workflows.ParsedCleanTag` | app.js:187 | A clean segment of the tags field parses to itself |
| `Workflows.CreateJob` | app.js:176-191 | The form is rejected exactly when title, location or pay is falsy; otherwise the record carries those fields, the id for `now`, the given label, the parsed tags, duration or "Not specified", description or "" |
| `Workflows.BlankFieldsAccepted` | app.js:178-180 | Required fields made of spaces pass, as only emptiness is checked |
| `Workflows.Step` | app.js:178-193 | One post leaves the store as it was when the form is rejected, and otherwise puts exactly the built record in front |
| `Workflows.Replay` | app.js:175-195 | After a history of posts the store has at least its old size and at most one more record per post |
| `Workflows.ReplayAllAccepted` | app.js:178-193 | A history of N accepted posts grows the store by exactly N records |
| `Workflows.ReplayAllRejected` | app.js:178-180 | A history of rejected posts leaves the store exactly as it was |
| `Workflows.StepAddsAtFront` | app.js:193 | A post adds the same records in front whatever the store holds |
| `Workflows.ReplayIds` | app.js:182-193 | Every record after a history of posts was there at the start or has the id of some post's clock reading |
| `Workflows.ReplayKeepsOld` | app.js:193 | After any history of posts the store is the records the posts built, newest first, followed by the old contents unchanged and in order |
| `Workflows.PrependKeepsIdsUnique` | app.js:193 | Putting a record with a fresh id in front keeps ids unique |
| `Workflows.DistinctTimesKeepIdsUnique` | app.js:183-193 | Posts at pairwise distinct clock readings, none clashing with a stored id, keep ids unique |
| `Workflows.SeedHistoryIdsUnique` | app.js:34-68 | From the seed, any history of posts at distinct clock readings keeps ids unique |
| `Workflows.SameMillisecondCollides` | app.js:183 | Two accepted posts in one millisecond share an id and a lookup of it finds only the later one |
| `Workflows.Apply` | app.js:153-165 | Not found exactly when the id is absent or matches no record; otherwise the found record is the one `find` returns, and the outcome is the error exactly when name or phone is falsy, else success with name and phone |
| `Workflows.ApplyFindsFirst` | app.js:155 | The job an application reaches is the first stored record with the submitted id |
| `Workflows.ApplyUnknownIgnoresApplicant` | app.js:157 | An unknown id gives not found whatever the name and phone are |
| `Workflows.SeedApplyWithoutPhone` | app.js:158-162 | Applying to Job-02 with an empty phone shows Job-02 again with the error |
| `Store.ListingStore.constructor` | app.js:34-68 | The store starts as the seed, and every seed record is well formed |
| `Store.ListingStore.InsertFront` | app.js:193 | `unshift` puts the record in front of the old contents and changes nothing else |
| `Store.ListingStore.PostJob` | app.js:175-195 | The outcome is `CreateJob`'s; a rejected form leaves the store as it was; an accepted one grows it by exactly the new record in front; every stored record stays well formed |

## Left out

- Express wiring, middleware, static files, EJS rendering, redirects, status codes and `app.listen`: presentation and I/O.
- The unused imports (`pg`, `express-session`, `path`, `url`): no logic.
- `Date.now()`: the clock reading is the parameter `now`; nothing makes readings distinct, so uniqueness of ids is proved only under distinct readings.
- `dayjs().fromNow()`: the label is the opaque parameter `posted`.
- Unicode case mapping: `toLowerCase` is modelled as ASCII folding (`A`–`Z` to `a`–`z`, everything else unchanged); JavaScript also folds non-ASCII letters.
- Query and form values that are arrays or objects (repeated parameters, bracket syntax of the extended body parser): every field is modelled as an absent-or-string value.
- The donate, volunteer and contact handlers: falsy-field checks followed by a render, no state.
- `popularSkills`: static display data.
- Concurrency: each handler runs to completion on one thread, so handlers are modelled as sequential calls.
