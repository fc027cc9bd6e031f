# MilkTheCowsJob — a Dafny model of the happier-cows milking job

The happier-cows application runs a batch job, `MilkTheCowsJob`, over every commons
(shared pasture) of the game. The job body `accept(ctx)` does these steps:

- it logs a start line;
- it walks the commons in the order the commons repository returns them;
- for each commons it logs a header and asks the user-commons repository for the
  participant records of that commons;
- for each participant it looks up the owning user and logs two lines, one with the
  herd size and health and one placeholder for the still unwritten milking rule;
- if a participant's user does not exist, it throws a `RuntimeException` that ends
  the whole run;
- otherwise it logs a completion line.

The model is a set of pure functions over an immutable snapshot of the three
repositories. The job context's log is the sequence of lines appended so far. A run
ends in one of two ways: `Completed(log)`, or `Failed(message, log)`, which is the
thrown exception together with the lines logged before the throw.

Files:

- `optional.dfy`: `Optional.Option`, the model of the `java.util.Optional` that
  `findById` returns.
- `decimal.dfy`: Java's decimal rendering of `long`/`int` values in string
  concatenation, with a parser as its partner.
- `repositories.dfy`: the entities (`Commons`, `UserCommons`, `User`), the snapshot
  `Repos`, and the two queries `findById` and `findByCommonsId`.
- `milk_the_cows_job.dfy`: the log lines, the job body (`MilkUsers` for the inner
  loop, `MilkCommons` for the outer loop, `Accept` for the whole run), and a
  reference description of the log the run must produce (`ExpectedLog`,
  `PartialLines`).
- `milk_the_cows_properties.dfy`: lemmas about that log. They cover where a
  failing run stops, the length of a successful log, where each commons' block sits,
  the two lines of each participant, and the sequence of commons headers.

A missing user is not skipped: `orElseThrow` (MilkTheCowsJob.java line 37) aborts
the whole run, and the completion line is then never logged.

## Model

| member | source | states |
|---|---|---|
| Decimal.ParseIntToString | src/main/java/edu/ucsb/cs156/happiercows/jobs/MilkTheCowsJob.java:37-38 | The decimal text of a user id or cow count, as string concatenation renders it, reads back as the same integer. |
| Decimal.IntToStringInjective | src/main/java/edu/ucsb/cs156/happiercows/jobs/MilkTheCowsJob.java:37-38 | Different integers render to different texts. |
| Repositories.FindByCommonsIdContents | src/main/java/edu/ucsb/cs156/happiercows/jobs/MilkTheCowsJob.java:34 | `findByCommonsId(id)` returns each user-commons row of commons `id` as often as the table holds it, and no row of another commons. |
| Repositories.FindByCommonsIdAppend | src/main/java/edu/ucsb/cs156/happiercows/jobs/MilkTheCowsJob.java:34 | The query keeps table order: querying a split table gives the two answers joined in order. |
| Repositories.FindByCommonsIdSingle | src/main/java/edu/ucsb/cs156/happiercows/jobs/MilkTheCowsJob.java:34 | A one-row table yields that row exactly when its commons id matches. |
| MilkTheCowsJob.ParticipantLines | src/main/java/edu/ucsb/cs156/happiercows/jobs/MilkTheCowsJob.java:36-40 | The reference lines for a run of participants number exactly two per participant. |
| MilkTheCowsJob.MilkUsers | src/main/java/edu/ucsb/cs156/happiercows/jobs/MilkTheCowsJob.java:36-43 | The inner loop only appends to the log. It completes exactly when every participant has a user, and then it has appended exactly the reference pair of lines for each participant, in order. |
| MilkTheCowsJob.MilkCommons | src/main/java/edu/ucsb/cs156/happiercows/jobs/MilkTheCowsJob.java:31-44 | The outer loop only appends to the log. It completes exactly when every participant of every commons has a user, and then it has appended, for each commons in order, its header followed by its participants' lines. |
| MilkTheCowsJob.Accept | src/main/java/edu/ucsb/cs156/happiercows/jobs/MilkTheCowsJob.java:26-47 | The first line is always the start line, even when the run fails. The run completes exactly when every user-commons row of a listed commons names an existing user. A completed log equals the reference log and ends with "Cows have been milked!". |
| MilkTheCowsJob.AllKnownAt | src/main/java/edu/ucsb/cs156/happiercows/jobs/MilkTheCowsJob.java:31-37 | The outer loop's success condition, read commons by commons: every commons' participants all have users. |
| MilkTheCowsJob.AllKnownIffAllUsersFound | src/main/java/edu/ucsb/cs156/happiercows/jobs/MilkTheCowsJob.java:31-37 | "Every participant the loops visit has a user" holds exactly when "every table row of a listed commons names an existing user" holds. |
| MilkTheCowsProperties.MilkUsersFailsAt | src/main/java/edu/ucsb/cs156/happiercows/jobs/MilkTheCowsJob.java:36-40 | A failing inner loop throws for the first participant without a user. Its log is the entry log plus the pairs of the participants before that one. |
| MilkTheCowsProperties.MilkCommonsFailsAt | src/main/java/edu/ucsb/cs156/happiercows/jobs/MilkTheCowsJob.java:31-40 | A failing outer loop stops at the first missing user of the first commons that has one. Its log is the blocks of the earlier commons, that commons' header, and the pairs before the failing participant. |
| MilkTheCowsProperties.FirstUnknownUnique | src/main/java/edu/ucsb/cs156/happiercows/jobs/MilkTheCowsJob.java:36-37 | Within one commons, only one participant can be the first without a user. |
| MilkTheCowsProperties.FirstMissingUnique | src/main/java/edu/ucsb/cs156/happiercows/jobs/MilkTheCowsJob.java:31-37 | The point where a failing run stops (commons index, participant index) is unique. |
| MilkTheCowsProperties.AcceptFailure | src/main/java/edu/ucsb/cs156/happiercows/jobs/MilkTheCowsJob.java:27-37 | A failed run throws "Error calling userRepository.findById(<userId>)" for the first missing user. Its log is exactly the start line, every earlier commons' block, the failing commons' header and the earlier participants' pairs, with no completion line. |
| MilkTheCowsProperties.AcceptStopsAtFirstMissing | src/main/java/edu/ucsb/cs156/happiercows/jobs/MilkTheCowsJob.java:27-37 | Conversely, when a first missing user exists, the run fails at exactly that point, with that message and that log. |
| MilkTheCowsProperties.ErrorMessageIdentifiesUser | src/main/java/edu/ucsb/cs156/happiercows/jobs/MilkTheCowsJob.java:37 | The exception message determines the user id it failed on. |
| MilkTheCowsProperties.ParticipantLinePair | src/main/java/edu/ucsb/cs156/happiercows/jobs/MilkTheCowsJob.java:38-40 | Participant `k` contributes lines `2k` and `2k+1`: first "User: <fullName>, numCows: <n>, cowHealth: <h>", then "Logic to milk the cows for user: <fullName> will go here". |
| MilkTheCowsProperties.CommonsLinesLength | src/main/java/edu/ucsb/cs156/happiercows/jobs/MilkTheCowsJob.java:31-40 | The lines for a run of commons number one per commons plus two per participant. |
| MilkTheCowsProperties.ExpectedLogLength | src/main/java/edu/ucsb/cs156/happiercows/jobs/MilkTheCowsJob.java:27-46 | A successful log has 2 + (number of commons) + 2 × (total participants) lines. |
| MilkTheCowsProperties.CommonsLinesAppend | src/main/java/edu/ucsb/cs156/happiercows/jobs/MilkTheCowsJob.java:31-44 | Walking two runs of commons one after the other logs the two runs' lines one after the other. |
| MilkTheCowsProperties.CommonsBlockPlacement | src/main/java/edu/ucsb/cs156/happiercows/jobs/MilkTheCowsJob.java:31-44 | In a successful log, the header of commons `i` comes after every line of the earlier commons. It is followed directly by its own participants' lines and then by the later commons' lines. |
| MilkTheCowsProperties.CommonsHeaderIndex | src/main/java/edu/ucsb/cs156/happiercows/jobs/MilkTheCowsJob.java:31-32 | The header of commons `i` is line 1 + i + 2 × (participants of the commons before it). |
| MilkTheCowsProperties.ParticipantLinesHaveNoHeader | src/main/java/edu/ucsb/cs156/happiercows/jobs/MilkTheCowsJob.java:38-40 | No participant line reads as a commons header. |
| MilkTheCowsProperties.CommonsLinesHeaders | src/main/java/edu/ucsb/cs156/happiercows/jobs/MilkTheCowsJob.java:31-32 | The header lines of a run of commons announce exactly those commons' names, in order. |
| MilkTheCowsProperties.CompletedHeaders | src/main/java/edu/ucsb/cs156/happiercows/jobs/MilkTheCowsJob.java:27-46 | A successful log holds exactly one "Milking cows for Commons: <name>" line per commons, in repository order. |
| MilkTheCowsProperties.FailedHeaders | src/main/java/edu/ucsb/cs156/happiercows/jobs/MilkTheCowsJob.java:27-37 | A failed log holds the headers of the commons up to and including the failing one, in order, and no others. |

## Left out

- No writes: the job never changes commons, participant or user state. In the model the repositories are an immutable `Repos` value and `Accept` has no way to return a changed one, so this holds by construction and no lemma states it.
- The job runner (`JobContext`, `JobContextConsumer`), job status records, threading and cancellation are not part of this model. `ctx.log` is modelled as appending to a sequence of lines, without timestamps.
- The Spring Data repositories are a fixed snapshot read in one go. `findAll` order is the order of `Repos.commons`. `findByCommonsId` returns rows in table order. Database I/O and read consistency are not modelled.
- `cowHealth` is a Java `double`. It is kept as the text that string concatenation produces for it, because `Double.toString` formatting is floating-point behaviour outside this model.
- User ids, commons ids and cow counts are unbounded integers. The job uses commons ids and user ids only as lookup keys, compared for equality, and renders user ids and cow counts in decimal. Equality and Java's rendering of `long`/`int` values agree with unbounded `int` on every Java value, so Java's integer width does not affect any stated property.
- Entity fields the job does not read (other `Commons`, `UserCommons` and `User` columns) are omitted. So are Java `null` values, for example a null commons name rendering as "null".
- The milking rule itself is a `TODO` in the job, so no economic or health update is modelled.
