/**
  The "milk the cows" batch job body. It logs a start line, walks every commons in
  repository order, logs a header per commons, and for each participant of that
  commons looks up the owning user and logs two lines; a participant whose user is
  missing makes the whole run throw. On normal completion it logs a final line.

  The job context's log is modelled as the sequence of lines appended so far, and
  the run's outcome as either normal completion or a thrown exception, each with
  the log as it stands at that point.
 */
module MilkTheCowsJob {
  import opened Optional
  import opened Decimal
  import opened Repositories

  const StartLine: string := "Starting to milk the cows"
  const HeaderPrefix: string := "Milking cows for Commons: "
  const DoneLine: string := "Cows have been milked!"

  function CommonsHeader(c: Commons): string {
    HeaderPrefix + c.name
  }

  function UserLine(user: User, uc: UserCommons): string {
    "User: " + user.fullName + ", numCows: " + IntToString(uc.numOfCows) + ", cowHealth: " + uc.cowHealth
  }

  function MilkLine(user: User): string {
    "Logic to milk the cows for user: " + user.fullName + " will go here"
  }

  /** The message of the RuntimeException thrown when a participant's user is missing. */
  function FindByIdError(userId: int): string {
    "Error calling userRepository.findById(" + IntToString(userId) + ")"
  }

  /** How a run ends: it returns normally or throws; either way the context keeps its log. */
  datatype Outcome = Completed(log: seq<string>) | Failed(message: string, log: seq<string>)

  // ---------------------------------------------------------------------------
  // Reference description of the log: which runs succeed and what they log.
  // ---------------------------------------------------------------------------

  /** Every participant in `ucs` has a user. */
  predicate Known(ucs: seq<UserCommons>, users: map<int, User>) {
    forall k :: 0 <= k < |ucs| ==> ucs[k].userId in users
  }

  /** Every participant of every commons in `cs` has a user. */
  predicate AllKnown(cs: seq<Commons>, repos: Repos)
    decreases |cs|
  {
    |cs| == 0 || (Known(Participants(repos, cs[0]), repos.users) && AllKnown(cs[1..], repos))
  }

  /** `AllKnown` read commons by commons. */
  lemma {:induction false} AllKnownAt(cs: seq<Commons>, repos: Repos)
    ensures AllKnown(cs, repos) <==> forall i :: 0 <= i < |cs| ==> Known(Participants(repos, cs[i]), repos.users)
    decreases |cs|
  {
    if |cs| > 0 {
      AllKnownAt(cs[1..], repos);
      assert forall i :: 0 < i < |cs| ==> cs[i] == cs[1..][i - 1];
    }
  }

  /** Every user-commons row that belongs to a listed commons names an existing user. */
  predicate AllUsersFound(repos: Repos) {
    forall c, u :: c in repos.commons && u in repos.userCommons && u.commonsId == c.id ==> u.userId in repos.users
  }

  /** The two lines logged for one participant whose user exists. */
  function ParticipantPair(user: User, uc: UserCommons): seq<string> {
    [UserLine(user, uc), MilkLine(user)]
  }

  /** The lines for a run of participants, each contributing its pair, in order. */
  function ParticipantLines(ucs: seq<UserCommons>, users: map<int, User>): (lines: seq<string>)
    requires Known(ucs, users)
    ensures |lines| == 2 * |ucs|
    decreases |ucs|
  {
    if |ucs| == 0 then []
    else ParticipantPair(users[ucs[0].userId], ucs[0]) + ParticipantLines(ucs[1..], users)
  }

  /** The lines for a run of commons: each its header, then its participants' lines. */
  function CommonsLines(cs: seq<Commons>, repos: Repos): seq<string>
    requires AllKnown(cs, repos)
    decreases |cs|
  {
    if |cs| == 0 then []
    else [CommonsHeader(cs[0])] + ParticipantLines(Participants(repos, cs[0]), repos.users)
         + CommonsLines(cs[1..], repos)
  }

  /** The complete log of a successful run. */
  function ExpectedLog(repos: Repos): seq<string>
    requires AllKnown(repos.commons, repos)
  {
    [StartLine] + CommonsLines(repos.commons, repos) + [DoneLine]
  }

  /** Participant `j` is the first in `ucs` whose user is missing. */
  predicate FirstUnknown(ucs: seq<UserCommons>, users: map<int, User>, j: int) {
    0 <= j < |ucs| && Known(ucs[..j], users) && ucs[j].userId !in users
  }

  /** The run over `cs` stops at participant `j` of commons `i`: the first missing user. */
  predicate FirstMissing(cs: seq<Commons>, repos: Repos, i: int, j: int) {
    0 <= i < |cs| && AllKnown(cs[..i], repos) && FirstUnknown(Participants(repos, cs[i]), repos.users, j)
  }

  /** The log of a run over `cs` that stops at participant `j` of commons `i`. */
  function PartialLines(cs: seq<Commons>, repos: Repos, i: int, j: int): seq<string>
    requires FirstMissing(cs, repos, i, j)
  {
    CommonsLines(cs[..i], repos) + [CommonsHeader(cs[i])]
    + ParticipantLines(Participants(repos, cs[i])[..j], repos.users)
  }

  /** The message a run over `cs` that stops at participant `j` of commons `i` throws. */
  function PartialMessage(cs: seq<Commons>, repos: Repos, i: int, j: int): string
    requires FirstMissing(cs, repos, i, j)
  {
    FindByIdError(Participants(repos, cs[i])[j].userId)
  }

  // ---------------------------------------------------------------------------
  // The job body.
  // ---------------------------------------------------------------------------

  /**
    The inner loop over the participants of one commons, starting from the context
    log `log`: look the user up, throw if it is missing, else log two lines.
   */
  function MilkUsers(ucs: seq<UserCommons>, users: map<int, User>, log: seq<string>): (r: Outcome)
    ensures log <= r.log
    ensures r.Completed? <==> Known(ucs, users)
    ensures r.Completed? ==> r.log == log + ParticipantLines(ucs, users)
    decreases |ucs|
  {
    if |ucs| == 0 then Completed(log)
    else
      match FindById(users, ucs[0].userId)
      case None => Failed(FindByIdError(ucs[0].userId), log)
      case Some(user) =>
        assert ParticipantPair(user, ucs[0]) == [UserLine(user, ucs[0])] + [MilkLine(user)];
        MilkUsers(ucs[1..], users, log + [UserLine(user, ucs[0])] + [MilkLine(user)])
  }

  /** The outer loop over the commons: log the header, then run the inner loop. */
  function MilkCommons(cs: seq<Commons>, repos: Repos, log: seq<string>): (r: Outcome)
    ensures log <= r.log
    ensures r.Completed? <==> AllKnown(cs, repos)
    ensures r.Completed? ==> r.log == log + CommonsLines(cs, repos)
    decreases |cs|
  {
    if |cs| == 0 then Completed(log)
    else
      var inner := MilkUsers(Participants(repos, cs[0]), repos.users, log + [CommonsHeader(cs[0])]);
      if inner.Failed? then inner
      else MilkCommons(cs[1..], repos, inner.log)
  }

  /**
    `accept(ctx)`: the whole run. Its first line is always the start line; it
    completes exactly when every participant of every commons has a user, and then
    its log is the reference log, ending with the completion line.
   */
  function Accept(repos: Repos): (r: Outcome)
    ensures |r.log| >= 1 && r.log[0] == StartLine
    ensures r.Completed? <==> AllUsersFound(repos)
    ensures r.Completed? ==> AllKnown(repos.commons, repos) && r.log == ExpectedLog(repos)
    ensures r.Completed? ==> r.log[|r.log| - 1] == DoneLine
  {
    AllKnownIffAllUsersFound(repos);
    var r := MilkCommons(repos.commons, repos, [StartLine]);
    if r.Failed? then r else Completed(r.log + [DoneLine])
  }

  /** The per-commons form of success agrees with the row-level one. */
  lemma AllKnownIffAllUsersFound(repos: Repos)
    ensures AllKnown(repos.commons, repos) <==> AllUsersFound(repos)
  {
    var cs := repos.commons;
    AllKnownAt(cs, repos);
    if AllKnown(cs, repos) {
      forall c, u | c in cs && u in repos.userCommons && u.commonsId == c.id
        ensures u.userId in repos.users
      {
        var i :| 0 <= i < |cs| && cs[i] == c;
        var ps := Participants(repos, c);
        FindByCommonsIdContents(repos.userCommons, c.id);
        var k :| 0 <= k < |ps| && ps[k] == u;
        assert Known(ps, repos.users);
      }
    }
    if AllUsersFound(repos) {
      forall i | 0 <= i < |cs|
        ensures Known(Participants(repos, cs[i]), repos.users)
      {
        var ps := Participants(repos, cs[i]);
        FindByCommonsIdContents(repos.userCommons, cs[i].id);
        forall k | 0 <= k < |ps|
          ensures ps[k].userId in repos.users
        {
          assert ps[k] in ps;
        }
      }
    }
  }
}
