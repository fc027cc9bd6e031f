/**
  Properties of the milking job's log: how a failing run stops, the shape and
  length of a successful run's log, where each commons' lines sit, and which
  lines are commons headers.
 */
module MilkTheCowsProperties {
  import opened Decimal
  import opened Repositories
  import opened MilkTheCowsJob

  // ---------------------------------------------------------------------------
  // Failing runs
  // ---------------------------------------------------------------------------

  /** A failing inner loop stops at the first participant without a user, having logged the pairs before it. */
  lemma {:induction false} MilkUsersFailsAt(ucs: seq<UserCommons>, users: map<int, User>, log: seq<string>)
    returns (j: nat)
    requires MilkUsers(ucs, users, log).Failed?
    ensures FirstUnknown(ucs, users, j)
    ensures MilkUsers(ucs, users, log)
         == Failed(FindByIdError(ucs[j].userId), log + ParticipantLines(ucs[..j], users))
    decreases |ucs|
  {
    if ucs[0].userId !in users {
      j := 0;
      assert ucs[..0] == [];
    } else {
      var user := users[ucs[0].userId];
      var next := log + [UserLine(user, ucs[0])] + [MilkLine(user)];
      var j' := MilkUsersFailsAt(ucs[1..], users, next);
      j := j' + 1;
      var prefix := ucs[..j];
      assert prefix[0] == ucs[0];
      assert prefix[1..] == ucs[1..][..j'];
      forall k | 0 <= k < |prefix|
        ensures prefix[k].userId in users
      {
        if k > 0 {
          assert prefix[k] == ucs[1..][..j'][k - 1];
        }
      }
      assert ParticipantLines(prefix, users)
          == ParticipantPair(user, ucs[0]) + ParticipantLines(ucs[1..][..j'], users);
    }
  }

  /** A failing outer loop stops at the first missing user of the first commons that has one. */
  lemma {:induction false} MilkCommonsFailsAt(cs: seq<Commons>, repos: Repos, log: seq<string>)
    returns (i: nat, j: nat)
    requires MilkCommons(cs, repos, log).Failed?
    ensures FirstMissing(cs, repos, i, j)
    ensures MilkCommons(cs, repos, log)
         == Failed(PartialMessage(cs, repos, i, j), log + PartialLines(cs, repos, i, j))
    decreases |cs|
  {
    var ps := Participants(repos, cs[0]);
    var headerLog := log + [CommonsHeader(cs[0])];
    var inner := MilkUsers(ps, repos.users, headerLog);
    if inner.Failed? {
      i := 0;
      j := FailsInFirstCommons(cs, repos, log);
    } else {
      var i', j' := MilkCommonsFailsAt(cs[1..], repos, inner.log);
      i, j := i' + 1, j';
      PartialLinesCons(cs, repos, i', j');
      ConcatAssoc(log, [CommonsHeader(cs[0])], ParticipantLines(ps, repos.users), PartialLines(cs[1..], repos, i', j'));
    }
  }

  /** The outer loop's first commons is where a failing inner loop stops it. */
  lemma FailsInFirstCommons(cs: seq<Commons>, repos: Repos, log: seq<string>) returns (j: nat)
    requires |cs| > 0
    requires MilkUsers(Participants(repos, cs[0]), repos.users, log + [CommonsHeader(cs[0])]).Failed?
    ensures FirstMissing(cs, repos, 0, j)
    ensures MilkCommons(cs, repos, log)
         == Failed(PartialMessage(cs, repos, 0, j), log + PartialLines(cs, repos, 0, j))
  {
    var ps := Participants(repos, cs[0]);
    j := MilkUsersFailsAt(ps, repos.users, log + [CommonsHeader(cs[0])]);
    PartialLinesHere(cs, repos, j);
    ConcatAssoc(log, [CommonsHeader(cs[0])], ParticipantLines(ps[..j], repos.users), []);
  }

  /** Regrouping a log built by appending three or four pieces, so the pieces can be matched one by one. */
  lemma ConcatAssoc<T>(a: seq<T>, b: seq<T>, c: seq<T>, d: seq<T>)
    ensures a + b + c + d == a + (b + c + d)
    ensures a + b + c == a + (b + c)
  {
  }

  /** A run that stops in its first commons has logged only that commons' header and earlier pairs. */
  lemma PartialLinesHere(cs: seq<Commons>, repos: Repos, j: int)
    requires |cs| > 0
    requires FirstUnknown(Participants(repos, cs[0]), repos.users, j)
    ensures FirstMissing(cs, repos, 0, j)
    ensures PartialLines(cs, repos, 0, j)
         == [CommonsHeader(cs[0])] + ParticipantLines(Participants(repos, cs[0])[..j], repos.users)
  {
    assert cs[..0] == [];
  }

  /** A run that stops after its first commons logged that commons completely first. */
  lemma PartialLinesCons(cs: seq<Commons>, repos: Repos, i: int, j: int)
    requires |cs| > 0
    requires Known(Participants(repos, cs[0]), repos.users)
    requires FirstMissing(cs[1..], repos, i, j)
    ensures FirstMissing(cs, repos, i + 1, j)
    ensures PartialLines(cs, repos, i + 1, j)
         == [CommonsHeader(cs[0])] + ParticipantLines(Participants(repos, cs[0]), repos.users)
            + PartialLines(cs[1..], repos, i, j)
    ensures PartialMessage(cs, repos, i + 1, j) == PartialMessage(cs[1..], repos, i, j)
  {
    assert cs[..i + 1] == [cs[0]] + cs[1..][..i];
    assert cs[i + 1] == cs[1..][i];
    CommonsLinesCons(cs[0], cs[1..][..i], repos);
    ConcatAssoc([CommonsHeader(cs[0])] + ParticipantLines(Participants(repos, cs[0]), repos.users),
                CommonsLines(cs[1..][..i], repos), [CommonsHeader(cs[i + 1])],
                ParticipantLines(Participants(repos, cs[i + 1])[..j], repos.users));
  }

  /** Prepending a commons whose participants all have users to a run of commons. */
  lemma CommonsLinesCons(c: Commons, rest: seq<Commons>, repos: Repos)
    requires Known(Participants(repos, c), repos.users)
    requires AllKnown(rest, repos)
    ensures AllKnown([c] + rest, repos)
    ensures CommonsLines([c] + rest, repos)
         == [CommonsHeader(c)] + ParticipantLines(Participants(repos, c), repos.users) + CommonsLines(rest, repos)
  {
    assert ([c] + rest)[0] == c;
    assert ([c] + rest)[1..] == rest;
  }

  /** A run of commons is fully known exactly when both of its parts are. */
  lemma {:induction false} AllKnownAppend(a: seq<Commons>, b: seq<Commons>, repos: Repos)
    ensures AllKnown(a + b, repos) <==> AllKnown(a, repos) && AllKnown(b, repos)
    decreases |a|
  {
    if |a| == 0 {
      assert a + b == b;
    } else {
      assert (a + b)[0] == a[0];
      assert (a + b)[1..] == a[1..] + b;
      AllKnownAppend(a[1..], b, repos);
    }
  }

  /** Only one participant can be the first without a user. */
  lemma FirstUnknownUnique(ucs: seq<UserCommons>, users: map<int, User>, j: int, j2: int)
    requires FirstUnknown(ucs, users, j) && FirstUnknown(ucs, users, j2)
    ensures j == j2
  {
    forall k | 0 <= k < j ensures ucs[k].userId in users {
      assert ucs[..j][k] == ucs[k];
    }
    forall k | 0 <= k < j2 ensures ucs[k].userId in users {
      assert ucs[..j2][k] == ucs[k];
    }
  }

  /** The point where a run stops is determined by the repositories alone. */
  lemma FirstMissingUnique(cs: seq<Commons>, repos: Repos, i: int, j: int, i2: int, j2: int)
    requires FirstMissing(cs, repos, i, j)
    requires FirstMissing(cs, repos, i2, j2)
    ensures i == i2 && j == j2
  {
    AllKnownAt(cs[..i], repos);
    AllKnownAt(cs[..i2], repos);
    forall k | 0 <= k < i ensures Known(Participants(repos, cs[k]), repos.users) {
      assert cs[..i][k] == cs[k];
    }
    forall k | 0 <= k < i2 ensures Known(Participants(repos, cs[k]), repos.users) {
      assert cs[..i2][k] == cs[k];
    }
    assert i == i2;
    FirstUnknownUnique(Participants(repos, cs[i]), repos.users, j, j2);
  }

  /**
    A failed run throws for the first participant without a user, and its log is
    the start line, the lines of every earlier commons and participant, and the
    failing commons' header; the completion line is never logged.
   */
  lemma AcceptFailure(repos: Repos)
    requires Accept(repos).Failed?
    ensures exists i, j ::
              && FirstMissing(repos.commons, repos, i, j)
              && Accept(repos).message == PartialMessage(repos.commons, repos, i, j)
              && Accept(repos).log == [StartLine] + PartialLines(repos.commons, repos, i, j)
  {
    var i, j := MilkCommonsFailsAt(repos.commons, repos, [StartLine]);
    assert FirstMissing(repos.commons, repos, i, j);
  }

  /** Conversely, a missing user at a stopping point makes the run throw exactly there. */
  lemma AcceptStopsAtFirstMissing(repos: Repos, i: int, j: int)
    requires FirstMissing(repos.commons, repos, i, j)
    ensures Accept(repos).Failed?
    ensures Accept(repos).message == PartialMessage(repos.commons, repos, i, j)
    ensures Accept(repos).log == [StartLine] + PartialLines(repos.commons, repos, i, j)
  {
    var ps := Participants(repos, repos.commons[i]);
    assert ps[j].userId !in repos.users;
    assert !Known(ps, repos.users);
    AllKnownAt(repos.commons, repos);
    assert !AllKnown(repos.commons, repos);
    var i2, j2 := MilkCommonsFailsAt(repos.commons, repos, [StartLine]);
    FirstMissingUnique(repos.commons, repos, i, j, i2, j2);
  }

  /** The exception message names the user id it failed on, so distinct ids give distinct messages. */
  lemma ErrorMessageIdentifiesUser(a: int, b: int)
    ensures FindByIdError(a) == FindByIdError(b) ==> a == b
  {
    var prefix := "Error calling userRepository.findById(";
    var ma, mb := FindByIdError(a), FindByIdError(b);
    assert ma[|prefix|..|ma| - 1] == IntToString(a);
    assert mb[|prefix|..|mb| - 1] == IntToString(b);
    IntToStringInjective(a, b);
  }

  // ---------------------------------------------------------------------------
  // Shape of a successful run's log
  // ---------------------------------------------------------------------------

  /** Each participant contributes exactly two consecutive lines, the user line then the milking line. */
  lemma {:induction false} ParticipantLinePair(ucs: seq<UserCommons>, users: map<int, User>, k: int)
    requires Known(ucs, users)
    requires 0 <= k < |ucs|
    ensures ParticipantLines(ucs, users)[2 * k] == UserLine(users[ucs[k].userId], ucs[k])
    ensures ParticipantLines(ucs, users)[2 * k + 1] == MilkLine(users[ucs[k].userId])
    decreases |ucs|
  {
    if k > 0 {
      ParticipantLinePair(ucs[1..], users, k - 1);
    }
  }

  /** The participants processed over a run of commons, summed. */
  function TotalParticipants(cs: seq<Commons>, repos: Repos): nat
    decreases |cs|
  {
    if |cs| == 0 then 0 else |Participants(repos, cs[0])| + TotalParticipants(cs[1..], repos)
  }

  lemma {:induction false} CommonsLinesLength(cs: seq<Commons>, repos: Repos)
    requires AllKnown(cs, repos)
    ensures |CommonsLines(cs, repos)| == |cs| + 2 * TotalParticipants(cs, repos)
    decreases |cs|
  {
    if |cs| > 0 {
      CommonsLinesLength(cs[1..], repos);
    }
  }

  /** A successful log has the start line, one header per commons, two lines per participant, and the completion line. */
  lemma ExpectedLogLength(repos: Repos)
    requires AllKnown(repos.commons, repos)
    ensures |ExpectedLog(repos)| == 2 + |repos.commons| + 2 * TotalParticipants(repos.commons, repos)
  {
    CommonsLinesLength(repos.commons, repos);
  }

  lemma {:induction false} CommonsLinesAppend(a: seq<Commons>, b: seq<Commons>, repos: Repos)
    requires AllKnown(a, repos) && AllKnown(b, repos)
    ensures AllKnown(a + b, repos)
    ensures CommonsLines(a + b, repos) == CommonsLines(a, repos) + CommonsLines(b, repos)
    ensures TotalParticipants(a + b, repos) == TotalParticipants(a, repos) + TotalParticipants(b, repos)
    decreases |a|
  {
    AllKnownAppend(a, b, repos);
    if |a| == 0 {
      assert a + b == b;
    } else {
      var ab := a + b;
      assert ab[0] == a[0];
      assert ab[1..] == a[1..] + b;
      CommonsLinesAppend(a[1..], b, repos);
      var header := [CommonsHeader(a[0])];
      var pairs := ParticipantLines(Participants(repos, a[0]), repos.users);
      assert CommonsLines(ab, repos) == header + pairs + (CommonsLines(a[1..], repos) + CommonsLines(b, repos));
      assert CommonsLines(a, repos) == header + pairs + CommonsLines(a[1..], repos);
      ConcatAssoc(header + pairs, CommonsLines(a[1..], repos), CommonsLines(b, repos), []);
    }
  }

  /**
    Regrouping the successful log of one commons block: the start line, the earlier
    blocks, then the block itself (header, pairs, later blocks) nested, then the
    completion line, flattened into its six pieces.
   */
  lemma RegroupCommonsBlock<T>(a: seq<T>, b: seq<T>, c: seq<T>, d: seq<T>, e: seq<T>, f: seq<T>)
    ensures a + (b + (c + d + e)) + f == a + b + c + d + e + f
  {
  }

  /**
    In a successful log the block of commons `i` (its header, then its
    participants' lines) comes after the lines of every earlier commons and before
    those of every later one.
   */
  lemma CommonsBlockPlacement(repos: Repos, i: int)
    requires AllKnown(repos.commons, repos)
    requires 0 <= i < |repos.commons|
    ensures Known(Participants(repos, repos.commons[i]), repos.users)
    ensures AllKnown(repos.commons[..i], repos) && AllKnown(repos.commons[i + 1..], repos)
    ensures ExpectedLog(repos)
         == [StartLine] + CommonsLines(repos.commons[..i], repos)
            + [CommonsHeader(repos.commons[i])]
            + ParticipantLines(Participants(repos, repos.commons[i]), repos.users)
            + CommonsLines(repos.commons[i + 1..], repos)
            + [DoneLine]
  {
    var cs := repos.commons;
    assert cs == cs[..i] + cs[i..];
    AllKnownAppend(cs[..i], cs[i..], repos);
    assert cs[i..] == [cs[i]] + cs[i + 1..];
    AllKnownAppend([cs[i]], cs[i + 1..], repos);
    CommonsLinesAppend(cs[..i], cs[i..], repos);
    CommonsLinesCons(cs[i], cs[i + 1..], repos);
    RegroupCommonsBlock([StartLine], CommonsLines(cs[..i], repos), [CommonsHeader(cs[i])],
           ParticipantLines(Participants(repos, cs[i]), repos.users), CommonsLines(cs[i + 1..], repos), [DoneLine]);
  }

  /** The header of commons `i` is line 1 + i + 2 * (participants of the earlier commons). */
  lemma CommonsHeaderIndex(repos: Repos, i: int)
    requires AllKnown(repos.commons, repos)
    requires 0 <= i < |repos.commons|
    ensures 1 + i + 2 * TotalParticipants(repos.commons[..i], repos) < |ExpectedLog(repos)|
    ensures ExpectedLog(repos)[1 + i + 2 * TotalParticipants(repos.commons[..i], repos)]
         == CommonsHeader(repos.commons[i])
  {
    var cs := repos.commons;
    assert cs == cs[..i] + cs[i..];
    AllKnownAppend(cs[..i], cs[i..], repos);
    CommonsLinesAppend(cs[..i], cs[i..], repos);
    CommonsLinesLength(cs[..i], repos);
    var earlier := CommonsLines(cs[..i], repos);
    var rest := CommonsLines(cs[i..], repos);
    assert cs[i..][0] == cs[i];
    assert rest[0] == CommonsHeader(cs[i]);
    assert CommonsLines(cs, repos)[|earlier|] == rest[0];
    assert ExpectedLog(repos)[1 + |earlier|] == CommonsLines(cs, repos)[|earlier|];
  }

  // ---------------------------------------------------------------------------
  // Commons headers
  // ---------------------------------------------------------------------------

  predicate IsCommonsHeader(line: string) {
    HeaderPrefix <= line
  }

  /** The commons names announced by the header lines of `log`, in log order. */
  function HeaderNames(log: seq<string>): seq<string>
    decreases |log|
  {
    if |log| == 0 then []
    else (if IsCommonsHeader(log[0]) then [log[0][|HeaderPrefix|..]] else []) + HeaderNames(log[1..])
  }

  /** The names of a run of commons, in order. */
  function Names(cs: seq<Commons>): (names: seq<string>)
    ensures |names| == |cs|
    decreases |cs|
  {
    if |cs| == 0 then [] else [cs[0].name] + Names(cs[1..])
  }

  lemma {:induction false} NamesAppend(a: seq<Commons>, b: seq<Commons>)
    ensures Names(a + b) == Names(a) + Names(b)
    decreases |a|
  {
    if |a| == 0 {
      assert a + b == b;
    } else {
      assert (a + b)[0] == a[0];
      assert (a + b)[1..] == a[1..] + b;
      NamesAppend(a[1..], b);
    }
  }

  lemma {:induction false} HeaderNamesAppend(a: seq<string>, b: seq<string>)
    ensures HeaderNames(a + b) == HeaderNames(a) + HeaderNames(b)
    decreases |a|
  {
    if |a| == 0 {
      assert a + b == b;
    } else {
      assert (a + b)[0] == a[0];
      assert (a + b)[1..] == a[1..] + b;
      HeaderNamesAppend(a[1..], b);
    }
  }

  lemma HeaderNamesSingle(line: string)
    ensures HeaderNames([line]) == if IsCommonsHeader(line) then [line[|HeaderPrefix|..]] else []
  {
    assert [line][1..] == [];
  }

  /** No participant line is mistaken for a commons header. */
  lemma {:induction false} ParticipantLinesHaveNoHeader(ucs: seq<UserCommons>, users: map<int, User>)
    requires Known(ucs, users)
    ensures HeaderNames(ParticipantLines(ucs, users)) == []
    decreases |ucs|
  {
    if |ucs| > 0 {
      var user := users[ucs[0].userId];
      var userLine, milkLine := UserLine(user, ucs[0]), MilkLine(user);
      assert userLine[0] == 'U' && milkLine[0] == 'L' && HeaderPrefix[0] == 'M';
      HeaderNamesSingle(userLine);
      HeaderNamesSingle(milkLine);
      HeaderNamesAppend([userLine], [milkLine]);
      HeaderNamesAppend(ParticipantPair(user, ucs[0]), ParticipantLines(ucs[1..], users));
      ParticipantLinesHaveNoHeader(ucs[1..], users);
    }
  }

  /** A commons header announces exactly its commons' name. */
  lemma HeaderAnnouncesName(c: Commons)
    ensures HeaderNames([CommonsHeader(c)]) == [c.name]
  {
    var header := CommonsHeader(c);
    assert HeaderPrefix <= header;
    assert header[|HeaderPrefix|..] == c.name;
    HeaderNamesSingle(header);
  }

  /** One commons block contributes its header's name, then whatever the later lines announce. */
  lemma HeadersOfBlock(header: string, name: string, pairs: seq<string>, later: seq<string>, names: seq<string>)
    requires HeaderNames([header]) == [name]
    requires HeaderNames(pairs) == []
    requires HeaderNames(later) == names
    ensures HeaderNames([header] + pairs + later) == [name] + names
  {
    HeaderNamesAppend([header] + pairs, later);
    HeaderNamesAppend([header], pairs);
  }

  lemma {:induction false} CommonsLinesHeaders(cs: seq<Commons>, repos: Repos)
    requires AllKnown(cs, repos)
    ensures HeaderNames(CommonsLines(cs, repos)) == Names(cs)
    decreases |cs|
  {
    if |cs| > 0 {
      HeaderAnnouncesName(cs[0]);
      ParticipantLinesHaveNoHeader(Participants(repos, cs[0]), repos.users);
      CommonsLinesHeaders(cs[1..], repos);
      HeadersOfBlock(CommonsHeader(cs[0]), cs[0].name, ParticipantLines(Participants(repos, cs[0]), repos.users),
                     CommonsLines(cs[1..], repos), Names(cs[1..]));
    }
  }

  lemma StartAndDoneAreNoHeaders()
    ensures HeaderNames([StartLine]) == [] && HeaderNames([DoneLine]) == []
  {
    assert StartLine[0] == 'S' && DoneLine[0] == 'C' && HeaderPrefix[0] == 'M';
    HeaderNamesSingle(StartLine);
    HeaderNamesSingle(DoneLine);
  }

  /** A successful log holds exactly one header per commons, in repository order. */
  lemma CompletedHeaders(repos: Repos)
    requires AllKnown(repos.commons, repos)
    ensures HeaderNames(ExpectedLog(repos)) == Names(repos.commons)
  {
    var body := CommonsLines(repos.commons, repos);
    StartAndDoneAreNoHeaders();
    HeaderNamesAppend([StartLine], body);
    HeaderNamesAppend([StartLine] + body, [DoneLine]);
    CommonsLinesHeaders(repos.commons, repos);
  }

  /** A failed log holds the headers of the commons up to and including the failing one, in order. */
  lemma FailedHeaders(repos: Repos, i: int, j: int)
    requires FirstMissing(repos.commons, repos, i, j)
    ensures HeaderNames([StartLine] + PartialLines(repos.commons, repos, i, j)) == Names(repos.commons[..i + 1])
  {
    var cs := repos.commons;
    var done := CommonsLines(cs[..i], repos);
    var tail := ParticipantLines(Participants(repos, cs[i])[..j], repos.users);
    var started := [StartLine] + done;
    var headed := started + [CommonsHeader(cs[i])];
    assert [StartLine] + PartialLines(cs, repos, i, j) == headed + tail;
    HeaderNamesAppend(headed, tail);
    ParticipantLinesHaveNoHeader(Participants(repos, cs[i])[..j], repos.users);
    assert HeaderNames(headed + tail) == HeaderNames(headed);
    HeaderNamesAppend(started, [CommonsHeader(cs[i])]);
    HeaderAnnouncesName(cs[i]);
    HeaderNamesAppend([StartLine], done);
    StartAndDoneAreNoHeaders();
    CommonsLinesHeaders(cs[..i], repos);
    assert HeaderNames(headed) == Names(cs[..i]) + [cs[i].name];
    assert cs[..i + 1] == cs[..i] + [cs[i]];
    NamesAppend(cs[..i], [cs[i]]);
    assert Names([cs[i]]) == [cs[i].name] + Names([]);
  }
}
