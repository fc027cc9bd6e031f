/**
  The entities the milking job reads and a snapshot of the three Spring Data
  repositories it queries (commons, user-commons and users). Only the fields the
  job reads are kept. The repositories are immutable values here: the job never
  writes to them.
 */
module Repositories {
  import opened Optional

  /** One commons (a shared pasture). */
  datatype Commons = Commons(id: int, name: string)

  /**
    A participant record: one user's herd in one commons. `cowHealth` is a Java
    `double`; it is kept as the text its string concatenation produces.
   */
  datatype UserCommons = UserCommons(commonsId: int, userId: int, numOfCows: int, cowHealth: string)

  datatype User = User(fullName: string)

  /**
    A snapshot of the repositories: `commons` in the order `findAll` iterates them,
    `userCommons` as the rows of the user-commons table in storage order, `users`
    keyed by user id.
   */
  datatype Repos = Repos(commons: seq<Commons>, userCommons: seq<UserCommons>, users: map<int, User>)

  /** `userRepository.findById(id)`. */
  function FindById(users: map<int, User>, id: int): (r: Option<User>)
    ensures r.Some? <==> id in users
    ensures r.Some? ==> r.value == users[id]
  {
    if id in users then Some(users[id]) else None
  }

  /**
    `userCommonsRepository.findByCommonsId(id)`: the rows of the table whose commons
    id is `id`, each as often as it occurs, in table order.
   */
  function FindByCommonsId(table: seq<UserCommons>, id: int): seq<UserCommons>
    decreases |table|
  {
    if |table| == 0 then []
    else (if table[0].commonsId == id then [table[0]] else []) + FindByCommonsId(table[1..], id)
  }

  /** The query returns every row of the commons as often as the table holds it, and no other row. */
  lemma {:induction false} FindByCommonsIdContents(table: seq<UserCommons>, id: int)
    ensures forall u :: multiset(FindByCommonsId(table, id))[u] == if u.commonsId == id then multiset(table)[u] else 0
    ensures forall u :: u in FindByCommonsId(table, id) <==> u in table && u.commonsId == id
    decreases |table|
  {
    if |table| > 0 {
      assert table == [table[0]] + table[1..];
      FindByCommonsIdContents(table[1..], id);
    }
  }

  /** The participants the job visits under commons `c`. */
  function Participants(repos: Repos, c: Commons): seq<UserCommons> {
    FindByCommonsId(repos.userCommons, c.id)
  }

  /** The query keeps table order: querying two halves of the table and joining the answers. */
  lemma {:induction false} FindByCommonsIdAppend(a: seq<UserCommons>, b: seq<UserCommons>, id: int)
    ensures FindByCommonsId(a + b, id) == FindByCommonsId(a, id) + FindByCommonsId(b, id)
    decreases |a|
  {
    if |a| > 0 {
      var head := if a[0].commonsId == id then [a[0]] else [];
      assert (a + b)[0] == a[0];
      assert (a + b)[1..] == a[1..] + b;
      assert FindByCommonsId(a + b, id) == head + FindByCommonsId(a[1..] + b, id);
      assert FindByCommonsId(a, id) == head + FindByCommonsId(a[1..], id);
      FindByCommonsIdAppend(a[1..], b, id);
    } else {
      assert a + b == b;
    }
  }

  /** A single row is returned exactly when it belongs to the commons. */
  lemma FindByCommonsIdSingle(u: UserCommons, id: int)
    ensures FindByCommonsId([u], id) == if u.commonsId == id then [u] else []
  {
    assert [u][1..] == [];
  }
}
