/**
 * The backend's endpoints over its in-memory user table: submitting an
 * assessment appends a record with the next id, and matching looks two
 * records up by id.
 */
module Api {
  import opened Wrappers
  import opened Scoring

  /** One stored result. */
  datatype UserRecord = UserRecord(id: int, name: string, dominantType: Axis, animal: string, scores: Scores)

  /** What a match reports about each of the two users. */
  datatype UserSummary = UserSummary(name: string, dominantType: string, animal: string)

  datatype MatchResult = MatchResult(user1: UserSummary, user2: UserSummary, compatibility: string)

  datatype HttpError = HttpError(status: int, detail: string)

  /** Record k holds id k + 1: what appending with id = length + 1 keeps. */
  ghost predicate SequentialIds(users: seq<UserRecord>) {
    forall k :: 0 <= k < |users| ==> users[k].id == k + 1
  }

  /** The first record with the given id, or None when no record has it. */
  function FindUser(users: seq<UserRecord>, id: int): (r: Option<UserRecord>)
    ensures r.None? <==> forall k :: 0 <= k < |users| ==> users[k].id != id
    ensures r.Some? ==> exists k :: 0 <= k < |users| && users[k] == r.value && r.value.id == id
                                   && forall j :: 0 <= j < k ==> users[j].id != id
  {
    if users == [] then None
    else if users[0].id == id then Some(users[0])
    else
      var r := FindUser(users[1..], id);
      if r.Some? then
        var k :| 0 <= k < |users| - 1 && users[1..][k] == r.value && r.value.id == id
                 && forall j :: 0 <= j < k ==> users[1..][j].id != id;
        assert users[k + 1] == r.value;
        r
      else r
  }

  /** In a table with sequential ids, id n is the n-th record, and ids
      outside 1..length are absent. */
  lemma FindUserSequential(users: seq<UserRecord>, id: int)
    requires SequentialIds(users)
    ensures FindUser(users, id) == if 1 <= id <= |users| then Some(users[id - 1]) else None
  {
    if 1 <= id <= |users| {
      assert users[id - 1].id == id;
    }
  }

  function Summary(u: UserRecord): UserSummary {
    UserSummary(u.name, u.dominantType.Letter(), u.animal)
  }

  /** The users table, kept in memory for the life of the process. */
  class UserStore {
    var users: seq<UserRecord>

    ghost predicate Valid()
      reads this
    {
      SequentialIds(users)
    }

    constructor ()
      ensures Valid() && users == []
    {
      users := [];
    }

    /** Scores the answers and appends the result under the next id. */
    method SubmitAssessment(name: string, answers: seq<Answer>) returns (u: UserRecord)
      requires Valid()
      modifies this
      ensures Valid()
      ensures users == old(users) + [u]
      ensures u.id == |old(users)| + 1 && u.name == name
      ensures forall a: Axis :: u.scores.Get(a) == Tally(answers, a)
      ensures u.dominantType == DominantType(u.scores) && u.animal == AnimalName(u.dominantType)
    {
      var domType, animal, rawScores := CalculateDiscScore(answers);
      DominantTypeUnique(rawScores, domType);
      u := UserRecord(|users| + 1, name, domType, animal, rawScores);
      users := users + [u];
    }

    /** Looks both users up; fails with 404 when either id is absent. The
        text for the pair is the compatibility lookup as written, sorted key
        and all (CompatibilityTextIntended is the corrected lookup). */
    function MatchUsers(id1: int, id2: int): (r: Result<MatchResult, HttpError>)
      reads this
      ensures r.Err? <==> FindUser(users, id1).None? || FindUser(users, id2).None?
      ensures r.Err? ==> r.error == HttpError(404, "User not found")
      ensures r.Ok? ==>
        && r.value.user1 == Summary(FindUser(users, id1).value)
        && r.value.user2 == Summary(FindUser(users, id2).value)
      ensures Valid() ==> (r.Ok? <==> 1 <= id1 <= |users| && 1 <= id2 <= |users|)
      ensures Valid() && r.Ok? ==>
        && r.value.user1 == Summary(users[id1 - 1])
        && r.value.user2 == Summary(users[id2 - 1])
        && r.value.compatibility
           == CompatibilityText(users[id1 - 1].dominantType.Letter(), users[id2 - 1].dominantType.Letter())
    {
      assert Valid() ==>
        && FindUser(users, id1) == (if 1 <= id1 <= |users| then Some(users[id1 - 1]) else None)
        && FindUser(users, id2) == (if 1 <= id2 <= |users| then Some(users[id2 - 1]) else None)
      by {
        if Valid() {
          FindUserSequential(users, id1);
          FindUserSequential(users, id2);
        }
      }
      var u1 := FindUser(users, id1);
      var u2 := FindUser(users, id2);
      if u1.None? || u2.None? then Err(HttpError(404, "User not found"))
      else
        var text := CompatibilityText(u1.value.dominantType.Letter(), u2.value.dominantType.Letter());
        Ok(MatchResult(Summary(u1.value), Summary(u2.value), text))
    }
  }

  /** What the bug in the compatibility lookup costs the match endpoint: a
      successful match reports the intended text exactly when the two users
      are not C paired with another type. */
  lemma MatchTextIntendedUnlessC(store: UserStore, id1: int, id2: int)
    requires store.Valid()
    ensures var r := store.MatchUsers(id1, id2);
      r.Ok? ==>
        var x := store.users[id1 - 1].dominantType;
        var y := store.users[id2 - 1].dominantType;
        (r.value.compatibility == CompatibilityTextIntended(x.Letter(), y.Letter()) <==> ((x == C) == (y == C)))
  {
    var r := store.MatchUsers(id1, id2);
    if r.Ok? {
      var x := store.users[id1 - 1].dominantType;
      var y := store.users[id2 - 1].dominantType;
      CompatibilityOfTypes(x, y);
      CompatibilityIntendedOfTypes(x, y);
      if (x == C) == (y == C) {
        assert PairKey(x.Letter(), y.Letter()) in CompatibilityTexts;
      } else {
        var k := if x.Letter() + y.Letter() in CompatibilityTexts then x.Letter() + y.Letter() else y.Letter() + x.Letter();
        assert CompatibilityTexts[k] != NormalText;
      }
    }
  }
}
