/**
 * The election ledger of src/app/app.c. The three record lists become
 * sequences in insertion order, the four hash indexes become maps (the
 * id indexes map an id to the position of its record, the email index maps
 * an email hash to the position of the user, has_voted is the set of pair
 * keys), and `current_user` is the position of the logged-in user.
 */
module App {
  import opened Common
  import opened SelectionTree
  import Tally


  /** MAX_CAND: the size of an election's candidate table and of the tally's count array. */
  const MaxCand: nat := 128

  datatype Role = Voter | Admin

  /** election_phase_t, in declaration order. */
  datatype Phase = Created | RegistrationOpen | VotingOpen | VotingClosed | TallyComplete

  function PhaseRank(p: Phase): nat
  {
    match p
    case Created => 0
    case RegistrationOpen => 1
    case VotingOpen => 2
    case VotingClosed => 3
    case TallyComplete => 4
  }

  newtype byte = b: int | 0 <= b < 256

  /** The 32-byte password digest of the auth module, treated as opaque. */
  type Digest = seq<byte>

  datatype User = User(id: nat, name: string, email: string, role: Role, passHash: Digest, active: bool)

  datatype Election = Election(
    id: nat, title: string, description: string, phase: Phase,
    candidateCount: nat, candidates: seq<string>)

  datatype Vote = Vote(id: nat, electionId: nat, voterId: nat, choice: nat)

  /**
   * What `strncpy(dst, src, limit)` leaves in a zeroed buffer: the C string
   * `s` (the characters before its first NUL) cut to at most `limit` characters.
   */
  function CPrefix(s: string, limit: nat): (r: string)
    ensures |r| <= limit && r <= s
    ensures forall i :: 0 <= i < |r| ==> r[i] != '\0'
    ensures |r| < limit ==> |r| == |s| || s[|r|] == '\0'
  {
    if |s| == 0 || limit == 0 || s[0] == '\0' then []
    else [s[0]] + CPrefix(s[1..], limit - 1)
  }

  /**
   * vote_key: `(election_id << 32) ^ (voter_id & 0xffffffff)` on uint64. The
   * shift keeps the low 32 bits of the election id in the high half, the mask
   * keeps the low 32 bits of the voter id in the low half, so the exclusive
   * or joins two disjoint halves.
   */
  function VoteKey(electionId: nat, voterId: nat): (k: uint64)
    ensures k as int / 0x1_0000_0000 == electionId % 0x1_0000_0000
    ensures k as int % 0x1_0000_0000 == voterId % 0x1_0000_0000
  {
    ((electionId % 0x1_0000_0000) * 0x1_0000_0000 + voterId % 0x1_0000_0000) as uint64
  }

  /** Below 2^32 distinct pairs get distinct keys. */
  lemma VoteKeyInjective(e1: nat, v1: nat, e2: nat, v2: nat)
    requires e1 < 0x1_0000_0000 && v1 < 0x1_0000_0000 && e2 < 0x1_0000_0000 && v2 < 0x1_0000_0000
    requires VoteKey(e1, v1) == VoteKey(e2, v2)
    ensures e1 == e2 && v1 == v2
  {
  }

  /** From 2^32 on the key drops the high bits: voter 2^32 collides with voter 0. */
  lemma VoteKeyCollision(e: nat)
    ensures VoteKey(e, 0x1_0000_0000) == VoteKey(e, 0)
  {
  }

  function KeyOf(v: Vote): uint64
  {
    VoteKey(v.electionId, v.voterId)
  }

  /** The has_voted index that a sequence of successful casts builds. */
  ghost function KeysOf(vs: seq<Vote>): set<uint64>
  {
    if |vs| == 0 then {} else KeysOf(vs[..|vs| - 1]) + {KeyOf(vs[|vs| - 1])}
  }

  /** has_voted holds a key exactly when some recorded vote has that key. */
  lemma {:induction false} KeysOfMembers(vs: seq<Vote>, k: uint64)
    ensures k in KeysOf(vs) <==> exists i :: 0 <= i < |vs| && KeyOf(vs[i]) == k
  {
    if |vs| > 0 {
      var init := vs[..|vs| - 1];
      KeysOfMembers(init, k);
      if k in KeysOf(init) {
        var i :| 0 <= i < |init| && KeyOf(init[i]) == k;
        assert KeyOf(vs[i]) == k;
      }
      if exists i :: 0 <= i < |vs| && KeyOf(vs[i]) == k {
        var i :| 0 <= i < |vs| && KeyOf(vs[i]) == k;
        if i < |init| {
          assert KeyOf(init[i]) == k;
        }
      }
    }
  }

  /** The number of votes of election e for candidate c. */
  ghost function CountFor(vs: seq<Vote>, e: nat, c: nat): (n: nat)
    ensures n <= |vs|
  {
    if |vs| == 0 then 0
    else CountFor(vs[..|vs| - 1], e, c) + (if vs[|vs| - 1].electionId == e && vs[|vs| - 1].choice == c then 1 else 0)
  }

  /** The uint64 counter `counts[c]++` after n increments. */
  function Wrap(n: nat): uint64
  {
    (n % 0x1_0000_0000_0000_0000) as uint64
  }

  lemma WrapStep(n: nat, w: uint64)
    requires w == Wrap(n)
    ensures Wrap(n + 1) == if w as nat == 0x1_0000_0000_0000_0000 - 1 then 0 else w + 1
  {
  }

  /** With fewer than 2^64 votes the uint64 counters cannot wrap. */
  lemma CountsExact(vs: seq<Vote>, e: nat, c: nat)
    requires |vs| < 0x1_0000_0000_0000_0000
    ensures Wrap(CountFor(vs, e, c)) as nat == CountFor(vs, e, c)
  {
  }

  /** An id index over records 1 .. n stored at positions 0 .. n - 1. */
  ghost function IdIndex(n: nat): map<nat, nat>
  {
    if n == 0 then map[] else IdIndex(n - 1)[n := n - 1]
  }

  /** The id index holds exactly the ids 1 .. n, each at position id - 1. */
  lemma {:induction false} IdIndexLookup(n: nat, id: nat)
    ensures id in IdIndex(n) <==> 1 <= id <= n
    ensures id in IdIndex(n) ==> IdIndex(n)[id] == id - 1
  {
    if n > 0 && id != n {
      IdIndexLookup(n - 1, id);
    }
  }

  /** The email index that registering users under keys `ks`, in order, builds. */
  ghost function EmailIndex(ks: seq<uint64>): map<uint64, nat>
  {
    if |ks| == 0 then map[] else EmailIndex(ks[..|ks| - 1])[ks[|ks| - 1] := |ks| - 1]
  }

  /** A key of the email index points back at a user registered under that key. */
  lemma {:induction false} EmailIndexSound(ks: seq<uint64>, h: uint64)
    requires h in EmailIndex(ks)
    ensures EmailIndex(ks)[h] < |ks| && ks[EmailIndex(ks)[h]] == h
  {
    var init := ks[..|ks| - 1];
    if h != ks[|ks| - 1] {
      EmailIndexSound(init, h);
    }
  }

  /** No two users were registered under the same email hash. */
  ghost predicate DistinctEmailKeys(ks: seq<uint64>)
  {
    forall i, j :: 0 <= i < j < |ks| ==> ks[i] != ks[j]
  }

  /**
   * With distinct keys the email index finds every user under its own key:
   * user i is stored at position i under ks[i].
   */
  lemma {:induction false} EmailIndexComplete(ks: seq<uint64>, i: nat)
    requires DistinctEmailKeys(ks) && i < |ks|
    ensures ks[i] in EmailIndex(ks) && EmailIndex(ks)[ks[i]] == i
  {
    var init := ks[..|ks| - 1];
    if i < |ks| - 1 {
      assert init[i] == ks[i];
      assert ks[i] != ks[|ks| - 1];
      assert DistinctEmailKeys(init) by {
        forall a, b | 0 <= a < b < |init|
          ensures init[a] != init[b]
        {
          assert init[a] == ks[a] && init[b] == ks[b];
        }
      }
      EmailIndexComplete(init, i);
    }
  }

  /** A key the email index does not hold was used by no user. */
  lemma {:induction false} EmailIndexHoldsAllKeys(ks: seq<uint64>, h: uint64)
    requires h !in EmailIndex(ks)
    ensures forall i :: 0 <= i < |ks| ==> ks[i] != h
  {
    if |ks| > 0 {
      var init := ks[..|ks| - 1];
      EmailIndexHoldsAllKeys(init, h);
      assert forall i :: 0 <= i < |init| ==> init[i] == ks[i];
    }
  }

  /** No two votes of the sequence have the same pair key. */
  ghost predicate DistinctKeys(vs: seq<Vote>)
  {
    |vs| == 0 || (DistinctKeys(vs[..|vs| - 1]) && KeyOf(vs[|vs| - 1]) !in KeysOf(vs[..|vs| - 1]))
  }

  lemma {:induction false} DistinctKeysPairwise(vs: seq<Vote>)
    requires DistinctKeys(vs)
    ensures forall i, j :: 0 <= i < j < |vs| ==> KeyOf(vs[i]) != KeyOf(vs[j])
  {
    if |vs| > 0 {
      var init := vs[..|vs| - 1];
      DistinctKeysPairwise(init);
      forall i, j | 0 <= i < j < |vs|
        ensures KeyOf(vs[i]) != KeyOf(vs[j])
      {
        if j == |vs| - 1 {
          KeysOfMembers(init, KeyOf(vs[j]));
          assert KeyOf(init[i]) == KeyOf(vs[i]);
        } else {
          assert KeyOf(init[i]) != KeyOf(init[j]);
        }
      }
    }
  }

  /*
   * The per-record facts of the invariants are kept as prefix recursions,
   * each with a lemma giving the pointwise reading, so that a method that only
   * appends or updates one record reasons about that record alone.
   */

  /** Users get ids `next_user_id++` from 1: user i has id i + 1. */
  ghost predicate UserIdsInOrder(users: seq<User>)
  {
    |users| == 0 || (UserIdsInOrder(users[..|users| - 1]) && users[|users| - 1].id == |users|)
  }

  lemma {:induction false} UserIdsInOrderIff(users: seq<User>)
    ensures UserIdsInOrder(users) <==> forall i :: 0 <= i < |users| ==> users[i].id == i + 1
  {
    if |users| > 0 {
      var init := users[..|users| - 1];
      UserIdsInOrderIff(init);
      assert forall i :: 0 <= i < |init| ==> init[i] == users[i];
    }
  }

  /** Election i has id i + 1 and a candidate table of its candidate count. */
  ghost predicate ElectionShapeOk(el: Election, i: nat)
  {
    el.id == i + 1 && el.candidateCount == |el.candidates| <= MaxCand
  }

  ghost predicate ElectionsInOrder(elections: seq<Election>)
  {
    |elections| == 0 ||
    (ElectionsInOrder(elections[..|elections| - 1]) &&
     ElectionShapeOk(elections[|elections| - 1], |elections| - 1))
  }

  lemma {:induction false} ElectionsInOrderIff(elections: seq<Election>)
    ensures ElectionsInOrder(elections) <==>
      forall i :: 0 <= i < |elections| ==> ElectionShapeOk(elections[i], i)
  {
    if |elections| > 0 {
      var init := elections[..|elections| - 1];
      ElectionsInOrderIff(init);
      assert forall i :: 0 <= i < |init| ==> init[i] == elections[i];
    }
  }

  /** Vote i has id i + 1 and names an existing election, one of its candidates and an existing user. */
  ghost predicate VoteOk(v: Vote, i: nat, elections: seq<Election>, userCount: nat)
  {
    && v.id == i + 1
    && 1 <= v.electionId <= |elections|
    && v.choice < elections[v.electionId - 1].candidateCount
    && 1 <= v.voterId <= userCount
  }

  ghost predicate VotesInOrder(votes: seq<Vote>, elections: seq<Election>, userCount: nat)
  {
    |votes| == 0 ||
    (VotesInOrder(votes[..|votes| - 1], elections, userCount) &&
     VoteOk(votes[|votes| - 1], |votes| - 1, elections, userCount))
  }

  lemma {:induction false} VotesInOrderIff(votes: seq<Vote>, elections: seq<Election>, userCount: nat)
    ensures VotesInOrder(votes, elections, userCount) <==>
      forall i :: 0 <= i < |votes| ==> VoteOk(votes[i], i, elections, userCount)
  {
    if |votes| > 0 {
      var init := votes[..|votes| - 1];
      VotesInOrderIff(init, elections, userCount);
      assert forall i :: 0 <= i < |init| ==> init[i] == votes[i];
    }
  }

  /**
   * The user list, its id index and its email index agree: the id index is
   * what numbering the users 1, 2, ... built, the email index what
   * registering them under `emailKeys` built.
   */
  ghost predicate UsersOk(next: nat, users: seq<User>, byId: map<nat, nat>,
                          emailKeys: seq<uint64>, byEmail: map<uint64, nat>)
  {
    && next == |users| + 1
    && UserIdsInOrder(users)
    && byId == IdIndex(|users|)
    && |emailKeys| == |users|
    && DistinctEmailKeys(emailKeys)
    && byEmail == EmailIndex(emailKeys)
  }

  /**
   * Registering one more user under the next id and an email hash not yet
   * indexed keeps the user invariant.
   */
  lemma RegisterKeepsUsersOk(next: nat, users: seq<User>, byId: map<nat, nat>,
                             emailKeys: seq<uint64>, byEmail: map<uint64, nat>, u: User, h: uint64)
    requires UsersOk(next, users, byId, emailKeys, byEmail) && u.id == next && h !in byEmail
    ensures UsersOk(next + 1, users + [u], byId[next := |users|], emailKeys + [h], byEmail[h := |users|])
  {
    assert (users + [u])[..|users|] == users;
    assert (emailKeys + [h])[..|emailKeys|] == emailKeys;
    EmailIndexHoldsAllKeys(emailKeys, h);
  }

  /** The election list and its id index agree. */
  ghost predicate ElectionsOk(next: nat, elections: seq<Election>, byId: map<nat, nat>)
  {
    && next == |elections| + 1
    && ElectionsInOrder(elections)
    && byId == IdIndex(|elections|)
  }

  /**
   * The vote list is numbered 1, 2, ..., refers to existing records, and
   * has_voted holds exactly its pair keys, which are distinct.
   */
  ghost predicate VotesOk(next: nat, votes: seq<Vote>, elections: seq<Election>, userCount: nat,
                          hasVoted: set<uint64>)
  {
    && next == |votes| + 1
    && VotesInOrder(votes, elections, userCount)
    && hasVoted == KeysOf(votes)
    && DistinctKeys(votes)
  }

  /** A new election under the next id keeps the election invariant. */
  lemma NewElectionKeepsOk(next: nat, elections: seq<Election>, byId: map<nat, nat>, el: Election)
    requires ElectionsOk(next, elections, byId)
    requires el.id == next && el.candidateCount == |el.candidates| <= MaxCand
    ensures ElectionsOk(next + 1, elections + [el], byId[next := |elections|])
  {
    assert (elections + [el])[..|elections|] == elections;
  }

  /** A phase change keeps the election invariant. */
  lemma PhaseKeepsElectionsOk(next: nat, elections: seq<Election>, byId: map<nat, nat>, k: nat, ph: Phase)
    requires ElectionsOk(next, elections, byId) && k < |elections|
    ensures ElectionsOk(next, elections[k := elections[k].(phase := ph)], byId)
  {
    var els' := elections[k := elections[k].(phase := ph)];
    ElectionsInOrderIff(elections);
    ElectionsInOrderIff(els');
    assert forall i :: 0 <= i < |els'| ==> ElectionShapeOk(elections[i], i) ==> ElectionShapeOk(els'[i], i);
  }

  /**
   * The votes stay valid when users are added and elections are added or
   * change phase: they depend only on how many users and elections there are
   * and on the candidate counts.
   */
  lemma VotesOkFrame(next: nat, votes: seq<Vote>, elections: seq<Election>, elections': seq<Election>,
                     userCount: nat, userCount': nat, hasVoted: set<uint64>)
    requires VotesOk(next, votes, elections, userCount, hasVoted)
    requires userCount <= userCount' && |elections| <= |elections'|
    requires forall i :: 0 <= i < |elections| ==> elections'[i].candidateCount == elections[i].candidateCount
    ensures VotesOk(next, votes, elections', userCount', hasVoted)
  {
    VotesInOrderIff(votes, elections, userCount);
    VotesInOrderIff(votes, elections', userCount');
    assert forall i :: 0 <= i < |votes| ==>
      VoteOk(votes[i], i, elections, userCount) ==> VoteOk(votes[i], i, elections', userCount');
  }

  /** Casting a vote under the next id with a fresh pair key keeps the vote invariant. */
  lemma CastKeepsVotesOk(next: nat, votes: seq<Vote>, elections: seq<Election>, userCount: nat,
                         hasVoted: set<uint64>, v: Vote)
    requires VotesOk(next, votes, elections, userCount, hasVoted)
    requires VoteOk(v, |votes|, elections, userCount) && KeyOf(v) !in hasVoted
    ensures VotesOk(next + 1, votes + [v], elections, userCount, hasVoted + {KeyOf(v)})
  {
    assert (votes + [v])[..|votes|] == votes;
  }

  class AppState {
    const emailHash: string -> uint64
    const passwordHash: string -> Digest

    var nextUserId: nat
    var nextElectionId: nat
    var nextVoteId: nat
    var users: seq<User>
    var elections: seq<Election>
    var votes: seq<Vote>
    var userById: map<nat, nat>
    var userByEmail: map<uint64, nat>
    var electionById: map<nat, nat>
    var hasVoted: set<uint64>
    var currentUser: Option<nat>
    /** The email hash each user was registered under, by position. */
    ghost var EmailKeys: seq<uint64>

    /**
     * The lists, indexes and counters agree (UsersOk, ElectionsOk, VotesOk)
     * and the session names an existing user.
     */
    ghost predicate Valid()
      reads this
    {
      && UsersOk(nextUserId, users, userById, EmailKeys, userByEmail)
      && (currentUser.Some? ==> currentUser.value < |users|)
      && ElectionsOk(nextElectionId, elections, electionById)
      && VotesOk(nextVoteId, votes, elections, |users|, hasVoted)
    }

    /** Each election's phase is at or past where it was before. */
    twostate predicate PhasesForward()
      reads this
    {
      && |old(elections)| <= |elections|
      && forall i :: 0 <= i < |old(elections)| ==>
           PhaseRank(old(elections)[i].phase) <= PhaseRank(elections[i].phase)
    }

    /**
     * app_init: empty lists and indexes, all counters 1, nobody logged in.
     * The four hash_table_init calls cannot fail in the model.
     */
    constructor Init(emailHash: string -> uint64, passwordHash: string -> Digest)
      ensures Valid()
      ensures this.emailHash == emailHash && this.passwordHash == passwordHash
      ensures nextUserId == 1 && nextElectionId == 1 && nextVoteId == 1
      ensures users == [] && elections == [] && votes == []
      ensures userById == map[] && userByEmail == map[] && electionById == map[] && hasVoted == {}
      ensures currentUser == None
    {
      this.emailHash := emailHash;
      this.passwordHash := passwordHash;
      nextUserId := 1;
      nextElectionId := 1;
      nextVoteId := 1;
      users := [];
      elections := [];
      votes := [];
      userById := map[];
      userByEmail := map[];
      electionById := map[];
      hasVoted := {};
      currentUser := None;
      EmailKeys := [];
    }

    /**
     * Every registered user is found under its own email hash, and no two
     * users share one.
     */
    lemma UserFoundByOwnEmail(i: nat)
      requires Valid() && i < |users|
      ensures EmailKeys[i] in userByEmail && userByEmail[EmailKeys[i]] == i
      ensures forall j :: 0 <= j < |users| && j != i ==> EmailKeys[j] != EmailKeys[i]
    {
      EmailIndexComplete(EmailKeys, i);
    }

    /** Every id counter is above every id of its list. */
    lemma CountersAboveIds()
      requires Valid()
      ensures forall i :: 0 <= i < |users| ==> users[i].id < nextUserId
      ensures forall i :: 0 <= i < |elections| ==> elections[i].id < nextElectionId
      ensures forall i :: 0 <= i < |votes| ==> votes[i].id < nextVoteId
    {
      UserIdsInOrderIff(users);
      ElectionsInOrderIff(elections);
      VotesInOrderIff(votes, elections, |users|);
    }

    /**
     * app_register_user: refuse an email whose hash is already indexed,
     * otherwise append the user under the next id with the digest of the
     * password (the salt stays all zero) and index it by id and by email hash.
     */
    method RegisterUser(name: string, email: string, password: string, role: Role) returns (rc: int)
      requires Valid()
      modifies this
      ensures Valid() && PhasesForward()
      ensures rc == 0 || rc == -1
      ensures rc == -1 <==> emailHash(email) in old(userByEmail)
      ensures rc == -1 ==> unchanged(this)
      ensures rc == 0 ==>
        && users == old(users) + [User(old(nextUserId), CPrefix(name, 63), CPrefix(email, 127),
                                       role, passwordHash(password), true)]
        && nextUserId == old(nextUserId) + 1
        && userById == old(userById)[old(nextUserId) := |old(users)|]
        && userByEmail == old(userByEmail)[emailHash(email) := |old(users)|]
        && elections == old(elections) && votes == old(votes)
        && electionById == old(electionById) && hasVoted == old(hasVoted)
        && nextElectionId == old(nextElectionId) && nextVoteId == old(nextVoteId)
        && currentUser == old(currentUser)
    {
      var h := emailHash(email);
      if h in userByEmail {
        return -1;
      }
      var u := User(nextUserId, CPrefix(name, 63), CPrefix(email, 127), role, passwordHash(password), true);
      AppendUser(u, h);
      return 0;
    }

    /** The list_push_back and the two hash_table_put calls of a registration. */
    method AppendUser(u: User, h: uint64)
      requires Valid() && u.id == nextUserId && h !in userByEmail
      modifies this`users, this`userById, this`userByEmail, this`EmailKeys, this`nextUserId
      ensures Valid()
      ensures users == old(users) + [u] && nextUserId == old(nextUserId) + 1
      ensures userById == old(userById)[old(nextUserId) := |old(users)|]
      ensures userByEmail == old(userByEmail)[h := |old(users)|]
    {
      var pos := |users|;
      RegisterKeepsUsersOk(nextUserId, users, userById, EmailKeys, userByEmail, u, h);
      VotesOkFrame(nextVoteId, votes, elections, elections, pos, pos + 1, hasVoted);
      users, userById, userByEmail, EmailKeys, nextUserId :=
        users + [u], userById[nextUserId := pos], userByEmail[h := pos], EmailKeys + [h], nextUserId + 1;
    }

    /**
     * app_login (the three-parameter definition): look the user up by email
     * hash only and compare password digests. Failure leaves the session alone.
     */
    method Login(email: string, password: string) returns (rc: int)
      requires Valid()
      modifies this`currentUser
      ensures Valid()
      ensures rc == 0 || rc == -1
      ensures rc == 0 <==> PasswordMatches(emailHash(email), password)
      ensures rc == 0 ==> currentUser == Some(userByEmail[emailHash(email)])
      ensures rc == 0 ==> EmailKeys[currentUser.value] == emailHash(email)
      ensures rc == -1 ==> currentUser == old(currentUser)
    {
      var h := emailHash(email);
      if h !in userByEmail {
        return -1;
      }
      var pos := userByEmail[h];
      EmailIndexSound(EmailKeys, h);
      if passwordHash(password) != users[pos].passHash {
        return -1;
      }
      currentUser := Some(pos);
      return 0;
    }

    /** The user indexed under email hash h has the digest of `password`. */
    ghost predicate PasswordMatches(h: uint64, password: string)
      reads this
    {
      h in userByEmail && userByEmail[h] < |users| && passwordHash(password) == users[userByEmail[h]].passHash
    }

    /** app_logout. */
    method Logout()
      requires Valid()
      modifies this`currentUser
      ensures Valid() && currentUser == None
    {
      currentUser := None;
    }

    /** The logged-in user is an admin. */
    ghost predicate AdminLoggedIn()
      reads this
      requires Valid()
    {
      currentUser.Some? && users[currentUser.value].role == Admin
    }

    /**
     * app_create_election: only a logged-in admin may create; the election
     * gets the next id, phase CREATED and a copy of the first `candCount`
     * candidate names. The caller's table holds `candCount` names and at most
     * MAX_CAND of them fit the record.
     */
    method CreateElection(title: string, desc: string, candidates: seq<string>, candCount: nat)
      returns (rc: int)
      requires Valid()
      requires candCount <= |candidates| && candCount <= MaxCand
      modifies this
      ensures Valid() && PhasesForward()
      ensures rc == 0 || rc == -1
      ensures rc == 0 <==> old(AdminLoggedIn())
      ensures rc == -1 ==> unchanged(this)
      ensures rc == 0 ==>
        && |elections| == |old(elections)| + 1
        && elections[..|old(elections)|] == old(elections)
        && elections[|old(elections)|] ==
             Election(old(nextElectionId), CPrefix(title, 127), CPrefix(desc, 511), Created, candCount,
                      elections[|old(elections)|].candidates)
        && (forall i :: 0 <= i < candCount ==>
              elections[|old(elections)|].candidates[i] == CPrefix(candidates[i], 63))
        && nextElectionId == old(nextElectionId) + 1
        && electionById == old(electionById)[old(nextElectionId) := |old(elections)|]
        && users == old(users) && votes == old(votes) && userById == old(userById)
        && userByEmail == old(userByEmail) && hasVoted == old(hasVoted)
        && nextUserId == old(nextUserId) && nextVoteId == old(nextVoteId)
        && currentUser == old(currentUser)
    {
      if currentUser.None? || users[currentUser.value].role != Admin {
        return -1;
      }
      var names := CopyCandidates(candidates, candCount);
      var el := Election(nextElectionId, CPrefix(title, 127), CPrefix(desc, 511), Created, candCount, names);
      AppendElection(el);
      return 0;
    }

    /** The list_push_back and hash_table_put of a new election. */
    method AppendElection(el: Election)
      requires Valid()
      requires el.id == nextElectionId && el.candidateCount == |el.candidates| <= MaxCand
      modifies this`elections, this`electionById, this`nextElectionId
      ensures Valid()
      ensures elections == old(elections) + [el] && nextElectionId == old(nextElectionId) + 1
      ensures electionById == old(electionById)[old(nextElectionId) := |old(elections)|]
    {
      var pos := |elections|;
      NewElectionKeepsOk(nextElectionId, elections, electionById, el);
      VotesOkFrame(nextVoteId, votes, elections, elections + [el], |users|, |users|, hasVoted);
      elections, electionById, nextElectionId := elections + [el], electionById[nextElectionId := pos], nextElectionId + 1;
    }

    /** The position of election `id`, the hash_table_get of find_election_by_id. */
    method FindElection(id: nat) returns (found: bool, pos: nat)
      requires Valid()
      ensures found <==> 1 <= id <= |elections|
      ensures found ==> pos == id - 1 && elections[pos].id == id
    {
      IdIndexLookup(|elections|, id);
      ElectionsInOrderIff(elections);
      if id !in electionById {
        return false, 0;
      }
      return true, electionById[id];
    }

    /**
     * app_open_voting: an existing election, a logged-in admin and phase
     * CREATED or REGISTRATION_OPEN move the election to VOTING_OPEN.
     */
    method OpenVoting(electionId: nat) returns (rc: int)
      requires Valid()
      modifies this`elections
      ensures Valid() && PhasesForward()
      ensures rc == 0 || rc == -1
      ensures rc == 0 <==>
        1 <= electionId <= |old(elections)| && old(AdminLoggedIn()) &&
        old(elections)[electionId - 1].phase in {Created, RegistrationOpen}
      ensures rc == -1 ==> elections == old(elections)
      ensures rc == 0 ==>
        elections == old(elections)[electionId - 1 := old(elections)[electionId - 1].(phase := VotingOpen)]
    {
      var found, pos := FindElection(electionId);
      if !found || currentUser.None? || users[currentUser.value].role != Admin {
        return -1;
      }
      var el := elections[pos];
      if el.phase == Created || el.phase == RegistrationOpen {
        PhaseKeepsElectionsOk(nextElectionId, elections, electionById, pos, VotingOpen);
        VotesOkFrame(nextVoteId, votes, elections, elections[pos := el.(phase := VotingOpen)], |users|, |users|, hasVoted);
        elections := elections[pos := el.(phase := VotingOpen)];
        return 0;
      }
      return -1;
    }

    /**
     * app_close_voting: an existing election, a logged-in admin and phase
     * VOTING_OPEN move the election to VOTING_CLOSED.
     */
    method CloseVoting(electionId: nat) returns (rc: int)
      requires Valid()
      modifies this`elections
      ensures Valid() && PhasesForward()
      ensures rc == 0 || rc == -1
      ensures rc == 0 <==>
        1 <= electionId <= |old(elections)| && old(AdminLoggedIn()) &&
        old(elections)[electionId - 1].phase == VotingOpen
      ensures rc == -1 ==> elections == old(elections)
      ensures rc == 0 ==>
        elections == old(elections)[electionId - 1 := old(elections)[electionId - 1].(phase := VotingClosed)]
    {
      var found, pos := FindElection(electionId);
      if !found || currentUser.None? || users[currentUser.value].role != Admin {
        return -1;
      }
      var el := elections[pos];
      if el.phase == VotingOpen {
        PhaseKeepsElectionsOk(nextElectionId, elections, electionById, pos, VotingClosed);
        VotesOkFrame(nextVoteId, votes, elections, elections[pos := el.(phase := VotingClosed)], |users|, |users|, hasVoted);
        elections := elections[pos := el.(phase := VotingClosed)];
        return 0;
      }
      return -1;
    }

    /**
     * app_cast_vote: refused with no change when nobody is logged in, the
     * election is unknown or not VOTING_OPEN, the choice is not a candidate,
     * or the pair key is already in has_voted; otherwise one vote is appended
     * under the next id and its key is recorded.
     */
    method CastVote(electionId: nat, choice: nat) returns (rc: int)
      requires Valid()
      modifies this`votes, this`nextVoteId, this`hasVoted
      ensures Valid()
      ensures rc == 0 || rc == -1
      ensures rc == 0 <==>
        && old(currentUser).Some?
        && 1 <= electionId <= |elections|
        && elections[electionId - 1].phase == VotingOpen
        && choice < elections[electionId - 1].candidateCount
        && VoteKey(electionId, users[old(currentUser).value].id) !in old(hasVoted)
      ensures rc == -1 ==> votes == old(votes) && nextVoteId == old(nextVoteId) && hasVoted == old(hasVoted)
      ensures rc == 0 ==>
        && votes == old(votes) + [Vote(old(nextVoteId), electionId, users[currentUser.value].id, choice)]
        && nextVoteId == old(nextVoteId) + 1
        && hasVoted == old(hasVoted) + {VoteKey(electionId, users[currentUser.value].id)}
    {
      if currentUser.None? {
        return -1;
      }
      var found, pos := FindElection(electionId);
      if !found || elections[pos].phase != VotingOpen {
        return -1;
      }
      if choice >= elections[pos].candidateCount {
        return -1;
      }
      var voter := users[currentUser.value].id;
      UserIdsInOrderIff(users);
      var key := VoteKey(electionId, voter);
      if key in hasVoted {
        return -1;
      }
      var v := Vote(nextVoteId, electionId, voter, choice);
      AppendVote(v);
      return 0;
    }

    /** The list_push_back of a vote and the hash_table_put of its pair key. */
    method AppendVote(v: Vote)
      requires Valid()
      requires VoteOk(v, |votes|, elections, |users|) && KeyOf(v) !in hasVoted
      modifies this`votes, this`nextVoteId, this`hasVoted
      ensures Valid()
      ensures votes == old(votes) + [v] && nextVoteId == old(nextVoteId) + 1
      ensures hasVoted == old(hasVoted) + {KeyOf(v)}
    {
      CastKeepsVotesOk(nextVoteId, votes, elections, |users|, hasVoted, v);
      votes, nextVoteId, hasVoted := votes + [v], nextVoteId + 1, hasVoted + {KeyOf(v)};
    }

    /**
     * has_voted holds the key of a pair exactly when a vote of that pair was
     * recorded, as long as the ids fit in 32 bits.
     */
    lemma HasVotedIffVoted(electionId: nat, voterId: nat)
      requires Valid()
      requires electionId < 0x1_0000_0000 && voterId < 0x1_0000_0000 && |elections| < 0x1_0000_0000 && |users| < 0x1_0000_0000
      ensures VoteKey(electionId, voterId) in hasVoted <==>
        exists i :: 0 <= i < |votes| && votes[i].electionId == electionId && votes[i].voterId == voterId
    {
      var k := VoteKey(electionId, voterId);
      KeysOfMembers(votes, k);
      VotesInOrderIff(votes, elections, |users|);
      if k in hasVoted {
        var i :| 0 <= i < |votes| && KeyOf(votes[i]) == k;
        VoteKeyInjective(votes[i].electionId, votes[i].voterId, electionId, voterId);
      }
    }

    /** At most one vote per (election, voter) pair. */
    lemma OneVotePerPair()
      requires Valid()
      ensures forall i, j :: 0 <= i < j < |votes| ==>
        votes[i].electionId != votes[j].electionId || votes[i].voterId != votes[j].voterId
    {
      DistinctKeysPairwise(votes);
      forall i, j | 0 <= i < j < |votes|
        ensures votes[i].electionId != votes[j].electionId || votes[i].voterId != votes[j].voterId
      {
        assert KeyOf(votes[i]) != KeyOf(votes[j]);
      }
    }

    /**
     * The counting and winner part of app_tally: -1 for an unknown election;
     * otherwise one uint64 counter per candidate, bumped for every vote of the
     * election whose choice is a candidate, and the selection tree's winner
     * over them. The report printed from them is not modelled.
     */
    method TallyElection(electionId: nat) returns (rc: int, counts: seq<uint64>, winner: nat)
      requires Valid()
      ensures rc == 0 || rc == -1
      ensures rc == -1 <==> !(1 <= electionId <= |elections|)
      ensures rc == -1 ==> counts == [] && winner == 0
      ensures rc == 0 ==>
        && |counts| == elections[electionId - 1].candidateCount
        && (forall c :: 0 <= c < |counts| ==> counts[c] == Wrap(CountFor(votes, electionId, c)))
        && winner == FirstMaxIndex(counts)
    {
      var found, pos := FindElection(electionId);
      if !found {
        return -1, [], 0;
      }
      ElectionsInOrderIff(elections);
      counts, winner := TallyVotes(votes, electionId, elections[pos].candidateCount);
      return 0, counts, winner;
    }
  }

  /** The loop of app_create_election that copies the first candCount candidate names. */
  method CopyCandidates(candidates: seq<string>, candCount: nat) returns (names: seq<string>)
    requires candCount <= |candidates|
    ensures |names| == candCount
    ensures forall k :: 0 <= k < candCount ==> names[k] == CPrefix(candidates[k], 63)
  {
    names := [];
    for i := 0 to candCount
      invariant |names| == i
      invariant forall k :: 0 <= k < i ==> names[k] == CPrefix(candidates[k], 63)
    {
      names := names + [CPrefix(candidates[i], 63)];
    }
  }

  /**
   * The counting loop and winner pick of app_tally: MAX_CAND zeroed uint64
   * counters; for each vote in list order, counts[choice]++ when the vote
   * belongs to the election and its choice is below the candidate count; then
   * a selection tree over the first cc counters names the winner.
   */
  method TallyVotes(votes: seq<Vote>, electionId: nat, cc: nat) returns (counts: seq<uint64>, winner: nat)
    requires cc <= MaxCand
    ensures |counts| == cc
    ensures forall c :: 0 <= c < cc ==> counts[c] == Wrap(CountFor(votes, electionId, c))
    ensures winner == FirstMaxIndex(counts)
  {
    var a := new uint64[MaxCand](_ => 0);
    for i := 0 to |votes|
      invariant forall c :: 0 <= c < MaxCand ==>
        a[c] == if c < cc then Wrap(CountFor(votes[..i], electionId, c)) else 0
    {
      var v := votes[i];
      assert votes[..i + 1][..i] == votes[..i];
      if v.electionId == electionId && v.choice < cc {
        WrapStep(CountFor(votes[..i], electionId, v.choice), a[v.choice]);
        a[v.choice] := if a[v.choice] as nat == 0x1_0000_0000_0000_0000 - 1 then 0 else a[v.choice] + 1;
      }
    }
    assert votes[..|votes|] == votes;
    var tree := new SelectionTree.Build(a[..], cc);
    winner := tree.Winner();
    counts := a[..cc];
  }
}
