/** The file-backed in-memory store of the backend (`ref-backend/src/store.ts`):
    users, the append-only swipe ledger, matches formed from mutual likes, one
    chat thread per match, and the session table. The pure lookups are
    functions over the store's fields; the operations that replace the state
    are methods of the class `Store`. */
module MemoryStore {
  import opened Common
  import opened JsText

  datatype Direction = Like | Pass

  datatype User = User(
    id: string,
    name: string,
    email: string,
    password: string,
    relationshipStatus: RelationshipStatus,
    photo: Option<string>,
    bio: Option<string>,
    age: Option<int>,
    createdAt: string)

  datatype Swipe = Swipe(fromUserId: string, toUserId: string, direction: Direction, createdAt: string)

  /** A match between the two users `[userA, userB]`. */
  datatype Match = Match(id: string, userA: string, userB: string, createdAt: string)

  datatype ChatMessage = ChatMessage(id: string, matchId: string, senderId: string, text: string, createdAt: string)

  /** The optional profile fields `updateUser` may overwrite. */
  datatype Patch = Patch(
    name: Option<string>,
    relationshipStatus: Option<RelationshipStatus>,
    photo: Option<string>,
    bio: Option<string>,
    age: Option<int>)

  /** What registration and login return: the public profile and a session token. */
  datatype Session = Session(user: PublicUser, token: string)

  /** A match as `getMatches` lists it, with the other participant's profile. */
  datatype MatchView = MatchView(id: string, userA: string, userB: string, createdAt: string, otherUser: PublicUser)

  datatype SwipeError = UserNotFound

  /** The profile other users may see: every field except email, password
      and creation time, unchanged. */
  function ToPublicUser(u: User): (r: PublicUser)
    ensures r.id == u.id && r.name == u.name && r.relationshipStatus == u.relationshipStatus
    ensures r.photo == u.photo && r.bio == u.bio && r.age == u.age
  {
    PublicUser(u.id, u.name, u.relationshipStatus, u.photo, u.bio, u.age)
  }

  function UserIds(users: seq<User>): set<string>
  {
    set u | u in users :: u.id
  }

  function MatchIds(matches: seq<Match>): set<string>
  {
    set m | m in matches :: m.id
  }

  // ---------------------------------------------------------------------
  // Users
  // ---------------------------------------------------------------------

  /** The position of the first user with id `userId`, if there is one. */
  function UserIndex(users: seq<User>, userId: string): (r: Option<nat>)
    ensures r.Some? ==> r.value < |users| && users[r.value].id == userId
    ensures r.None? <==> userId !in UserIds(users)
  {
    var r := FindIndex(users, (u: User) => u.id == userId);
    assert r.None? ==> forall u :: u in users ==> u.id != userId by {
      if r.None? {
        forall u | u in users ensures u.id != userId {
          var j :| 0 <= j < |users| && users[j] == u;
        }
      }
    }
    r
  }

  /** The first user with id `userId`, if there is one. */
  function FindUser(users: seq<User>, userId: string): (r: Option<User>)
    ensures r.Some? ==> r.value in users && r.value.id == userId
    ensures r.None? <==> userId !in UserIds(users)
  {
    match UserIndex(users, userId)
    case Some(i) => Some(users[i])
    case None => None
  }

  /** `getUser`: the public profile of the user with that id, or null. */
  function GetUser(users: seq<User>, userId: string): (r: Option<PublicUser>)
    ensures r.None? <==> userId !in UserIds(users)
    ensures r.Some? ==> r.value.id == userId && exists u :: u in users && r.value == ToPublicUser(u)
  {
    match FindUser(users, userId)
    case Some(u) => Some(ToPublicUser(u))
    case None => None
  }

  /** Emails are compared after `toLowerCase`. */
  predicate SameEmail(a: string, b: string)
  {
    Lower(a) == Lower(b)
  }

  /** The duplicate-email lookup of `createUser`. */
  function FindByEmail(users: seq<User>, email: string): (r: Option<User>)
    ensures r.Some? ==> r.value in users && SameEmail(r.value.email, email)
    ensures r.None? <==> forall u :: u in users ==> !SameEmail(u.email, email)
  {
    match FindIndex(users, (u: User) => SameEmail(u.email, email))
    case Some(i) => Some(users[i])
    case None =>
      assert forall u :: u in users ==> !SameEmail(u.email, email) by {
        forall u | u in users ensures !SameEmail(u.email, email) {
          var j :| 0 <= j < |users| && users[j] == u;
        }
      }
      None
  }

  /** The credential lookup of `login`. */
  function FindLogin(users: seq<User>, email: string, password: string): (r: Option<User>)
    ensures r.Some? ==> r.value in users && SameEmail(r.value.email, email) && r.value.password == password
    ensures r.None? <==> forall u :: u in users ==> !(SameEmail(u.email, email) && u.password == password)
  {
    match FindIndex(users, (u: User) => SameEmail(u.email, email) && u.password == password)
    case Some(i) => Some(users[i])
    case None =>
      assert forall u :: u in users ==> !(SameEmail(u.email, email) && u.password == password) by {
        forall u | u in users ensures !(SameEmail(u.email, email) && u.password == password) {
          var j :| 0 <= j < |users| && users[j] == u;
        }
      }
      None
  }

  /** A user registered under an email no one else holds can log in with
      the same email and password, and the login finds that user. */
  lemma RegisteredUserCanLogIn(users: seq<User>, u: User)
    requires forall v :: v in users ==> !SameEmail(v.email, u.email)
    ensures FindLogin(users + [u], u.email, u.password) == Some(u)
  {
    assert u in users + [u];
    var found := FindLogin(users + [u], u.email, u.password).value;
    assert found !in users;
  }

  /** The record `updateUser` stores: a present patch field overwrites, an
      absent one keeps the user's value; id, email, password and creation time
      are not patchable. */
  function ApplyPatch(u: User, p: Patch): (r: User)
    ensures r.id == u.id && r.email == u.email && r.password == u.password && r.createdAt == u.createdAt
    ensures p.name.Some? ==> r.name == p.name.value
    ensures p.name.None? ==> r.name == u.name
    ensures p.relationshipStatus.Some? ==> r.relationshipStatus == p.relationshipStatus.value
    ensures p.relationshipStatus.None? ==> r.relationshipStatus == u.relationshipStatus
    ensures p.photo.Some? ==> r.photo == p.photo
    ensures p.photo.None? ==> r.photo == u.photo
    ensures p.bio.Some? ==> r.bio == p.bio
    ensures p.bio.None? ==> r.bio == u.bio
    ensures p.age.Some? ==> r.age == p.age
    ensures p.age.None? ==> r.age == u.age
    ensures p == Patch(None, None, None, None, None) ==> r == u
  {
    u.(name := p.name.GetOr(u.name),
       relationshipStatus := p.relationshipStatus.GetOr(u.relationshipStatus),
       photo := if p.photo.Some? then p.photo else u.photo,
       bio := if p.bio.Some? then p.bio else u.bio,
       age := if p.age.Some? then p.age else u.age)
  }

  /** Applying the same patch twice is the same as applying it once. */
  lemma ApplyPatchIdempotent(u: User, p: Patch)
    ensures ApplyPatch(ApplyPatch(u, p), p) == ApplyPatch(u, p)
  {
  }

  // ---------------------------------------------------------------------
  // Discovery
  // ---------------------------------------------------------------------

  /** The ids `userId` has swiped on, like or pass. */
  function SwipedBy(swipes: seq<Swipe>, userId: string): (r: set<string>)
    ensures forall x :: x in r <==> exists s :: s in swipes && s.fromUserId == userId && s.toUserId == x
  {
    set s | s in swipes && s.fromUserId == userId :: s.toUserId
  }

  predicate Discoverable(u: User, userId: string, swiped: set<string>)
  {
    u.id != userId && u.relationshipStatus == Single && u.id !in swiped
  }

  function Publics(users: seq<User>): (r: seq<PublicUser>)
    ensures |r| == |users|
    ensures forall i :: 0 <= i < |users| ==> r[i] == ToPublicUser(users[i])
  {
    seq(|users|, i requires 0 <= i < |users| => ToPublicUser(users[i]))
  }

  /** The three filters of `getDiscovery`, in the order of `users`. */
  function DiscoverableUsers(users: seq<User>, userId: string, swiped: set<string>): (r: seq<PublicUser>)
    ensures forall p :: p in r ==> p.id != userId && p.relationshipStatus == Single && p.id !in swiped
    ensures forall u :: u in users && Discoverable(u, userId, swiped) ==> ToPublicUser(u) in r
    ensures IsSubsequence(r, Publics(users))
  {
    if users == [] then []
    else
      var rest := DiscoverableUsers(users[1..], userId, swiped);
      assert Publics(users)[1..] == Publics(users[1..]);
      if Discoverable(users[0], userId, swiped) then
        [ToPublicUser(users[0])] + rest
      else
        assert rest == [] || rest[0] != Publics(users)[0] by {
          if rest != [] { assert rest[0] in rest; }
        }
        rest
  }

  /** `getDiscovery`: null for an unknown user; otherwise every other single
      user the requester has not swiped on, in the order of `users`. */
  function Discovery(users: seq<User>, swipes: seq<Swipe>, userId: string): (r: Option<seq<PublicUser>>)
    ensures r.None? <==> userId !in UserIds(users)
    ensures r.Some? ==> forall p :: p in r.value ==>
              && p.id != userId
              && p.relationshipStatus == Single
              && forall s :: s in swipes && s.fromUserId == userId ==> s.toUserId != p.id
    ensures r.Some? ==> forall u :: u in users && Discoverable(u, userId, SwipedBy(swipes, userId)) ==> ToPublicUser(u) in r.value
    ensures r.Some? ==> IsSubsequence(r.value, Publics(users))
  {
    if FindUser(users, userId).None? then None
    else Some(DiscoverableUsers(users, userId, SwipedBy(swipes, userId)))
  }

  // ---------------------------------------------------------------------
  // Swipes and matches
  // ---------------------------------------------------------------------

  /** Some swipe from `a` to `b` is a like. */
  ghost predicate Liked(swipes: seq<Swipe>, a: string, b: string)
  {
    exists s :: s in swipes && s.fromUserId == a && s.toUserId == b && s.direction == Like
  }

  /** The reverse-like lookup of `addSwipe`. */
  function FindLike(swipes: seq<Swipe>, a: string, b: string): (r: Option<Swipe>)
    ensures r.Some? ==> r.value in swipes && r.value.fromUserId == a && r.value.toUserId == b && r.value.direction == Like
    ensures r.None? <==> !Liked(swipes, a, b)
  {
    match FindIndex(swipes, (s: Swipe) => s.fromUserId == a && s.toUserId == b && s.direction == Like)
    case Some(i) => Some(swipes[i])
    case None =>
      assert !Liked(swipes, a, b) by {
        forall s | s in swipes ensures !(s.fromUserId == a && s.toUserId == b && s.direction == Like) {
          var j :| 0 <= j < |swipes| && swipes[j] == s;
        }
      }
      None
  }

  /** `userId` is one of the match's two users. */
  predicate Includes(m: Match, userId: string)
  {
    m.userA == userId || m.userB == userId
  }

  /** The two matches are over the same unordered pair of users. */
  predicate SamePair(m: Match, n: Match)
  {
    (m.userA == n.userA && m.userB == n.userB) || (m.userA == n.userB && m.userB == n.userA)
  }

  /** The first match that includes both ids. For `a == b` this is the first
      match of `a` with anyone. */
  function FindMatch(matches: seq<Match>, a: string, b: string): (r: Option<Match>)
    ensures r.Some? ==> r.value in matches && Includes(r.value, a) && Includes(r.value, b)
    ensures r.Some? ==> exists k :: (0 <= k < |matches| && matches[k] == r.value &&
              forall j :: 0 <= j < k ==> !(Includes(matches[j], a) && Includes(matches[j], b)))
    ensures r.None? <==> forall m :: m in matches ==> !(Includes(m, a) && Includes(m, b))
  {
    if matches == [] then None
    else if Includes(matches[0], a) && Includes(matches[0], b) then Some(matches[0])
    else
      var r := FindMatch(matches[1..], a, b);
      assert r.Some? ==> exists k :: (0 <= k < |matches| && matches[k] == r.value &&
               forall j :: 0 <= j < k ==> !(Includes(matches[j], a) && Includes(matches[j], b))) by {
        if r.Some? {
          var k :| 0 <= k < |matches[1..]| && matches[1..][k] == r.value &&
                   forall j :: 0 <= j < k ==> !(Includes(matches[1..][j], a) && Includes(matches[1..][j], b));
          assert matches[k + 1] == r.value;
          assert forall j :: 0 <= j < k + 1 ==> !(Includes(matches[j], a) && Includes(matches[j], b)) by {
            forall j | 0 <= j < k + 1 ensures !(Includes(matches[j], a) && Includes(matches[j], b)) {
              if j > 0 { assert matches[j] == matches[1..][j - 1]; }
            }
          }
        }
      }
      r
  }

  /** A like of a user by themself looks up the pair `[a, a]`, which every
      match of `a` includes: it finds a match exactly when `a` has any match,
      so a new self-match is formed only for a user without matches. */
  lemma SelfPairFindsAnyMatch(matches: seq<Match>, a: string)
    ensures FindMatch(matches, a, a).Some? <==> exists m :: m in matches && Includes(m, a)
  {
  }

  /** The lookup does not depend on the order of the two ids. */
  lemma {:induction false} FindMatchSymmetric(matches: seq<Match>, a: string, b: string)
    ensures FindMatch(matches, a, b) == FindMatch(matches, b, a)
  {
    if matches != [] {
      FindMatchSymmetric(matches[1..], a, b);
    }
  }

  /** The participant that is not `userId`; none for a match of a user with
      themself. */
  function OtherUserId(m: Match, userId: string): (r: Option<string>)
    ensures r.Some? ==> Includes(m, r.value) && r.value != userId
    ensures r.None? <==> m.userA == userId && m.userB == userId
  {
    if m.userA != userId then Some(m.userA)
    else if m.userB != userId then Some(m.userB)
    else None
  }

  /** The matches of `userId`, in stored order. */
  function Involving(matches: seq<Match>, userId: string): (r: seq<Match>)
    ensures forall m :: m in r <==> m in matches && Includes(m, userId)
    ensures IsSubsequence(r, matches)
  {
    if matches == [] then []
    else
      var rest := Involving(matches[1..], userId);
      if Includes(matches[0], userId) then [matches[0]] + rest
      else
        assert rest == [] || rest[0] != matches[0] by {
          if rest != [] { assert rest[0] in rest; }
        }
        rest
  }

  /** `getMatches` can list `m` for `userId`: the other participant exists and
      has a profile. Otherwise the source dereferences a missing user and throws. */
  predicate Listable(users: seq<User>, m: Match, userId: string)
  {
    OtherUserId(m, userId).Some? && OtherUserId(m, userId).value in UserIds(users)
  }

  predicate IsViewOf(users: seq<User>, v: MatchView, m: Match, userId: string)
  {
    && v.id == m.id && v.userA == m.userA && v.userB == m.userB && v.createdAt == m.createdAt
    && v.otherUser.id != userId && Includes(m, v.otherUser.id)
    && exists u :: u in users && v.otherUser == ToPublicUser(u)
  }

  /** `getMatches`: the user's matches in order, each with the other user's
      profile; none (the source throws) when some match cannot be listed. */
  function GetMatches(users: seq<User>, matches: seq<Match>, userId: string): (r: Option<seq<MatchView>>)
    ensures r.None? <==> exists m :: m in matches && Includes(m, userId) && !Listable(users, m, userId)
    ensures r.Some? ==> |r.value| == |Involving(matches, userId)|
    ensures r.Some? ==> forall k :: 0 <= k < |r.value| ==> IsViewOf(users, r.value[k], Involving(matches, userId)[k], userId)
  {
    if matches == [] then Some([])
    else
      var m := matches[0];
      var rest := GetMatches(users, matches[1..], userId);
      if !Includes(m, userId) then rest
      else
        match OtherUserId(m, userId)
        case None => None
        case Some(other) =>
          match FindUser(users, other)
          case None => None
          case Some(u) =>
            match rest
            case None => None
            case Some(views) => Some([MatchView(m.id, m.userA, m.userB, m.createdAt, ToPublicUser(u))] + views)
  }

  // ---------------------------------------------------------------------
  // Chat threads
  // ---------------------------------------------------------------------

  /** `getMessages`: the thread of the match, or null. */
  function GetMessages(threads: map<string, seq<ChatMessage>>, matchId: string): (r: Option<seq<ChatMessage>>)
    ensures r.Some? <==> matchId in threads
    ensures r.Some? ==> r.value == threads[matchId]
  {
    if matchId in threads then Some(threads[matchId]) else None
  }

  // ---------------------------------------------------------------------
  // The store invariant
  // ---------------------------------------------------------------------

  predicate IdsDistinct(users: seq<User>)
  {
    forall i, j :: 0 <= i < j < |users| ==> users[i].id != users[j].id
  }

  /** Registration keeps emails unique up to case. */
  predicate EmailsDistinct(users: seq<User>)
  {
    forall i, j :: 0 <= i < j < |users| ==> !SameEmail(users[i].email, users[j].email)
  }

  predicate MatchIdsDistinct(matches: seq<Match>)
  {
    forall i, j :: 0 <= i < j < |matches| ==> matches[i].id != matches[j].id
  }

  /** At most one match per unordered pair of users. */
  predicate PairsDistinct(matches: seq<Match>)
  {
    forall i, j :: 0 <= i < j < |matches| ==> !SamePair(matches[i], matches[j])
  }

  /** A stored match: its ids are in ascending order, both users exist and
      each has liked the other. */
  ghost predicate MatchWellFormed(users: seq<User>, swipes: seq<Swipe>, m: Match)
  {
    && StrLe(m.userA, m.userB)
    && m.userA in UserIds(users) && m.userB in UserIds(users)
    && Liked(swipes, m.userA, m.userB) && Liked(swipes, m.userB, m.userA)
  }

  ghost predicate StoreInvariant(
    users: seq<User>, swipes: seq<Swipe>, matches: seq<Match>,
    threads: map<string, seq<ChatMessage>>, sessions: map<string, string>)
  {
    && IdsDistinct(users)
    && EmailsDistinct(users)
    && (forall s :: s in swipes ==> s.fromUserId in UserIds(users) && s.toUserId in UserIds(users))
    && (forall m :: m in matches ==> MatchWellFormed(users, swipes, m))
    && PairsDistinct(matches)
    && MatchIdsDistinct(matches)
    && threads.Keys == MatchIds(matches)
    && (forall id :: id in threads ==> forall msg :: msg in threads[id] ==> msg.matchId == id)
    && (forall token :: token in sessions ==> sessions[token] in UserIds(users))
  }

  lemma UserIdsAppend(users: seq<User>, u: User)
    ensures UserIds(users + [u]) == UserIds(users) + {u.id}
  {
    assert forall x :: x in users + [u] <==> x in users || x == u;
  }

  lemma UserIdsUpdate(users: seq<User>, i: nat, u: User)
    requires i < |users| && u.id == users[i].id
    ensures UserIds(users[i := u]) == UserIds(users)
  {
    forall x | x in UserIds(users) ensures x in UserIds(users[i := u]) {
      var v :| v in users && v.id == x;
      var j :| 0 <= j < |users| && users[j] == v;
      assert users[i := u][j].id == x;
    }
  }

  lemma MatchIdsAppend(matches: seq<Match>, m: Match)
    ensures MatchIds(matches + [m]) == MatchIds(matches) + {m.id}
  {
    assert forall x :: x in matches + [m] <==> x in matches || x == m;
  }

  lemma LikedAppend(swipes: seq<Swipe>, s: Swipe, a: string, b: string)
    requires Liked(swipes, a, b)
    ensures Liked(swipes + [s], a, b)
  {
    var w :| w in swipes && w.fromUserId == a && w.toUserId == b && w.direction == Like;
    assert w in swipes + [s];
  }

  /** In a store that keeps its invariant, two matches over the same unordered
      pair are the same match: the canonical ordering law. */
  lemma {:induction false} OneMatchPerPair(
    users: seq<User>, swipes: seq<Swipe>, matches: seq<Match>,
    threads: map<string, seq<ChatMessage>>, sessions: map<string, string>, i: nat, j: nat)
    requires StoreInvariant(users, swipes, matches, threads, sessions)
    requires i < |matches| && j < |matches| && SamePair(matches[i], matches[j])
    ensures i == j
    ensures matches[i].userA == matches[j].userA && matches[i].userB == matches[j].userB
  {
    assert MatchWellFormed(users, swipes, matches[i]);
    assert MatchWellFormed(users, swipes, matches[j]);
    AscendingPairUnique(matches[i].userA, matches[i].userB, matches[j].userA, matches[j].userB);
  }

  /** With every match's users present, `getMatches` fails exactly for a user
      who has matched with themself (a self-like, see `Store.AddSwipe`). */
  lemma GetMatchesFailsOnlyOnSelfMatch(users: seq<User>, matches: seq<Match>, userId: string)
    requires forall m :: m in matches ==> m.userA in UserIds(users) && m.userB in UserIds(users)
    ensures GetMatches(users, matches, userId).None? <==>
            exists m :: m in matches && m.userA == userId && m.userB == userId
  {
    if GetMatches(users, matches, userId).None? {
      var m :| m in matches && Includes(m, userId) && !Listable(users, m, userId);
      assert m.userA == userId && m.userB == userId;
    }
  }

  /** A match between two different users is listed for each of them, with
      the other one as `otherUser`. */
  lemma MatchListedForBoth(users: seq<User>, matches: seq<Match>, m: Match, userId: string)
    requires forall n :: n in matches ==> n.userA in UserIds(users) && n.userB in UserIds(users)
    requires forall n :: n in matches ==> n.userA != n.userB
    requires m in matches && m.userA != m.userB && Includes(m, userId)
    ensures GetMatches(users, matches, userId).Some?
    ensures exists v :: v in GetMatches(users, matches, userId).value && v.id == m.id &&
              v.otherUser.id == (if userId == m.userA then m.userB else m.userA)
  {
    GetMatchesFailsOnlyOnSelfMatch(users, matches, userId);
    var inv := Involving(matches, userId);
    var views := GetMatches(users, matches, userId).value;
    var k :| 0 <= k < |inv| && inv[k] == m;
    assert IsViewOf(users, views[k], m, userId);
    assert views[k] in views;
  }

  // ---------------------------------------------------------------------
  // Each state change of the store keeps the invariant
  // ---------------------------------------------------------------------

  lemma InvariantAfterRegister(
    users: seq<User>, swipes: seq<Swipe>, matches: seq<Match>,
    threads: map<string, seq<ChatMessage>>, sessions: map<string, string>, u: User, token: string)
    requires StoreInvariant(users, swipes, matches, threads, sessions)
    requires u.id !in UserIds(users)
    requires forall v :: v in users ==> !SameEmail(v.email, u.email)
    ensures StoreInvariant(users + [u], swipes, matches, threads, sessions[token := u.id])
  {
    UserIdsAppend(users, u);
    var users' := users + [u];
    assert IdsDistinct(users') by {
      forall i, j | 0 <= i < j < |users'| ensures users'[i].id != users'[j].id {
        if j == |users| { assert users[i] in users; }
      }
    }
    assert EmailsDistinct(users') by {
      forall i, j | 0 <= i < j < |users'| ensures !SameEmail(users'[i].email, users'[j].email) {
        if j == |users| { assert users[i] in users; }
      }
    }
    forall m | m in matches ensures MatchWellFormed(users', swipes, m) {
      assert MatchWellFormed(users, swipes, m);
    }
  }

  lemma InvariantAfterLogin(
    users: seq<User>, swipes: seq<Swipe>, matches: seq<Match>,
    threads: map<string, seq<ChatMessage>>, sessions: map<string, string>, userId: string, token: string)
    requires StoreInvariant(users, swipes, matches, threads, sessions)
    requires userId in UserIds(users)
    ensures StoreInvariant(users, swipes, matches, threads, sessions[token := userId])
  {
  }

  lemma InvariantAfterUpdate(
    users: seq<User>, swipes: seq<Swipe>, matches: seq<Match>,
    threads: map<string, seq<ChatMessage>>, sessions: map<string, string>, i: nat, p: Patch)
    requires StoreInvariant(users, swipes, matches, threads, sessions)
    requires i < |users|
    ensures StoreInvariant(users[i := ApplyPatch(users[i], p)], swipes, matches, threads, sessions)
  {
    var users' := users[i := ApplyPatch(users[i], p)];
    UserIdsUpdate(users, i, ApplyPatch(users[i], p));
    assert IdsDistinct(users') by {
      forall a, b | 0 <= a < b < |users'| ensures users'[a].id != users'[b].id {
        assert users'[a].id == users[a].id && users'[b].id == users[b].id;
      }
    }
    assert EmailsDistinct(users') by {
      forall a, b | 0 <= a < b < |users'| ensures !SameEmail(users'[a].email, users'[b].email) {
        assert users'[a].email == users[a].email && users'[b].email == users[b].email;
      }
    }
    forall m | m in matches ensures MatchWellFormed(users', swipes, m) {
      assert MatchWellFormed(users, swipes, m);
    }
  }

  lemma InvariantAfterSwipe(
    users: seq<User>, swipes: seq<Swipe>, matches: seq<Match>,
    threads: map<string, seq<ChatMessage>>, sessions: map<string, string>, s: Swipe)
    requires StoreInvariant(users, swipes, matches, threads, sessions)
    requires s.fromUserId in UserIds(users) && s.toUserId in UserIds(users)
    ensures StoreInvariant(users, swipes + [s], matches, threads, sessions)
  {
    forall m | m in matches ensures MatchWellFormed(users, swipes + [s], m) {
      assert MatchWellFormed(users, swipes, m);
      LikedAppend(swipes, s, m.userA, m.userB);
      LikedAppend(swipes, s, m.userB, m.userA);
    }
  }

  /** A match for a pair no match covers yet keeps pairs distinct. */
  lemma AppendKeepsPairsDistinct(matches: seq<Match>, m: Match)
    requires PairsDistinct(matches)
    requires forall n :: n in matches ==> !(Includes(n, m.userA) && Includes(n, m.userB))
    ensures PairsDistinct(matches + [m])
  {
    var matches' := matches + [m];
    forall i, j | 0 <= i < j < |matches'| ensures !SamePair(matches'[i], matches'[j]) {
      if j == |matches| { assert matches[i] in matches; }
    }
  }

  /** A match with a fresh id keeps match ids distinct. */
  lemma AppendKeepsMatchIdsDistinct(matches: seq<Match>, m: Match)
    requires MatchIdsDistinct(matches)
    requires m.id !in MatchIds(matches)
    ensures MatchIdsDistinct(matches + [m])
  {
    var matches' := matches + [m];
    forall i, j | 0 <= i < j < |matches'| ensures matches'[i].id != matches'[j].id {
      if j == |matches| { assert matches[i] in matches; }
    }
  }

  lemma InvariantAfterMatch(
    users: seq<User>, swipes: seq<Swipe>, matches: seq<Match>,
    threads: map<string, seq<ChatMessage>>, sessions: map<string, string>, m: Match)
    requires StoreInvariant(users, swipes, matches, threads, sessions)
    requires MatchWellFormed(users, swipes, m)
    requires m.id !in MatchIds(matches)
    requires forall n :: n in matches ==> !(Includes(n, m.userA) && Includes(n, m.userB))
    ensures StoreInvariant(users, swipes, matches + [m], threads[m.id := []], sessions)
  {
    MatchIdsAppend(matches, m);
    var matches' := matches + [m];
    AppendKeepsPairsDistinct(matches, m);
    AppendKeepsMatchIdsDistinct(matches, m);
    forall n | n in matches' ensures MatchWellFormed(users, swipes, n) {
      if n != m { assert n in matches; }
    }
    var threads' := threads[m.id := []];
    assert threads'.Keys == MatchIds(matches');
    forall id | id in threads' ensures forall msg :: msg in threads'[id] ==> msg.matchId == id {
      if id != m.id { assert threads'[id] == threads[id]; }
    }
  }

  lemma InvariantAfterMessage(
    users: seq<User>, swipes: seq<Swipe>, matches: seq<Match>,
    threads: map<string, seq<ChatMessage>>, sessions: map<string, string>, msg: ChatMessage)
    requires StoreInvariant(users, swipes, matches, threads, sessions)
    requires msg.matchId in threads
    ensures StoreInvariant(users, swipes, matches, threads[msg.matchId := threads[msg.matchId] + [msg]], sessions)
  {
  }

  // Photos and bios of the three seed users.
  const SophiePhoto: string := "https://images.unsplash.com/photo-1524504388940-b1c1722653e1?w=600"
  const SophieBio: string := "Love coffee walks and live music."
  const MilanPhoto: string := "https://images.unsplash.com/photo-1507003211169-0a1dd7228f2d?w=600"
  const MilanBio: string := "Builder, reader, weekend cyclist."
  const NoraPhoto: string := "https://images.unsplash.com/photo-1487412720507-e7ab37603c6f?w=600"
  const NoraBio: string := "Best wingwoman in town."

  /** The three seed emails are pairwise different up to case: they differ
      in their first letter. */
  lemma SeedEmailsDiffer()
    ensures !SameEmail("sophie@example.com", "milan@example.com")
    ensures !SameEmail("sophie@example.com", "nora@example.com")
    ensures !SameEmail("milan@example.com", "nora@example.com")
  {
    assert Lower("sophie@example.com")[0] == 's';
    assert Lower("milan@example.com")[0] == 'm';
    assert Lower("nora@example.com")[0] == 'n';
  }

  /** The three demo users of the seed state, all with password `demo123`;
      Sophie and Milan are single, Nora is not. */
  function SeedUsers(sophieId: string, milanId: string, noraId: string, now: string): (r: seq<User>)
    ensures |r| == 3 && r[0].id == sophieId && r[1].id == milanId && r[2].id == noraId
    ensures forall u :: u in r ==> u.password == "demo123" && u.createdAt == now
    ensures r[0].relationshipStatus == Single && r[1].relationshipStatus == Single
    ensures r[2].relationshipStatus == NotSingle
    ensures EmailsDistinct(r)
  {
    SeedEmailsDiffer();
    [ User(sophieId, "Sophie", "sophie@example.com", "demo123", Single,
           Some(SophiePhoto),
           Some(SophieBio), Some(27), now),
      User(milanId, "Milan", "milan@example.com", "demo123", Single,
           Some(MilanPhoto),
           Some(MilanBio), Some(29), now),
      User(noraId, "Nora", "nora@example.com", "demo123", NotSingle,
           Some(NoraPhoto),
           Some(NoraBio), Some(30), now) ]
  }

  // ---------------------------------------------------------------------
  // The store
  // ---------------------------------------------------------------------

  class Store {
    var users: seq<User>
    var swipes: seq<Swipe>
    var matches: seq<Match>
    var messagesByMatch: map<string, seq<ChatMessage>>
    var sessions: map<string, string>

    ghost predicate Valid()
      reads this
    {
      StoreInvariant(users, swipes, matches, messagesByMatch, sessions)
    }

    /** The seed state written when no data file exists: three demo users,
        nothing else. The ids stand for the generated ones. */
    constructor Seeded(sophieId: string, milanId: string, noraId: string, now: string)
      requires sophieId != milanId && sophieId != noraId && milanId != noraId
      ensures Valid()
      ensures users == SeedUsers(sophieId, milanId, noraId, now)
      ensures swipes == [] && matches == [] && messagesByMatch == map[] && sessions == map[]
    {
      users := SeedUsers(sophieId, milanId, noraId, now);
      swipes, matches, messagesByMatch, sessions := [], [], map[], map[];
      new;
    }

    /** `createUser`: refuses an email already registered (up to case);
        otherwise appends one user and opens a session for them. */
    method CreateUser(name: string, email: string, password: string, status: RelationshipStatus,
                      freshId: string, now: string, tokenSuffix: string)
      returns (r: Option<Session>)
      requires Valid()
      requires freshId !in UserIds(users)
      modifies this
      ensures Valid()
      ensures r.None? <==> exists u :: u in old(users) && SameEmail(u.email, email)
      ensures r.None? ==> unchanged(this)
      ensures r.Some? ==>
                && users == old(users) + [User(freshId, name, email, password, status, None, None, None, now)]
                && r.value == Session(ToPublicUser(users[|users| - 1]), "token-" + tokenSuffix)
                && sessions == old(sessions)[r.value.token := freshId]
      ensures swipes == old(swipes) && matches == old(matches) && messagesByMatch == old(messagesByMatch)
    {
      if FindByEmail(users, email).Some? {
        return None;
      }
      var user := User(freshId, name, email, password, status, None, None, None, now);
      var token := "token-" + tokenSuffix;
      InvariantAfterRegister(users, swipes, matches, messagesByMatch, sessions, user, token);
      users := users + [user];
      sessions := sessions[token := user.id];
      r := Some(Session(ToPublicUser(user), token));
    }

    /** `login`: a user whose email matches up to case and whose password
        matches gets a new session. */
    method Login(email: string, password: string, tokenSuffix: string) returns (r: Option<Session>)
      requires Valid()
      modifies this
      ensures Valid()
      ensures r.None? <==> forall u :: u in users ==> !(SameEmail(u.email, email) && u.password == password)
      ensures r.None? ==> unchanged(this)
      ensures r.Some? ==> exists u :: (u in users && SameEmail(u.email, email) && u.password == password &&
                                       r.value == Session(ToPublicUser(u), "token-" + tokenSuffix) &&
                                       sessions == old(sessions)[r.value.token := u.id])
      ensures users == old(users) && swipes == old(swipes) && matches == old(matches)
      ensures messagesByMatch == old(messagesByMatch)
    {
      match FindLogin(users, email, password)
      case None =>
        r := None;
      case Some(u) =>
        var token := "token-" + tokenSuffix;
        InvariantAfterLogin(users, swipes, matches, messagesByMatch, sessions, u.id, token);
        sessions := sessions[token := u.id];
        r := Some(Session(ToPublicUser(u), token));
    }

    /** `updateUser`: null for an unknown id; otherwise only that user's
        record changes, by the patch. */
    method UpdateUser(userId: string, patch: Patch) returns (r: Option<PublicUser>)
      requires Valid()
      modifies this
      ensures Valid()
      ensures r.None? <==> userId !in UserIds(old(users))
      ensures r.None? ==> unchanged(this)
      ensures r.Some? ==> exists i :: (0 <= i < |old(users)| && old(users)[i].id == userId &&
                                       users == old(users)[i := ApplyPatch(old(users)[i], patch)] &&
                                       r.value == ToPublicUser(users[i]))
      ensures r.Some? ==> GetUser(users, userId) == r
      ensures |users| == |old(users)| && UserIds(users) == UserIds(old(users))
      ensures swipes == old(swipes) && matches == old(matches)
      ensures messagesByMatch == old(messagesByMatch) && sessions == old(sessions)
    {
      match UserIndex(users, userId)
      case None =>
        r := None;
      case Some(i) =>
        var next := ApplyPatch(users[i], patch);
        UserIdsUpdate(users, i, next);
        InvariantAfterUpdate(users, swipes, matches, messagesByMatch, sessions, i, patch);
        users := users[i := next];
        r := Some(ToPublicUser(next));
    }

    /** `addSwipe`: records the swipe, then forms a match on a mutual like.
        A like from a user to themself finds itself as the reverse like. */
    method AddSwipe(fromUserId: string, toUserId: string, direction: Direction, now: string, freshId: string)
      returns (r: Result<Option<Match>, SwipeError>)
      requires Valid()
      requires freshId !in MatchIds(matches)
      modifies this
      ensures Valid()
      ensures users == old(users) && sessions == old(sessions)
      ensures r.Err? <==> fromUserId !in UserIds(users) || toUserId !in UserIds(users)
      ensures r.Err? ==> unchanged(this)
      ensures r.Ok? ==> swipes == old(swipes) + [Swipe(fromUserId, toUserId, direction, now)]
      ensures r.Ok? && direction == Pass ==> r.value.None?
      ensures r.Ok? && direction == Like ==> (r.value.Some? <==> Liked(swipes, toUserId, fromUserId))
      ensures r.Ok? && r.value.None? ==> matches == old(matches) && messagesByMatch == old(messagesByMatch)
      ensures r.Ok? && r.value.Some? ==>
                r.value.value in matches && Includes(r.value.value, fromUserId) && Includes(r.value.value, toUserId)
      ensures r.Ok? && r.value.Some? && FindMatch(old(matches), fromUserId, toUserId).Some? ==>
                && r.value == FindMatch(old(matches), fromUserId, toUserId)
                && matches == old(matches) && messagesByMatch == old(messagesByMatch)
      ensures r.Ok? && r.value.Some? && FindMatch(old(matches), fromUserId, toUserId).None? ==>
                && r.value.value == Match(freshId, SortPair(fromUserId, toUserId).0, SortPair(fromUserId, toUserId).1, now)
                && matches == old(matches) + [r.value.value]
                && messagesByMatch == old(messagesByMatch)[freshId := []]
    {
      if FindUser(users, fromUserId).None? || FindUser(users, toUserId).None? {
        return Err(UserNotFound);
      }
      var swipe := Swipe(fromUserId, toUserId, direction, now);
      InvariantAfterSwipe(users, swipes, matches, messagesByMatch, sessions, swipe);
      swipes := swipes + [swipe];

      if direction == Pass {
        return Ok(None);
      }
      var reverseLike := FindLike(swipes, toUserId, fromUserId);
      if reverseLike.None? {
        return Ok(None);
      }
      assert swipe in swipes && reverseLike.value in swipes;
      assert Liked(swipes, fromUserId, toUserId) && Liked(swipes, toUserId, fromUserId);

      var m := FormMatch(fromUserId, toUserId, now, freshId);
      r := Ok(Some(m));
    }

    /** The mutual-like tail of `addSwipe`: return the match that already
        includes both users, or store a new one over the sorted pair with an
        empty chat thread. */
    method FormMatch(fromUserId: string, toUserId: string, now: string, freshId: string) returns (m: Match)
      requires Valid()
      requires freshId !in MatchIds(matches)
      requires fromUserId in UserIds(users) && toUserId in UserIds(users)
      requires Liked(swipes, fromUserId, toUserId) && Liked(swipes, toUserId, fromUserId)
      modifies this
      ensures Valid()
      ensures users == old(users) && swipes == old(swipes) && sessions == old(sessions)
      ensures m in matches && Includes(m, fromUserId) && Includes(m, toUserId)
      ensures FindMatch(old(matches), fromUserId, toUserId).Some? ==>
                && m == FindMatch(old(matches), fromUserId, toUserId).value
                && matches == old(matches) && messagesByMatch == old(messagesByMatch)
      ensures FindMatch(old(matches), fromUserId, toUserId).None? ==>
                && m == Match(freshId, SortPair(fromUserId, toUserId).0, SortPair(fromUserId, toUserId).1, now)
                && matches == old(matches) + [m]
                && messagesByMatch == old(messagesByMatch)[freshId := []]
    {
      var pair := SortPair(fromUserId, toUserId);
      FindMatchSymmetric(matches, fromUserId, toUserId);
      var existing := FindMatch(matches, pair.0, pair.1);
      if existing.Some? {
        return existing.value;
      }
      m := Match(freshId, pair.0, pair.1, now);
      assert MatchWellFormed(users, swipes, m);
      InvariantAfterMatch(users, swipes, matches, messagesByMatch, sessions, m);
      matches := matches + [m];
      if m.id !in messagesByMatch {
        messagesByMatch := messagesByMatch[m.id := []];
      }
    }

    /** `addMessage`: null for a match without a thread; otherwise the message
        is appended to that thread and every other thread is unchanged. */
    method AddMessage(matchId: string, senderId: string, text: string, freshId: string, now: string)
      returns (r: Option<ChatMessage>)
      requires Valid()
      modifies this
      ensures Valid()
      ensures r.None? <==> GetMessages(old(messagesByMatch), matchId).None?
      ensures r.None? ==> unchanged(this)
      ensures r.Some? ==> r.value == ChatMessage(freshId, matchId, senderId, text, now)
      ensures r.Some? ==> GetMessages(messagesByMatch, matchId) == Some(old(messagesByMatch)[matchId] + [r.value])
      ensures forall id :: id != matchId ==> GetMessages(messagesByMatch, id) == GetMessages(old(messagesByMatch), id)
      ensures users == old(users) && swipes == old(swipes) && matches == old(matches) && sessions == old(sessions)
    {
      if matchId !in messagesByMatch {
        return None;
      }
      var thread := messagesByMatch[matchId];
      var message := ChatMessage(freshId, matchId, senderId, text, now);
      InvariantAfterMessage(users, swipes, matches, messagesByMatch, sessions, message);
      messagesByMatch := messagesByMatch[matchId := thread + [message]];
      r := Some(message);
    }
  }
}
