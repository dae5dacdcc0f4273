/** The relationship state the mobile client keeps (`ref-demo/context/AppContext.tsx`):
    the match list shown on the home screen, friends and friend requests, the
    friend-of-friend suggestions, and profile completeness. The setter
    callbacks are functions on lists; the context's actions are methods of
    the class `AppState`, which holds the lists the React state holds. */
module AppContext {
  import opened Common
  import opened JsText

  datatype User = User(
    id: string,
    name: string,
    photo: string,
    relationshipStatus: Option<RelationshipStatus>,
    bio: Option<string>,
    age: Option<int>)

  /** A friend; `friendsOfFriend` absent reads as the empty list. */
  datatype Friend = Friend(
    user: User,
    invitedBy: Option<string>,
    mutualFriendsCount: Option<int>,
    friendsOfFriend: seq<User>)

  datatype RequestStatus = Pending | Accepted | Declined

  datatype FriendRequest = FriendRequest(id: string, from: User, to: User, status: RequestStatus, createdAt: string)

  datatype MatchStatus = Pending | Liked | Passed | Matched

  /** An entry of the home screen's match list. */
  datatype Match = Match(id: string, user: User, matchedBy: User, status: MatchStatus, createdAt: string)

  /** An item of `GET /matches/:id`. */
  datatype ApiMatchItem = ApiMatchItem(id: string, createdAt: string, otherUser: PublicUser)

  const SystemMatchmaker: User := User("ref-system", "Ref", "", Some(NotSingle), None, None)

  // ---------------------------------------------------------------------
  // Profiles
  // ---------------------------------------------------------------------

  /** `toUser`: an API profile as a client user; a missing photo becomes "". */
  function ToUser(p: PublicUser): (r: User)
    ensures r.id == p.id && r.name == p.name && r.bio == p.bio && r.age == p.age
    ensures r.relationshipStatus == Some(p.relationshipStatus)
    ensures p.photo.Some? ==> r.photo == p.photo.value
    ensures p.photo.None? ==> r.photo == ""
  {
    User(p.id, p.name, p.photo.GetOr(""), Some(p.relationshipStatus), p.bio, p.age)
  }

  /** `isProfileComplete`: the trimmed name is not empty and a status is set. */
  function IsProfileComplete(u: User): (r: bool)
    ensures r <==> u.relationshipStatus.Some? && exists i :: 0 <= i < |u.name| && !IsWhitespace(u.name[i])
  {
    TrimEmptyIff(u.name);
    Trim(u.name) != "" && u.relationshipStatus.Some?
  }

  /** A profile received from the API always carries a status, so after
      login the user counts as onboarded exactly when the name has a
      non-whitespace character. */
  lemma ApiUserOnboarded(p: PublicUser)
    ensures IsProfileComplete(ToUser(p)) <==> exists i :: 0 <= i < |p.name| && !IsWhitespace(p.name[i])
  {
  }

  // ---------------------------------------------------------------------
  // The match list
  // ---------------------------------------------------------------------

  /** The first entry of the match list with id `matchId`, if any. */
  function FindMatch(ms: seq<Match>, matchId: string): (r: Option<Match>)
    ensures r.Some? ==> r.value in ms && r.value.id == matchId
    ensures r.None? <==> forall i :: 0 <= i < |ms| ==> ms[i].id != matchId
  {
    match FindIndex(ms, (m: Match) => m.id == matchId)
    case Some(i) => Some(ms[i])
    case None => None
  }

  /** `r` is `ms` with the status of every entry with id `matchId` set to
      `status`, and nothing else changed. */
  predicate StatusSet(ms: seq<Match>, r: seq<Match>, matchId: string, status: MatchStatus)
  {
    && |r| == |ms|
    && forall i :: 0 <= i < |ms| ==>
         if ms[i].id == matchId then r[i] == ms[i].(status := status) else r[i] == ms[i]
  }

  /** The setter callback of `likeMatch` and `passMatch`. */
  function SetMatchStatus(ms: seq<Match>, matchId: string, status: MatchStatus): (r: seq<Match>)
    ensures StatusSet(ms, r, matchId, status)
  {
    if ms == [] then []
    else [if ms[0].id == matchId then ms[0].(status := status) else ms[0]] + SetMatchStatus(ms[1..], matchId, status)
  }

  /** Setting a status twice is the same as setting the later one: a pass
      after a like leaves the entry passed. */
  lemma {:induction false} SetMatchStatusOverrides(ms: seq<Match>, matchId: string, s1: MatchStatus, s2: MatchStatus)
    ensures SetMatchStatus(SetMatchStatus(ms, matchId, s1), matchId, s2) == SetMatchStatus(ms, matchId, s2)
  {
    if ms != [] {
      SetMatchStatusOverrides(ms[1..], matchId, s1, s2);
    }
  }

  /** The setter callback run when the server answers a like with a match:
      the liked entry takes the server's match id and the status `matched`. */
  function ConfirmMatch(ms: seq<Match>, matchId: string, serverMatchId: string): (r: seq<Match>)
    ensures |r| == |ms|
    ensures forall i :: 0 <= i < |ms| && ms[i].id != matchId ==> r[i] == ms[i]
    ensures forall i :: 0 <= i < |ms| && ms[i].id == matchId ==>
              r[i] == ms[i].(id := serverMatchId, status := Matched)
  {
    if ms == [] then []
    else
      [if ms[0].id == matchId then ms[0].(id := serverMatchId, status := Matched) else ms[0]]
      + ConfirmMatch(ms[1..], matchId, serverMatchId)
  }

  /** The server's match overrides the optimistic like: confirming a liked
      entry gives the same list as confirming the entry before the like. */
  lemma {:induction false} ConfirmOverridesLike(ms: seq<Match>, matchId: string, serverMatchId: string)
    ensures ConfirmMatch(SetMatchStatus(ms, matchId, Liked), matchId, serverMatchId) == ConfirmMatch(ms, matchId, serverMatchId)
  {
    if ms != [] {
      ConfirmOverridesLike(ms[1..], matchId, serverMatchId);
    }
  }

  /** The merge of `syncDiscoveryAndMatches`: confirmed matches, then one
      pending entry per discovery profile; nothing changes when both
      requests failed. */
  function MergeMatches(prev: seq<Match>, discovery: Option<seq<PublicUser>>,
                        confirmed: Option<seq<ApiMatchItem>>, now: string): (r: seq<Match>)
    ensures discovery.None? && confirmed.None? ==> r == prev
    ensures discovery.Some? || confirmed.Some? ==>
              |r| == |confirmed.GetOr([])| + |discovery.GetOr([])|
    ensures discovery.Some? || confirmed.Some? ==>
              forall i :: 0 <= i < |confirmed.GetOr([])| ==>
                var item := confirmed.GetOr([])[i];
                r[i] == Match(item.id, ToUser(item.otherUser), SystemMatchmaker, Matched, item.createdAt)
    ensures discovery.Some? || confirmed.Some? ==>
              forall j :: 0 <= j < |discovery.GetOr([])| ==>
                var p := discovery.GetOr([])[j];
                r[|confirmed.GetOr([])| + j] == Match("discovery-" + p.id, ToUser(p), SystemMatchmaker, MatchStatus.Pending, now)
  {
    if discovery.None? && confirmed.None? then prev
    else MergeFetched(confirmed.GetOr([]), discovery.GetOr([]), now)
  }

  /** The merged list once at least one request succeeded: the confirmed
      matches in order, then one pending entry per discovery profile. */
  function MergeFetched(items: seq<ApiMatchItem>, profiles: seq<PublicUser>, now: string): (r: seq<Match>)
    ensures |r| == |items| + |profiles|
    ensures forall i :: 0 <= i < |items| ==>
              r[i] == Match(items[i].id, ToUser(items[i].otherUser), SystemMatchmaker, Matched, items[i].createdAt)
    ensures forall j :: 0 <= j < |profiles| ==>
              r[|items| + j] == Match("discovery-" + profiles[j].id, ToUser(profiles[j]), SystemMatchmaker, MatchStatus.Pending, now)
  {
    ConfirmedMatches(items) + PendingMatches(profiles, now)
  }

  function ConfirmedMatches(items: seq<ApiMatchItem>): (r: seq<Match>)
    ensures |r| == |items|
    ensures forall i :: 0 <= i < |items| ==>
              r[i] == Match(items[i].id, ToUser(items[i].otherUser), SystemMatchmaker, Matched, items[i].createdAt)
  {
    seq(|items|, i requires 0 <= i < |items| =>
      Match(items[i].id, ToUser(items[i].otherUser), SystemMatchmaker, Matched, items[i].createdAt))
  }

  function PendingMatches(profiles: seq<PublicUser>, now: string): (r: seq<Match>)
    ensures |r| == |profiles|
    ensures forall i :: 0 <= i < |profiles| ==>
              r[i] == Match("discovery-" + profiles[i].id, ToUser(profiles[i]), SystemMatchmaker, MatchStatus.Pending, now)
  {
    seq(|profiles|, i requires 0 <= i < |profiles| =>
      Match("discovery-" + profiles[i].id, ToUser(profiles[i]), SystemMatchmaker, MatchStatus.Pending, now))
  }

  /** After a sync that got an answer, every confirmed match comes before
      every discovery entry, and the entries are told apart by status. */
  lemma ConfirmedBeforePending(prev: seq<Match>, discovery: Option<seq<PublicUser>>,
                               confirmed: Option<seq<ApiMatchItem>>, now: string, i: nat, j: nat)
    requires discovery.Some? || confirmed.Some?
    requires i < j < |MergeMatches(prev, discovery, confirmed, now)|
    ensures MergeMatches(prev, discovery, confirmed, now)[i].status == MatchStatus.Pending ==>
            MergeMatches(prev, discovery, confirmed, now)[j].status == MatchStatus.Pending
    ensures MergeMatches(prev, discovery, confirmed, now)[j].status == Matched ==>
            MergeMatches(prev, discovery, confirmed, now)[i].status == Matched
  {
    var c := |confirmed.GetOr([])|;
    if i >= c {
      assert MergeMatches(prev, discovery, confirmed, now)[j].status == MatchStatus.Pending by {
        assert MergeMatches(prev, discovery, confirmed, now)[c + (j - c)].status == MatchStatus.Pending;
      }
    }
    if j < c {
      assert MergeMatches(prev, discovery, confirmed, now)[i].status == Matched;
    }
  }

  // ---------------------------------------------------------------------
  // Friends and friend requests
  // ---------------------------------------------------------------------

  /** The first friend request with id `requestId`, if any. */
  function FindRequest(requests: seq<FriendRequest>, requestId: string): (r: Option<FriendRequest>)
    ensures r.Some? ==> r.value in requests && r.value.id == requestId
    ensures r.Some? ==> exists i :: 0 <= i < |requests| && requests[i] == r.value &&
                          forall j :: 0 <= j < i ==> requests[j].id != requestId
    ensures r.None? <==> forall i :: 0 <= i < |requests| ==> requests[i].id != requestId
  {
    match FindIndex(requests, (q: FriendRequest) => q.id == requestId)
    case Some(i) => Some(requests[i])
    case None => None
  }

  /** The setter callback of `acceptFriendRequest` and `declineFriendRequest`. */
  function SetRequestStatus(requests: seq<FriendRequest>, requestId: string, status: RequestStatus): (r: seq<FriendRequest>)
    ensures |r| == |requests|
    ensures forall i :: 0 <= i < |requests| && requests[i].id != requestId ==> r[i] == requests[i]
    ensures forall i :: 0 <= i < |requests| && requests[i].id == requestId ==> r[i] == requests[i].(status := status)
  {
    if requests == [] then []
    else
      [if requests[0].id == requestId then requests[0].(status := status) else requests[0]]
      + SetRequestStatus(requests[1..], requestId, status)
  }

  /** The friend `acceptFriendRequest` adds: the sender, with the mutual-friend
      count the caller drew and no friends of their own listed. */
  function NewFriend(from: User, mutualCount: int): (r: Friend)
    ensures r.user == from && r.invitedBy.None? && r.mutualFriendsCount == Some(mutualCount)
    ensures r.friendsOfFriend == []
  {
    Friend(from, None, Some(mutualCount), [])
  }

  /** An accepted friend brings no friend-of-friend records, so accepting a
      request adds nothing to the tally behind the suggestions. */
  lemma AcceptedFriendAddsNoRecords(friends: seq<Friend>, from: User, mutualCount: int)
    ensures FriendsOfFriends(friends + [NewFriend(from, mutualCount)]) == FriendsOfFriends(friends)
  {
    assert (friends + [NewFriend(from, mutualCount)])[..|friends|] == friends;
  }

  /** Once a request is accepted its sender is a friend, and no request with
      that id is pending any more. */
  lemma AcceptedSenderIsFriend(friends: seq<Friend>, requests: seq<FriendRequest>, requestId: string, mutualCount: int)
    requires FindRequest(requests, requestId).Some?
    ensures AreFriends(friends + [NewFriend(FindRequest(requests, requestId).value.from, mutualCount)],
                       FindRequest(requests, requestId).value.from.id)
    ensures forall q :: q in SetRequestStatus(requests, requestId, Accepted) && q.id == requestId ==> q.status == Accepted
  {
    var from := FindRequest(requests, requestId).value.from;
    assert NewFriend(from, mutualCount) in friends + [NewFriend(from, mutualCount)];
  }

  /** `areFriends`: whether some friend has id `userId`. */
  function AreFriends(friends: seq<Friend>, userId: string): (r: bool)
    ensures r <==> exists f :: f in friends && f.user.id == userId
  {
    var k := FindIndex(friends, (f: Friend) => f.user.id == userId);
    assert k.None? ==> forall f :: f in friends ==> f.user.id != userId by {
      if k.None? {
        forall f | f in friends ensures f.user.id != userId {
          var j :| 0 <= j < |friends| && friends[j] == f;
        }
      }
    }
    k.Some?
  }

  /** `isRequestPending`: whether an outgoing request to `userId` is still pending. */
  function IsRequestPending(outgoing: seq<FriendRequest>, userId: string): (r: bool)
    ensures r <==> exists q :: q in outgoing && q.to.id == userId && q.status == RequestStatus.Pending
  {
    var k := FindIndex(outgoing, (q: FriendRequest) => q.to.id == userId && q.status == RequestStatus.Pending);
    assert k.None? ==> forall q :: q in outgoing ==> !(q.to.id == userId && q.status == RequestStatus.Pending) by {
      if k.None? {
        forall q | q in outgoing ensures !(q.to.id == userId && q.status == RequestStatus.Pending) {
          var j :| 0 <= j < |outgoing| && outgoing[j] == q;
        }
      }
    }
    k.Some?
  }

  // ---------------------------------------------------------------------
  // Friend-of-friend suggestions
  // ---------------------------------------------------------------------

  /** A value of the local `Map` of `suggestedFriends`: the first record seen
      for a user id and how often that id was seen. */
  datatype Entry = Entry(user: User, mutualCount: nat)

  /** Every `friendsOfFriend` record, friend by friend, in order. */
  function FriendsOfFriends(friends: seq<Friend>): (r: seq<User>)
    ensures forall u :: u in r <==> exists f :: f in friends && u in f.friendsOfFriend
  {
    if friends == [] then []
    else
      var init := friends[..|friends| - 1];
      var last := friends[|friends| - 1];
      assert forall f :: f in friends <==> f in init || f == last by {
        assert friends == init + [last];
      }
      FriendsOfFriends(init) + last.friendsOfFriend
  }

  /** One more friend appends that friend's list to the records. */
  lemma FriendsOfFriendsStep(friends: seq<Friend>, i: nat)
    requires i < |friends|
    ensures FriendsOfFriends(friends[..i + 1]) == FriendsOfFriends(friends[..i]) + friends[i].friendsOfFriend
  {
    assert friends[..i + 1][..i] == friends[..i];
  }

  /** Existing friends, senders of pending incoming requests and targets of
      pending outgoing requests. */
  function ExcludedIds(friends: seq<Friend>, incoming: seq<FriendRequest>, outgoing: seq<FriendRequest>): (r: set<string>)
    ensures forall x :: x in r <==>
              || (exists f :: f in friends && f.user.id == x)
              || (exists q :: q in incoming && q.status == RequestStatus.Pending && q.from.id == x)
              || (exists q :: q in outgoing && q.status == RequestStatus.Pending && q.to.id == x)
  {
    (set f | f in friends :: f.user.id)
    + (set q | q in incoming && q.status == RequestStatus.Pending :: q.from.id)
    + (set q | q in outgoing && q.status == RequestStatus.Pending :: q.to.id)
  }

  /** The early `return` inside the inner `forEach`. */
  predicate Skipped(userId: string, currentUser: Option<User>, excluded: set<string>)
  {
    currentUser.None? || userId == currentUser.value.id || userId in excluded
  }

  /** How many records in `us` carry the id `userId`. */
  function CountId(us: seq<User>, userId: string): (r: nat)
    ensures r <= |us|
    ensures r == 0 <==> forall i :: 0 <= i < |us| ==> us[i].id != userId
  {
    if us == [] then 0
    else
      assert forall i :: 0 <= i < |us| - 1 ==> us[i] == us[..|us| - 1][i];
      CountId(us[..|us| - 1], userId) + (if us[|us| - 1].id == userId then 1 else 0)
  }

  predicate EntryIdsDistinct(entries: seq<Entry>)
  {
    forall i, j :: 0 <= i < j < |entries| ==> entries[i].user.id != entries[j].user.id
  }

  /** The position of the entry counting `userId`, if that id is counted yet:
      the local map's lookup. */
  function EntryIndex(entries: seq<Entry>, userId: string): (r: Option<nat>)
    ensures r.Some? ==> r.value < |entries| && entries[r.value].user.id == userId
    ensures r.None? <==> forall k :: 0 <= k < |entries| ==> entries[k].user.id != userId
  {
    FindIndex(entries, (e: Entry) => e.user.id == userId)
  }

  /** The count the local map holds for `userId`; 0 when it has no entry. */
  function CountOf(entries: seq<Entry>, userId: string): nat
  {
    match EntryIndex(entries, userId)
    case Some(k) => entries[k].mutualCount
    case None => 0
  }

  /** One step of the inner `forEach`, as a specification: a skipped record
      changes nothing; otherwise the count of its id goes up by one, a new id
      is added at the end with this record as its user, and no other entry
      changes. `CountRecord` below is the step as the source runs it, proved
      equal to this function; `Suggestions` likewise specifies the result of
      `SuggestedFriends`. */
  function Visit(entries: seq<Entry>, u: User, currentUser: Option<User>, excluded: set<string>): (r: seq<Entry>)
    ensures Skipped(u.id, currentUser, excluded) ==> r == entries
    ensures !Skipped(u.id, currentUser, excluded) ==> CountOf(r, u.id) == CountOf(entries, u.id) + 1
    ensures !Skipped(u.id, currentUser, excluded) ==>
              && |entries| <= |r| <= |entries| + 1
              && forall k :: 0 <= k < |entries| && entries[k].user.id != u.id ==> r[k] == entries[k]
    ensures !Skipped(u.id, currentUser, excluded) && EntryIndex(entries, u.id).None? ==>
              r == entries + [Entry(u, 1)]
    ensures !Skipped(u.id, currentUser, excluded) && EntryIndex(entries, u.id).Some? ==>
              var k := EntryIndex(entries, u.id).value;
              |r| == |entries| && r[k] == entries[k].(mutualCount := entries[k].mutualCount + 1)
  {
    if Skipped(u.id, currentUser, excluded) then entries
    else
      match EntryIndex(entries, u.id)
      case Some(k) =>
        var r := entries[k := entries[k].(mutualCount := entries[k].mutualCount + 1)];
        assert EntryIndex(r, u.id) == Some(k) by {
          assert r[k].user.id == u.id;
          assert forall i :: 0 <= i < k ==> r[i] == entries[i];
        }
        r
      case None =>
        var r := entries + [Entry(u, 1)];
        assert EntryIndex(r, u.id) == Some(|entries|) by {
          assert forall i :: 0 <= i < |entries| ==> r[i] == entries[i];
          assert r[|entries|].user.id == u.id;
        }
        r
  }

  /** The position of the first record in `us` carrying `userId`. */
  function FirstRecord(us: seq<User>, userId: string): (r: Option<nat>)
    ensures r.Some? ==> r.value < |us| && us[r.value].id == userId
    ensures r.Some? ==> forall j :: 0 <= j < r.value ==> us[j].id != userId
    ensures r.None? <==> forall j :: 0 <= j < |us| ==> us[j].id != userId
  {
    FindIndex(us, (x: User) => x.id == userId)
  }

  /** Appending a record moves no first occurrence, and gives a new id its first one. */
  lemma FirstRecordSnoc(us: seq<User>, u: User, userId: string)
    ensures FirstRecord(us, userId).Some? ==> FirstRecord(us + [u], userId) == FirstRecord(us, userId)
    ensures FirstRecord(us, userId).None? && u.id == userId ==> FirstRecord(us + [u], userId) == Some(|us|)
  {
    var us' := us + [u];
    assert forall j :: 0 <= j < |us| ==> us'[j] == us[j];
    if FirstRecord(us, userId).Some? {
      var p := FirstRecord(us, userId).value;
      assert us'[p].id == userId;
      var q := FirstRecord(us', userId).value;
      assert !(q < p);
      assert !(p < q);
    } else if u.id == userId {
      assert us'[|us|].id == userId;
      var q := FirstRecord(us', userId).value;
      assert !(q < |us|);
    }
  }

  /** `t` is the local map after visiting every record of `us`: one entry per
      counted id, never a skipped id, each holding the number of records with
      that id, and an entry for every record that is not skipped. */
  predicate TallyFacts(us: seq<User>, t: seq<Entry>, currentUser: Option<User>, excluded: set<string>)
  {
    && EntryIdsDistinct(t)
    && TallyCounts(us, t, currentUser, excluded)
    && TallyCoverage(us, t, currentUser, excluded)
    && TallyFirstRecords(us, t)
  }

  /** No entry has a skipped id, and each holds the number of records with its id. */
  predicate TallyCounts(us: seq<User>, t: seq<Entry>, currentUser: Option<User>, excluded: set<string>)
  {
    forall k :: 0 <= k < |t| ==>
      !Skipped(t[k].user.id, currentUser, excluded) && t[k].mutualCount == CountId(us, t[k].user.id)
  }

  /** Every record that is not skipped has an entry. */
  predicate TallyCoverage(us: seq<User>, t: seq<Entry>, currentUser: Option<User>, excluded: set<string>)
  {
    forall i :: 0 <= i < |us| && !Skipped(us[i].id, currentUser, excluded) ==>
      exists k :: 0 <= k < |t| && t[k].user.id == us[i].id
  }

  /** Every entry holds the first record carrying its id. */
  predicate TallyFirstRecords(us: seq<User>, t: seq<Entry>)
  {
    forall k :: 0 <= k < |t| ==>
      FirstRecord(us, t[k].user.id).Some? && us[FirstRecord(us, t[k].user.id).value] == t[k].user
  }

  /** The local map after visiting every record of `us`, in first-seen order. */
  function Tally(us: seq<User>, currentUser: Option<User>, excluded: set<string>): seq<Entry>
  {
    if us == [] then []
    else Visit(Tally(us[..|us| - 1], currentUser, excluded), us[|us| - 1], currentUser, excluded)
  }

  /** The tally of any list of records has the facts of a local map. */
  lemma {:induction false} TallyFactsHold(us: seq<User>, currentUser: Option<User>, excluded: set<string>)
    ensures TallyFacts(us, Tally(us, currentUser, excluded), currentUser, excluded)
  {
    if us != [] {
      var prefix := us[..|us| - 1];
      assert us == prefix + [us[|us| - 1]];
      TallyFactsHold(prefix, currentUser, excluded);
      VisitKeepsTallyFacts(prefix, us[|us| - 1], Tally(prefix, currentUser, excluded), currentUser, excluded);
    }
  }

  /** One more visited record keeps the tally's facts. */
  lemma VisitKeepsTallyFacts(us: seq<User>, u: User, t: seq<Entry>, currentUser: Option<User>, excluded: set<string>)
    requires TallyFacts(us, t, currentUser, excluded)
    ensures TallyFacts(us + [u], Visit(t, u, currentUser, excluded), currentUser, excluded)
  {
    VisitKeepsDistinct(t, u, currentUser, excluded);
    VisitKeepsCounts(us, u, t, currentUser, excluded);
    VisitKeepsCoverage(us, u, t, currentUser, excluded);
    VisitKeepsFirstRecords(us, u, t, currentUser, excluded);
  }

  /** After a visit every entry still holds the first record seen for its id. */
  lemma VisitKeepsFirstRecords(us: seq<User>, u: User, t: seq<Entry>, currentUser: Option<User>, excluded: set<string>)
    requires EntryIdsDistinct(t) && TallyCoverage(us, t, currentUser, excluded) && TallyFirstRecords(us, t)
    ensures TallyFirstRecords(us + [u], Visit(t, u, currentUser, excluded))
  {
    var us', t' := us + [u], Visit(t, u, currentUser, excluded);
    forall k | 0 <= k < |t'|
      ensures FirstRecord(us', t'[k].user.id).Some? && us'[FirstRecord(us', t'[k].user.id).value] == t'[k].user
    {
      FirstRecordSnoc(us, u, t'[k].user.id);
      if Skipped(u.id, currentUser, excluded) || (k < |t| && t[k].user.id != u.id) {
        assert t'[k] == t[k];
        assert us'[FirstRecord(us, t[k].user.id).value] == us[FirstRecord(us, t[k].user.id).value];
      } else if EntryIndex(t, u.id).None? {
        assert t' == t + [Entry(u, 1)];
        assert k == |t|;
        assert CountId(us, u.id) == 0 by {
          forall i | 0 <= i < |us| ensures us[i].id != u.id {
            assert !Skipped(u.id, currentUser, excluded);
          }
        }
        assert us'[|us|] == u;
      } else {
        var n := EntryIndex(t, u.id).value;
        assert k == n;
        assert t'[k].user == t[k].user;
        assert us'[FirstRecord(us, t[k].user.id).value] == us[FirstRecord(us, t[k].user.id).value];
      }
    }
  }

  /** Appending a record adds one to the count of its own id and leaves the others. */
  lemma CountIdSnoc(us: seq<User>, u: User, userId: string)
    ensures CountId(us + [u], userId) == CountId(us, userId) + (if u.id == userId then 1 else 0)
  {
    assert (us + [u])[..|us|] == us;
  }

  /** Visiting a record never gives two entries the same id. */
  lemma VisitKeepsDistinct(t: seq<Entry>, u: User, currentUser: Option<User>, excluded: set<string>)
    requires EntryIdsDistinct(t)
    ensures EntryIdsDistinct(Visit(t, u, currentUser, excluded))
  {
    var t' := Visit(t, u, currentUser, excluded);
    if !Skipped(u.id, currentUser, excluded) {
      if EntryIndex(t, u.id).None? {
        assert t' == t + [Entry(u, 1)];
      } else {
        var n := EntryIndex(t, u.id).value;
        assert |t'| == |t|;
        forall k | 0 <= k < |t| ensures t'[k].user.id == t[k].user.id {
          if t[k].user.id != u.id {
            assert t'[k] == t[k];
          } else {
            assert k == n;
            assert t'[n].user.id == u.id;
          }
        }
      }
    }
  }

  /** Every entry of the visited map holds the count of its id in the longer list. */
  lemma VisitKeepsCounts(us: seq<User>, u: User, t: seq<Entry>, currentUser: Option<User>, excluded: set<string>)
    requires EntryIdsDistinct(t) && TallyCounts(us, t, currentUser, excluded) && TallyCoverage(us, t, currentUser, excluded)
    ensures TallyCounts(us + [u], Visit(t, u, currentUser, excluded), currentUser, excluded)
  {
    var t' := Visit(t, u, currentUser, excluded);
    VisitKeepsDistinct(t, u, currentUser, excluded);
    forall k | 0 <= k < |t'|
      ensures !Skipped(t'[k].user.id, currentUser, excluded) && t'[k].mutualCount == CountId(us + [u], t'[k].user.id)
    {
      CountIdSnoc(us, u, t'[k].user.id);
      if Skipped(u.id, currentUser, excluded) {
        assert t'[k] == t[k];
      } else if k < |t| && t[k].user.id != u.id {
        assert t'[k] == t[k];
      } else if EntryIndex(t, u.id).None? {
        assert t' == t + [Entry(u, 1)];
        assert k == |t|;
        assert CountId(us, u.id) == 0 by {
          forall i | 0 <= i < |us| ensures us[i].id != u.id {
            assert !Skipped(u.id, currentUser, excluded);
          }
        }
      } else {
        var n := EntryIndex(t, u.id).value;
        assert t'[n].user.id == u.id;
        assert k == n;
        var m := EntryIndex(t', u.id).value;
        assert m == n;
        assert CountOf(t, u.id) == t[n].mutualCount;
      }
    }
  }

  /** Every record of the longer list that is not skipped has an entry. */
  lemma VisitKeepsCoverage(us: seq<User>, u: User, t: seq<Entry>, currentUser: Option<User>, excluded: set<string>)
    requires TallyCoverage(us, t, currentUser, excluded)
    ensures TallyCoverage(us + [u], Visit(t, u, currentUser, excluded), currentUser, excluded)
  {
    var us', t' := us + [u], Visit(t, u, currentUser, excluded);
    forall i | 0 <= i < |us'| && !Skipped(us'[i].id, currentUser, excluded)
      ensures exists k :: 0 <= k < |t'| && t'[k].user.id == us'[i].id
    {
      if i < |us| {
        assert us'[i] == us[i];
        var k :| 0 <= k < |t| && t[k].user.id == us[i].id;
        if t[k].user.id != u.id {
          assert t'[k] == t[k];
        } else {
          var n := EntryIndex(t, u.id).value;
          assert t'[n].user.id == u.id;
        }
      } else {
        assert us'[i] == u;
        if EntryIndex(t, u.id).None? {
          assert t'[|t|].user.id == u.id;
        } else {
          var n := EntryIndex(t, u.id).value;
          assert t'[n].user.id == u.id;
        }
      }
    }
  }

  /** Visiting one more record is one more step of the tally. */
  lemma TallySnoc(seen: seq<User>, us: seq<User>, j: nat, currentUser: Option<User>, excluded: set<string>)
    requires j < |us|
    ensures Tally(seen + us[..j + 1], currentUser, excluded)
            == Visit(Tally(seen + us[..j], currentUser, excluded), us[j], currentUser, excluded)
  {
    assert (seen + us[..j + 1])[..|seen + us[..j + 1]| - 1] == seen + us[..j];
  }

  /** Without a current user every record is skipped. */
  lemma {:induction false} TallyWithoutUser(us: seq<User>, excluded: set<string>)
    ensures Tally(us, None, excluded) == []
  {
    if us != [] {
      TallyWithoutUser(us[..|us| - 1], excluded);
    }
  }

  predicate SortedByCount(es: seq<Entry>)
  {
    forall i, j :: 0 <= i < j < |es| ==> es[i].mutualCount >= es[j].mutualCount
  }

  /** Inserts `e` before the first element whose count is not larger, so that
      among equal counts the earlier element stays first. */
  function Insert(e: Entry, s: seq<Entry>): (r: seq<Entry>)
    ensures multiset(r) == multiset(s) + multiset{e}
  {
    if s == [] then [e]
    else if e.mutualCount >= s[0].mutualCount then [e] + s
    else
      assert s == [s[0]] + s[1..];
      [s[0]] + Insert(e, s[1..])
  }

  /** Every count after insertion is bounded by a bound on `e` and on `s`. */
  lemma {:induction false} InsertBounded(e: Entry, s: seq<Entry>, bound: nat)
    requires e.mutualCount <= bound
    requires forall i :: 0 <= i < |s| ==> s[i].mutualCount <= bound
    ensures forall i :: 0 <= i < |Insert(e, s)| ==> Insert(e, s)[i].mutualCount <= bound
  {
    if s != [] && e.mutualCount < s[0].mutualCount {
      InsertBounded(e, s[1..], bound);
    }
  }

  /** Insertion keeps a list sorted by non-increasing count. */
  lemma {:induction false} InsertSorted(e: Entry, s: seq<Entry>)
    requires SortedByCount(s)
    ensures SortedByCount(Insert(e, s))
  {
    if s != [] && e.mutualCount < s[0].mutualCount {
      InsertSorted(e, s[1..]);
      InsertBounded(e, s[1..], s[0].mutualCount);
      var rest := Insert(e, s[1..]);
      assert Insert(e, s) == [s[0]] + rest;
    }
  }

  /** The entries sorted by non-increasing count; the sort is stable, as the
      engine's sort with the comparator `b.mutualCount - a.mutualCount` is. */
  function SortByCount(es: seq<Entry>): (r: seq<Entry>)
    ensures multiset(r) == multiset(es)
    ensures SortedByCount(r)
  {
    if es == [] then []
    else
      assert es == [es[0]] + es[1..];
      InsertSorted(es[0], SortByCount(es[1..]));
      Insert(es[0], SortByCount(es[1..]))
  }

  /** Inserting an entry whose id is new keeps the ids distinct. */
  lemma {:induction false} InsertDistinct(e: Entry, s: seq<Entry>)
    requires EntryIdsDistinct(s)
    requires forall i :: 0 <= i < |s| ==> s[i].user.id != e.user.id
    ensures EntryIdsDistinct(Insert(e, s))
  {
    if s != [] && e.mutualCount < s[0].mutualCount {
      assert forall i :: 0 <= i < |s[1..]| ==> s[1..][i] == s[i + 1];
      InsertDistinct(e, s[1..]);
      var rest := Insert(e, s[1..]);
      forall x | x in rest ensures x.user.id != s[0].user.id {
        assert x in multiset(rest);
        if x != e {
          assert x in s[1..];
        }
      }
      assert Insert(e, s) == [s[0]] + rest;
      assert forall j :: 0 <= j < |rest| ==> rest[j] in rest;
    }
  }

  /** Sorting keeps the ids distinct. */
  lemma {:induction false} SortDistinct(es: seq<Entry>)
    requires EntryIdsDistinct(es)
    ensures EntryIdsDistinct(SortByCount(es))
  {
    if es != [] {
      assert forall i :: 0 <= i < |es[1..]| ==> es[1..][i] == es[i + 1];
      SortDistinct(es[1..]);
      var sorted := SortByCount(es[1..]);
      forall i | 0 <= i < |sorted| ensures sorted[i].user.id != es[0].user.id {
        assert sorted[i] in multiset(es[1..]);
        var k :| 0 <= k < |es[1..]| && es[1..][k] == sorted[i];
      }
      InsertDistinct(es[0], sorted);
    }
  }

  /** Entries taken from the tail of a list with distinct ids do not share
      the id of its head. */
  lemma TailIdsDiffer(es: seq<Entry>, rest: seq<Entry>)
    requires es != []
    requires forall e :: e in rest ==> e in es[1..]
    ensures EntryIdsDistinct(es) ==> forall j :: 0 <= j < |rest| ==> rest[j].user.id != es[0].user.id
  {
    if EntryIdsDistinct(es) {
      forall j | 0 <= j < |rest| ensures rest[j].user.id != es[0].user.id {
        assert rest[j] in es[1..];
        var k :| 0 <= k < |es[1..]| && es[1..][k] == rest[j];
        assert es[k + 1] == rest[j];
      }
    }
  }

  /** The entries with a count of at least 2, in order. */
  function Qualifying(es: seq<Entry>): (r: seq<Entry>)
    ensures forall e :: e in r <==> e in es && e.mutualCount >= 2
    ensures IsSubsequence(r, es)
    ensures EntryIdsDistinct(es) ==> EntryIdsDistinct(r)
  {
    if es == [] then []
    else
      var rest := Qualifying(es[1..]);
      if es[0].mutualCount >= 2 then
        TailIdsDiffer(es, rest);
        [es[0]] + rest
      else
        assert rest == [] || rest[0] != es[0] by {
          if rest != [] { assert rest[0] in rest; }
        }
        rest
  }

  /** A ranked entry as the friend record the suggestions list shows. */
  function ToSuggestion(e: Entry): (r: Friend)
    ensures r.user == e.user && r.mutualFriendsCount == Some(e.mutualCount)
    ensures r.invitedBy.None? && r.friendsOfFriend == []
  {
    Friend(e.user, None, Some(e.mutualCount), [])
  }

  const MaxSuggestions := 25

  /** The first 25 entries, or all of them when there are fewer. */
  function Top(es: seq<Entry>): (r: seq<Entry>)
    ensures |r| <= MaxSuggestions && |r| <= |es| && r == es[..|r|]
    ensures |r| < MaxSuggestions ==> r == es
  {
    if |es| <= MaxSuggestions then es else es[..MaxSuggestions]
  }

  function ToSuggestions(es: seq<Entry>): (r: seq<Friend>)
    ensures |r| == |es|
    ensures forall i :: 0 <= i < |es| ==> r[i] == ToSuggestion(es[i])
  {
    seq(|es|, i requires 0 <= i < |es| => ToSuggestion(es[i]))
  }

  /** Filter, sort, keep the first 25 and attach the counts. The result holds
      the qualifying entries with the largest counts: an entry that is left
      out has no larger count than any entry that is kept, and it is left out
      only when 25 entries are kept. */
  function Rank(entries: seq<Entry>): (r: seq<Friend>)
    ensures |r| <= MaxSuggestions
    ensures forall i :: 0 <= i < |r| ==> r[i].mutualFriendsCount.Some?
    ensures forall i, j :: 0 <= i < j < |r| ==> r[i].mutualFriendsCount.value >= r[j].mutualFriendsCount.value
    ensures forall f :: f in r ==> exists e :: e in entries && e.mutualCount >= 2 && f == ToSuggestion(e)
    ensures forall e :: e in entries && e.mutualCount >= 2 ==>
              ToSuggestion(e) in r ||
              (|r| == MaxSuggestions && forall f :: f in r ==> f.mutualFriendsCount.value >= e.mutualCount)
    ensures EntryIdsDistinct(entries) ==> forall i, j :: 0 <= i < j < |r| ==> r[i].user.id != r[j].user.id
  {
    var sorted := SortByCount(Qualifying(entries));
    RankSound(entries, sorted);
    SortedHoldsQualifying(entries, sorted);
    RankComplete(entries, sorted);
    RankDistinct(entries, sorted);
    ToSuggestions(Top(sorted))
  }

  /** Sorting the qualifying entries loses none of them. */
  lemma SortedHoldsQualifying(entries: seq<Entry>, sorted: seq<Entry>)
    requires sorted == SortByCount(Qualifying(entries))
    ensures forall e :: e in entries && e.mutualCount >= 2 ==> e in sorted
  {
    assert forall e :: e in Qualifying(entries) ==> e in multiset(sorted);
  }

  /** Entries with distinct ids give suggestions with distinct ids. */
  lemma RankDistinct(entries: seq<Entry>, sorted: seq<Entry>)
    requires sorted == SortByCount(Qualifying(entries))
    ensures EntryIdsDistinct(entries) ==>
              var r := ToSuggestions(Top(sorted));
              forall i, j :: 0 <= i < j < |r| ==> r[i].user.id != r[j].user.id
  {
    if EntryIdsDistinct(entries) {
      SortDistinct(Qualifying(entries));
      TopDistinct(sorted);
    }
  }

  /** The suggestions of a list with distinct ids have distinct ids. */
  lemma TopDistinct(sorted: seq<Entry>)
    requires EntryIdsDistinct(sorted)
    ensures var r := ToSuggestions(Top(sorted));
            forall i, j :: 0 <= i < j < |r| ==> r[i].user.id != r[j].user.id
  {
    var top := Top(sorted);
    assert forall i :: 0 <= i < |top| ==> top[i] == sorted[i];
  }

  lemma RankSound(entries: seq<Entry>, sorted: seq<Entry>)
    requires sorted == SortByCount(Qualifying(entries))
    ensures forall f :: f in ToSuggestions(Top(sorted)) ==>
              exists e :: e in entries && e.mutualCount >= 2 && f == ToSuggestion(e)
  {
    var top := Top(sorted);
    var r := ToSuggestions(top);
    forall f | f in r ensures exists e :: e in entries && e.mutualCount >= 2 && f == ToSuggestion(e) {
      var i :| 0 <= i < |r| && r[i] == f;
      assert top[i] == sorted[i];
      assert sorted[i] in multiset(sorted);
    }
  }

  lemma RankComplete(entries: seq<Entry>, sorted: seq<Entry>)
    requires SortedByCount(sorted)
    requires forall e :: e in entries && e.mutualCount >= 2 ==> e in sorted
    ensures forall e :: e in entries && e.mutualCount >= 2 ==>
              ToSuggestion(e) in ToSuggestions(Top(sorted)) ||
              (|ToSuggestions(Top(sorted))| == MaxSuggestions &&
               forall f :: f in ToSuggestions(Top(sorted)) ==> f.mutualFriendsCount.value >= e.mutualCount)
  {
    var top := Top(sorted);
    var r := ToSuggestions(top);
    forall e | e in entries && e.mutualCount >= 2
      ensures ToSuggestion(e) in r ||
              (|r| == MaxSuggestions && forall f :: f in r ==> f.mutualFriendsCount.value >= e.mutualCount)
    {
      var p :| 0 <= p < |sorted| && sorted[p] == e;
      if p < |top| {
        assert r[p] == ToSuggestion(e);
      } else {
        forall f | f in r ensures f.mutualFriendsCount.value >= e.mutualCount {
          var i :| 0 <= i < |r| && r[i] == f;
          assert top[i] == sorted[i];
        }
      }
    }
  }

  /** What `suggestedFriends` computes, stated on values: nothing with fewer
      than three friends; otherwise the ranking of the tally of all
      friends-of-friends. */
  function Suggestions(currentUser: Option<User>, friends: seq<Friend>,
                       incoming: seq<FriendRequest>, outgoing: seq<FriendRequest>): seq<Friend>
  {
    if |friends| < 3 then []
    else Rank(Tally(FriendsOfFriends(friends), currentUser, ExcludedIds(friends, incoming, outgoing)))
  }

  /** The callback of the inner `forEach`: one friend-of-friend record. */
  method CountRecord(entries: seq<Entry>, user: User, currentUser: Option<User>,
                     existingFriendIds: set<string>, incomingRequestIds: set<string>, outgoingRequestIds: set<string>)
    returns (r: seq<Entry>)
    ensures r == Visit(entries, user, currentUser, existingFriendIds + incomingRequestIds + outgoingRequestIds)
  {
    if currentUser.None? || user.id == currentUser.value.id || user.id in existingFriendIds
       || user.id in incomingRequestIds || user.id in outgoingRequestIds {
      return entries;
    }
    var existing := EntryIndex(entries, user.id);
    if existing.Some? {
      var k := existing.value;
      r := entries[k := entries[k].(mutualCount := entries[k].mutualCount + 1)];
    } else {
      r := entries + [Entry(user, 1)];
    }
  }

  /** The inner `forEach`: every friend-of-friend record of one friend, in order. */
  method CountFriendOfFriends(entries: seq<Entry>, fof: seq<User>, currentUser: Option<User>,
                              existingFriendIds: set<string>, incomingRequestIds: set<string>,
                              outgoingRequestIds: set<string>, ghost seen: seq<User>)
    returns (r: seq<Entry>)
    requires entries == Tally(seen, currentUser, existingFriendIds + incomingRequestIds + outgoingRequestIds)
    ensures r == Tally(seen + fof, currentUser, existingFriendIds + incomingRequestIds + outgoingRequestIds)
  {
    ghost var excluded := existingFriendIds + incomingRequestIds + outgoingRequestIds;
    r := entries;
    assert seen + fof[..0] == seen;
    var j := 0;
    while j < |fof|
      invariant 0 <= j <= |fof|
      invariant r == Tally(seen + fof[..j], currentUser, excluded)
    {
      r := CountRecord(r, fof[j], currentUser, existingFriendIds, incomingRequestIds, outgoingRequestIds);
      TallySnoc(seen, fof, j, currentUser, excluded);
      j := j + 1;
    }
    assert fof[..|fof|] == fof;
  }

  /** `suggestedFriends`: the nested `forEach` loops build the local map one
      friend-of-friend record at a time; then the entries are ranked. */
  method SuggestedFriends(currentUser: Option<User>, friends: seq<Friend>,
                          incoming: seq<FriendRequest>, outgoing: seq<FriendRequest>)
    returns (r: seq<Friend>)
    ensures r == Suggestions(currentUser, friends, incoming, outgoing)
  {
    if |friends| < 3 {
      return [];
    }
    var existingFriendIds := set f | f in friends :: f.user.id;
    var incomingRequestIds := set q | q in incoming && q.status == RequestStatus.Pending :: q.from.id;
    var outgoingRequestIds := set q | q in outgoing && q.status == RequestStatus.Pending :: q.to.id;
    ghost var excluded := ExcludedIds(friends, incoming, outgoing);
    assert excluded == existingFriendIds + incomingRequestIds + outgoingRequestIds;

    var entries: seq<Entry> := [];
    var i := 0;
    while i < |friends|
      invariant 0 <= i <= |friends|
      invariant entries == Tally(FriendsOfFriends(friends[..i]), currentUser, excluded)
    {
      entries := CountFriendOfFriends(entries, friends[i].friendsOfFriend, currentUser,
                                      existingFriendIds, incomingRequestIds, outgoingRequestIds,
                                      FriendsOfFriends(friends[..i]));
      FriendsOfFriendsStep(friends, i);
      i := i + 1;
    }
    assert friends[..|friends|] == friends;
    r := Rank(entries);
  }

  /** No suggestions with fewer than three friends or without a current
      user; otherwise at most 25, by non-increasing mutual count. */
  lemma SuggestionsRanked(currentUser: Option<User>, friends: seq<Friend>,
                          incoming: seq<FriendRequest>, outgoing: seq<FriendRequest>)
    ensures var r := Suggestions(currentUser, friends, incoming, outgoing);
      |friends| < 3 || currentUser.None? ==> r == []
    ensures var r := Suggestions(currentUser, friends, incoming, outgoing);
      && |r| <= MaxSuggestions
      && forall i, j :: 0 <= i < j < |r| ==>
           r[i].mutualFriendsCount.Some? && r[j].mutualFriendsCount.Some? &&
           r[i].mutualFriendsCount.value >= r[j].mutualFriendsCount.value
  {
    if |friends| >= 3 && currentUser.None? {
      TallyWithoutUser(FriendsOfFriends(friends), ExcludedIds(friends, incoming, outgoing));
    }
  }

  /** A suggestion is never the current user, a friend, the sender of a
      pending incoming request or the target of a pending outgoing one. */
  lemma SuggestionsExcluded(currentUser: Option<User>, friends: seq<Friend>,
                            incoming: seq<FriendRequest>, outgoing: seq<FriendRequest>)
    ensures var r := Suggestions(currentUser, friends, incoming, outgoing);
      forall f :: f in r ==>
        && currentUser.Some? && f.user.id != currentUser.value.id
        && (forall g :: g in friends ==> g.user.id != f.user.id)
        && (forall q :: q in incoming && q.status == RequestStatus.Pending ==> q.from.id != f.user.id)
        && (forall q :: q in outgoing && q.status == RequestStatus.Pending ==> q.to.id != f.user.id)
  {
    if |friends| >= 3 {
      var excluded := ExcludedIds(friends, incoming, outgoing);
      var r := Rank(Tally(FriendsOfFriends(friends), currentUser, excluded));
      RankedNotSkipped(FriendsOfFriends(friends), currentUser, excluded);
      forall f, g | f in r && g in friends ensures g.user.id != f.user.id {
        assert g.user.id in excluded;
      }
      forall f, q | f in r && q in incoming && q.status == RequestStatus.Pending ensures q.from.id != f.user.id {
        assert q.from.id in excluded;
      }
      forall f, q | f in r && q in outgoing && q.status == RequestStatus.Pending ensures q.to.id != f.user.id {
        assert q.to.id in excluded;
      }
    }
  }

  /** No ranked entry of a tally has a skipped id. */
  lemma RankedNotSkipped(us: seq<User>, currentUser: Option<User>, excluded: set<string>)
    ensures forall f :: f in Rank(Tally(us, currentUser, excluded)) ==> !Skipped(f.user.id, currentUser, excluded)
  {
    var t := Tally(us, currentUser, excluded);
    TallyFactsHold(us, currentUser, excluded);
    forall f | f in Rank(t) ensures !Skipped(f.user.id, currentUser, excluded) {
      var e :| e in t && e.mutualCount >= 2 && f == ToSuggestion(e);
      var k :| 0 <= k < |t| && t[k] == e;
    }
  }

  /** No user is suggested twice: the local map has one entry per id. */
  lemma SuggestionsDistinct(currentUser: Option<User>, friends: seq<Friend>,
                            incoming: seq<FriendRequest>, outgoing: seq<FriendRequest>)
    ensures var r := Suggestions(currentUser, friends, incoming, outgoing);
      forall i, j :: 0 <= i < j < |r| ==> r[i].user.id != r[j].user.id
  {
    if |friends| >= 3 {
      var t := Tally(FriendsOfFriends(friends), currentUser, ExcludedIds(friends, incoming, outgoing));
      TallyFactsHold(FriendsOfFriends(friends), currentUser, ExcludedIds(friends, incoming, outgoing));
    }
  }

  /** Each suggestion carries the number of times its id occurs among the
      friends-of-friends, and that number is at least 2. */
  lemma SuggestionsCounted(currentUser: Option<User>, friends: seq<Friend>,
                           incoming: seq<FriendRequest>, outgoing: seq<FriendRequest>)
    ensures var r := Suggestions(currentUser, friends, incoming, outgoing);
      forall f :: f in r ==>
        f.mutualFriendsCount == Some(CountId(FriendsOfFriends(friends), f.user.id)) &&
        f.mutualFriendsCount.value >= 2
  {
    if |friends| >= 3 {
      var us := FriendsOfFriends(friends);
      var excluded := ExcludedIds(friends, incoming, outgoing);
      TallyFactsHold(us, currentUser, excluded);
      RankedCounts(us, Tally(us, currentUser, excluded), currentUser, excluded);
    }
  }

  /** Ranking a map whose entries hold exact counts gives suggestions with exact counts. */
  lemma RankedCounts(us: seq<User>, t: seq<Entry>, currentUser: Option<User>, excluded: set<string>)
    requires TallyCounts(us, t, currentUser, excluded)
    ensures forall f :: f in Rank(t) ==>
              f.mutualFriendsCount == Some(CountId(us, f.user.id)) && f.mutualFriendsCount.value >= 2
  {
    forall f | f in Rank(t)
      ensures f.mutualFriendsCount == Some(CountId(us, f.user.id)) && f.mutualFriendsCount.value >= 2
    {
      var e :| e in t && e.mutualCount >= 2 && f == ToSuggestion(e);
      var k :| 0 <= k < |t| && t[k] == e;
    }
  }

  /** Each suggestion shows the first friend-of-friend record seen with its
      id: later records with the same id only raise the count. */
  lemma SuggestionsShowFirstRecord(currentUser: Option<User>, friends: seq<Friend>,
                                   incoming: seq<FriendRequest>, outgoing: seq<FriendRequest>)
    ensures var r := Suggestions(currentUser, friends, incoming, outgoing);
      var us := FriendsOfFriends(friends);
      forall f :: f in r ==>
        FirstRecord(us, f.user.id).Some? && f.user == us[FirstRecord(us, f.user.id).value]
  {
    if |friends| >= 3 {
      var us := FriendsOfFriends(friends);
      var excluded := ExcludedIds(friends, incoming, outgoing);
      TallyFactsHold(us, currentUser, excluded);
      RankedFirstRecords(us, Tally(us, currentUser, excluded));
    }
  }

  /** Ranking a map whose entries hold first records shows those records. */
  lemma RankedFirstRecords(us: seq<User>, t: seq<Entry>)
    requires TallyFirstRecords(us, t)
    ensures forall f :: f in Rank(t) ==>
              FirstRecord(us, f.user.id).Some? && f.user == us[FirstRecord(us, f.user.id).value]
  {
    forall f | f in Rank(t)
      ensures FirstRecord(us, f.user.id).Some? && f.user == us[FirstRecord(us, f.user.id).value]
    {
      var e :| e in t && e.mutualCount >= 2 && f == ToSuggestion(e);
      var k :| 0 <= k < |t| && t[k] == e;
    }
  }

  /** With three friends or more, a friend-of-friend that is not excluded and
      occurs at least twice is suggested, unless 25 suggestions with no
      smaller count fill the list. */
  lemma SuggestionsComplete(currentUser: Option<User>, friends: seq<Friend>,
                            incoming: seq<FriendRequest>, outgoing: seq<FriendRequest>, u: User)
    requires |friends| >= 3
    requires u in FriendsOfFriends(friends)
    requires !Skipped(u.id, currentUser, ExcludedIds(friends, incoming, outgoing))
    requires CountId(FriendsOfFriends(friends), u.id) >= 2
    ensures var r := Suggestions(currentUser, friends, incoming, outgoing);
      (exists f :: f in r && f.user.id == u.id) ||
      (|r| == MaxSuggestions && forall f :: f in r ==> f.mutualFriendsCount.value >= CountId(FriendsOfFriends(friends), u.id))
  {
    var us := FriendsOfFriends(friends);
    var t := Tally(us, currentUser, ExcludedIds(friends, incoming, outgoing));
    TallyFactsHold(us, currentUser, ExcludedIds(friends, incoming, outgoing));
    var r := Rank(t);
    var i :| 0 <= i < |us| && us[i] == u;
    var k :| 0 <= k < |t| && t[k].user.id == us[i].id;
    assert t[k] in t;
    if ToSuggestion(t[k]) in r {
      assert ToSuggestion(t[k]).user.id == u.id;
    }
  }

  // ---------------------------------------------------------------------
  // The context's state and actions
  // ---------------------------------------------------------------------

  class AppState {
    var currentUser: Option<User>
    var friends: seq<Friend>
    var matches: seq<Match>
    var friendRequests: seq<FriendRequest>
    var outgoingRequests: seq<FriendRequest>

    constructor ()
      ensures currentUser == None && friends == [] && matches == []
      ensures friendRequests == [] && outgoingRequests == []
    {
      currentUser, friends, matches := None, [], [];
      friendRequests, outgoingRequests := [], [];
    }

    /** `likeMatch`, local part: no-op without a current user or an entry with
        that id; otherwise the entries with that id become `liked`. */
    method LikeMatch(matchId: string)
      modifies this
      ensures FindMatch(old(matches), matchId).None? || currentUser.None? ==> matches == old(matches)
      ensures FindMatch(old(matches), matchId).Some? && currentUser.Some? ==>
                StatusSet(old(matches), matches, matchId, Liked)
      ensures currentUser == old(currentUser) && friends == old(friends)
      ensures friendRequests == old(friendRequests) && outgoingRequests == old(outgoingRequests)
    {
      if FindMatch(matches, matchId).None? || currentUser.None? {
        return;
      }
      matches := SetMatchStatus(matches, matchId, Liked);
    }

    /** The answer to a like: a match from the server replaces the liked entry
        by the confirmed one; no match leaves the list to the next sync. */
    method OnLikeAnswered(matchId: string, serverMatchId: Option<string>)
      modifies this
      ensures serverMatchId.None? ==> matches == old(matches)
      ensures serverMatchId.Some? ==> matches == ConfirmMatch(old(matches), matchId, serverMatchId.value)
      ensures currentUser == old(currentUser) && friends == old(friends)
      ensures friendRequests == old(friendRequests) && outgoingRequests == old(outgoingRequests)
    {
      if serverMatchId.Some? {
        matches := ConfirmMatch(matches, matchId, serverMatchId.value);
      }
    }

    /** `passMatch`: with a signed-in user and an entry with that id, marks
        the entry passed; otherwise nothing changes. The request sent to the
        server is not modelled. */
    method PassMatch(matchId: string)
      modifies this
      ensures FindMatch(old(matches), matchId).None? || currentUser.None? ==> matches == old(matches)
      ensures FindMatch(old(matches), matchId).Some? && currentUser.Some? ==>
                StatusSet(old(matches), matches, matchId, Passed)
      ensures currentUser == old(currentUser) && friends == old(friends)
      ensures friendRequests == old(friendRequests) && outgoingRequests == old(outgoingRequests)
    {
      if FindMatch(matches, matchId).None? || currentUser.None? {
        return;
      }
      matches := SetMatchStatus(matches, matchId, Passed);
    }

    /** `acceptFriendRequest`: no-op for an unknown id; otherwise the sender of
        the first request with that id becomes a friend and the requests with
        that id become `accepted`. `mutualCount` stands for the random count. */
    method AcceptFriendRequest(requestId: string, mutualCount: int)
      modifies this
      ensures FindRequest(old(friendRequests), requestId).None? ==>
                friends == old(friends) && friendRequests == old(friendRequests)
      ensures FindRequest(old(friendRequests), requestId).Some? ==>
                && friends == old(friends) + [NewFriend(FindRequest(old(friendRequests), requestId).value.from, mutualCount)]
                && friendRequests == SetRequestStatus(old(friendRequests), requestId, Accepted)
      ensures currentUser == old(currentUser) && matches == old(matches) && outgoingRequests == old(outgoingRequests)
    {
      var request := FindRequest(friendRequests, requestId);
      if request.None? {
        return;
      }
      friends := friends + [NewFriend(request.value.from, mutualCount)];
      friendRequests := SetRequestStatus(friendRequests, requestId, Accepted);
    }

    /** `declineFriendRequest`: marks every request with that id declined and
        leaves the other lists alone. */
    method DeclineFriendRequest(requestId: string)
      modifies this
      ensures friendRequests == SetRequestStatus(old(friendRequests), requestId, Declined)
      ensures currentUser == old(currentUser) && friends == old(friends)
      ensures matches == old(matches) && outgoingRequests == old(outgoingRequests)
    {
      friendRequests := SetRequestStatus(friendRequests, requestId, Declined);
    }

    /** `syncDiscoveryAndMatches` once both requests have been answered
        (`None` for a failed request). */
    method SyncDiscoveryAndMatches(discovery: Option<seq<PublicUser>>, confirmed: Option<seq<ApiMatchItem>>, now: string)
      modifies this
      ensures matches == MergeMatches(old(matches), discovery, confirmed, now)
      ensures currentUser == old(currentUser) && friends == old(friends)
      ensures friendRequests == old(friendRequests) && outgoingRequests == old(outgoingRequests)
    {
      matches := MergeMatches(matches, discovery, confirmed, now);
    }
  }
}
