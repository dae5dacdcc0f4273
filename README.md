# Ref dating app: backend store and client relationship state in Dafny

This project models the two parts of the Ref dating app that hold real logic
and proves properties of them.

* **The backend's in-memory store** (`MemoryStore`, file `memory_store.dfy`).
  This is the state behind the REST API: users, an append-only swipe ledger,
  matches formed from mutual likes, one chat thread per match, and the session
  table. `Store` is a class whose fields are the store's lists and maps.
  Registration, login, profile patching, swiping and messaging are its
  methods. Each method keeps the store invariant `Valid()`:
  * user ids are unique, and emails are unique up to case;
  * every swipe and every match refers to existing users;
  * every match stores its two ids in ascending UTF-16 order, and both users
    have liked each other;
  * no two matches share an unordered pair;
  * match ids are unique, and the thread keys are exactly the match ids;
  * every message sits in its own match's thread;
  * every session token maps to an existing user.

  The read-only queries are functions over the field values: `getUser`,
  `getDiscovery`, `getMatches` and `getMessages`.
* **The mobile client's relationship state** (`AppContext`, file
  `app_context.dfy`). This covers:
  * profile completeness;
  * the optimistic updates of the match list (like, pass, server match);
  * accepting and declining friend requests;
  * the merge of confirmed matches and discovery profiles;
  * the friend-of-friend suggestion ranking.

  Each setter callback is a function on lists. The context's actions are
  methods of the class `AppState`, whose fields are the lists the React state
  holds. `suggestedFriends` is a method with the source's two nested loops. It
  is proved equal to the specification function `Suggestions`, whose
  properties are proved as lemmas.
* **Shared pieces**:
  * `Common` (`common.dfy`): `Option`, `Result`, the public profile and
    `findIndex`.
  * `JsText` (`js_text.dfy`): the JavaScript string behaviour the code relies
    on. That is `toLowerCase` for email comparison, `trim` for profile
    completeness, and the UTF-16 code-unit order of the default
    `Array.prototype.sort`, which makes a match's user pair canonical.

Ids, tokens and timestamps come from `Date.now()` and `Math.random()`. Here
they are parameters:
* a fresh user or match id comes with a precondition that it is not in use;
* a token is `"token-"` followed by a caller-chosen suffix;
* a timestamp is an opaque string `now`.

Two behaviours of the code are modelled as written:
* A like from a user to themself finds itself as the reverse like. The
  sorted pair is then the user's id twice, and the lookup of an existing
  match asks only that some match includes that id. So the like returns the
  user's first match when the user has one, and creates a match of the user
  with themself only when the user has no match yet
  (`SelfPairFindsAnyMatch`).
* `getMatches` throws a `TypeError` for such a user, because it dereferences
  a missing "other user". The model returns `None` there, and
  `GetMatchesFailsOnlyOnSelfMatch` proves this is the only way it fails in a
  valid store.

## Model

| member | source | states |
|---|---|---|
| Common.FindIndex | ref-backend/src/store.ts:160 | the first index whose element satisfies the predicate, none earlier; none exactly when no element does |
| JsText.Lower | ref-backend/src/store.ts:118 | lower-casing keeps the length and maps each character (ASCII letters only) |
| JsText.LowerIdempotent | ref-backend/src/store.ts:118 | lower-casing an already lower-cased string changes nothing |
| JsText.TrimStart | ref-demo/context/AppContext.tsx:84 | the result is a suffix without leading whitespace, and everything dropped was whitespace |
| JsText.TrimEnd | ref-demo/context/AppContext.tsx:84 | the result is a prefix without trailing whitespace, and everything dropped was whitespace |
| JsText.Trim | ref-demo/context/AppContext.tsx:84 | the result has no whitespace at either end and is a slice of the input with only whitespace cut on both sides |
| JsText.TrimSlice | ref-demo/context/AppContext.tsx:84 | trimming the start and then the end cuts a whitespace prefix and a whitespace suffix and keeps the contiguous middle |
| JsText.TrimEmptyIff | ref-demo/context/AppContext.tsx:84 | `trim()` gives the empty string exactly when every character is ECMAScript whitespace |
| JsText.CharUnits | ref-backend/src/store.ts:209 | a character encodes to one or two UTF-16 code units, and to two exactly when the first is a high surrogate |
| JsText.CodeUnitsInjective | ref-backend/src/store.ts:209 | two strings with the same UTF-16 encoding are equal |
| JsText.StrLessTrichotomy | ref-backend/src/store.ts:209 | JavaScript string comparison is a strict total order (irreflexive, asymmetric, total) |
| JsText.SortPair | ref-backend/src/store.ts:209 | `[a, b].sort()` returns the two ids in ascending code-unit order |
| JsText.SortPairSymmetric | ref-backend/src/store.ts:209 | the sorted pair does not depend on which user swiped |
| JsText.AscendingPairUnique | ref-backend/src/store.ts:209-220 | two ascending pairs over the same two ids are identical |
| MemoryStore.SeedUsers | ref-backend/src/store.ts:19-64 | three users with the given ids in order, password `demo123`, one creation time, statuses single, single, not single, and emails pairwise different up to case |
| MemoryStore.SeedEmailsDiffer | ref-backend/src/store.ts:19-45 | the three seed emails differ up to case |
| MemoryStore.ToPublicUser | ref-backend/src/store.ts:49-56 | the public profile copies id, name, status, photo, bio and age and nothing else |
| MemoryStore.UserIndex | ref-backend/src/store.ts:160-161 | the position of the user with that id; none exactly when no user has it |
| MemoryStore.FindUser | ref-backend/src/store.ts:150 | a stored user with that id; none exactly when the id is unknown |
| MemoryStore.GetUser | ref-backend/src/store.ts:149-152 | null exactly for an unknown id; otherwise the public profile of a stored user with that id |
| MemoryStore.FindByEmail | ref-backend/src/store.ts:117-119 | a stored user whose email equals the input up to case; none exactly when no user's does |
| MemoryStore.FindLogin | ref-backend/src/store.ts:139-141 | a stored user with the email (up to case) and the password; none exactly when no user has both |
| MemoryStore.RegisteredUserCanLogIn | ref-backend/src/store.ts:117-142 | a user registered under an unused email is the user a login with that email and password finds |
| MemoryStore.ApplyPatch | ref-backend/src/store.ts:162 | each field present in the patch takes the patch's value, each absent field keeps the stored one; id, email, password and creation time never change; an empty patch changes nothing |
| MemoryStore.ApplyPatchIdempotent | ref-backend/src/store.ts:162 | applying a patch twice equals applying it once |
| MemoryStore.Publics | ref-backend/src/store.ts:182 | the public profiles of the users, position by position |
| MemoryStore.SwipedBy | ref-backend/src/store.ts:174-176 | exactly the ids the user swiped on, by a like or a pass |
| MemoryStore.DiscoverableUsers | ref-backend/src/store.ts:178-182 | only other single users not swiped on; every such user is present; order of `users` kept |
| MemoryStore.Discovery | ref-backend/src/store.ts:170-183 | null exactly for an unknown requester; otherwise never the requester, a non-single user or anyone the requester swiped on (like or pass), every other single unswiped user present, order of `users` kept |
| MemoryStore.FindLike | ref-backend/src/store.ts:201-206 | a stored like from `a` to `b`; none exactly when no such like exists |
| MemoryStore.FindMatch | ref-backend/src/store.ts:210-215 | the first stored match including both ids, no earlier match including both; none exactly when no match includes both |
| MemoryStore.SelfPairFindsAnyMatch | ref-backend/src/store.ts:209-216 | for a pair of the same id twice the lookup finds a match exactly when some match includes that id |
| MemoryStore.FindMatchSymmetric | ref-backend/src/store.ts:209-215 | looking a pair up in either order finds the same match |
| MemoryStore.OtherUserId | ref-backend/src/store.ts:238 | the participant other than the user; none exactly for a match of the user with themself |
| MemoryStore.Involving | ref-backend/src/store.ts:235-236 | exactly the matches including the user, in stored order (a subsequence of the matches) |
| MemoryStore.GetMatches | ref-backend/src/store.ts:234-245 | fails exactly when some of the user's matches has no other existing participant; otherwise one view per match of the user, in order, each carrying the other participant's profile |
| MemoryStore.GetMatchesFailsOnlyOnSelfMatch | ref-backend/src/store.ts:238-239 | in a store whose matches refer to existing users, listing fails exactly for a user matched with themself |
| MemoryStore.MatchListedForBoth | ref-backend/src/store.ts:234-245 | in a store without self-matches, a match between two different users is listed for each of them, with the other as `otherUser` |
| MemoryStore.GetMessages | ref-backend/src/store.ts:247-249 | the thread of the match, and null exactly when it has none |
| MemoryStore.OneMatchPerPair | ref-backend/src/store.ts:209-222 | in a valid store two matches over the same unordered pair are the same match |
| MemoryStore.InvariantAfterRegister | ref-backend/src/store.ts:117-134 | appending a user with a fresh id and an unused email, plus a session for them, keeps the store invariant |
| MemoryStore.InvariantAfterLogin | ref-backend/src/store.ts:144-145 | a new session for an existing user keeps the store invariant |
| MemoryStore.InvariantAfterUpdate | ref-backend/src/store.ts:160-165 | replacing a user by its patched record keeps the store invariant |
| MemoryStore.InvariantAfterSwipe | ref-backend/src/store.ts:190-196 | appending a swipe between existing users keeps the store invariant |
| MemoryStore.AppendKeepsPairsDistinct | ref-backend/src/store.ts:209-229 | appending a match for a pair no match covers keeps pairs distinct |
| MemoryStore.AppendKeepsMatchIdsDistinct | ref-backend/src/store.ts:224-229 | appending a match with a fresh id keeps match ids distinct |
| MemoryStore.InvariantAfterMatch | ref-backend/src/store.ts:209-229 | appending a well-formed match for a pair with no match, with an empty thread, keeps the store invariant |
| MemoryStore.InvariantAfterMessage | ref-backend/src/store.ts:251-267 | appending a message to an existing thread keeps the store invariant |
| MemoryStore.Store.Seeded | ref-backend/src/store.ts:58-71 | the seed state holds Sophie, Milan and Nora with password `demo123` and nothing else, and is valid |
| MemoryStore.Store.CreateUser | ref-backend/src/store.ts:111-136 | null and no change exactly when an email equal up to case exists; otherwise one user appended, a session token mapped to the new id, the public profile returned, the invariant kept |
| MemoryStore.Store.Login | ref-backend/src/store.ts:138-147 | null and no change exactly when no user has the email (up to case) and password; otherwise a new session for such a user |
| MemoryStore.Store.UpdateUser | ref-backend/src/store.ts:154-168 | null and no change exactly for an unknown id; otherwise only that user's record is replaced by the patched one (present fields overwritten, absent fields kept), count, order and ids unchanged, and `getUser` then returns the result |
| MemoryStore.Store.AddSwipe | ref-backend/src/store.ts:185-232 | error and no change exactly when either user is unknown; otherwise the swipe is appended first; a pass never matches; a like matches exactly when a reverse like exists; an existing match for the pair is returned without growing `matches`; a new match stores the ascending pair and opens an empty thread |
| MemoryStore.Store.FormMatch | ref-backend/src/store.ts:209-231 | returns the stored match including both users if there is one; otherwise appends a match over the sorted pair with an empty thread |
| MemoryStore.Store.AddMessage | ref-backend/src/store.ts:251-270 | null and no change exactly for a match without a thread; otherwise the message is appended at the end of that thread and every other thread is unchanged |
| AppContext.IsProfileComplete | ref-demo/context/AppContext.tsx:83-85 | complete exactly when a status is set and the name has a non-whitespace character |
| AppContext.ToUser | ref-demo/context/AppContext.tsx:74-81 | id, name, bio and age are copied, the status becomes present, and a missing photo becomes "" |
| AppContext.ApiUserOnboarded | ref-demo/context/AppContext.tsx:74-85 | a profile from the API is complete exactly when its name has a non-whitespace character |
| AppContext.FindMatch | ref-demo/context/AppContext.tsx:388 | an entry with that id; none exactly when no entry has it |
| AppContext.SetMatchStatus | ref-demo/context/AppContext.tsx:391-395 | same length; entries with that id get the new status and nothing else changes |
| AppContext.SetMatchStatusOverrides | ref-demo/context/AppContext.tsx:429-437 | setting a status twice equals setting the later one, so a pass after a like leaves the entry passed |
| AppContext.ConfirmMatch | ref-demo/context/AppContext.tsx:410-421 | same length; the liked entry takes the server's id and status `matched`; every other entry unchanged |
| AppContext.ConfirmOverridesLike | ref-demo/context/AppContext.tsx:391-421 | confirming after the optimistic like gives the same list as confirming without it |
| AppContext.ConfirmedMatches | ref-demo/context/AppContext.tsx:280-286 | one `matched` entry per confirmed match, with its id, date and the other user |
| AppContext.PendingMatches | ref-demo/context/AppContext.tsx:272-278 | one `pending` entry per discovery profile, with id `"discovery-" + userId` |
| AppContext.MergeMatches | ref-demo/context/AppContext.tsx:264-289 | the list is unchanged when both requests failed; otherwise all confirmed entries, then all discovery entries |
| AppContext.MergeFetched | ref-demo/context/AppContext.tsx:272-288 | position by position: the confirmed entries in order, then one pending entry per discovery profile |
| AppContext.ConfirmedBeforePending | ref-demo/context/AppContext.tsx:288 | after a sync with an answer, no `matched` entry follows a `pending` one |
| AppContext.FindRequest | ref-demo/context/AppContext.tsx:464 | the first request with that id; none exactly when no request has it |
| AppContext.SetRequestStatus | ref-demo/context/AppContext.tsx:474-486 | same length; requests with that id get the new status and nothing else changes |
| AppContext.NewFriend | ref-demo/context/AppContext.tsx:467-471 | the new friend is the sender, not invited by anyone, with the given mutual count and no friends listed |
| AppContext.AcceptedFriendAddsNoRecords | ref-demo/context/AppContext.tsx:467-473 | an accepted friend brings no friend-of-friend records, so the suggestion input is unchanged |
| AppContext.AcceptedSenderIsFriend | ref-demo/context/AppContext.tsx:463-479 | after accepting, the sender is a friend and the request with that id is `accepted` |
| AppContext.AreFriends | ref-demo/context/AppContext.tsx:489-490 | holds exactly when some friend has that id |
| AppContext.IsRequestPending | ref-demo/context/AppContext.tsx:492-495 | holds exactly when some outgoing request to that id is `pending` |
| AppContext.ExcludedIds | ref-demo/context/AppContext.tsx:503-513 | an id is excluded exactly when it is a friend's, a pending incoming request's sender's or a pending outgoing request's target's |
| AppContext.FriendsOfFriends | ref-demo/context/AppContext.tsx:517-518 | a user is among the records exactly when some friend lists them |
| AppContext.FriendsOfFriendsStep | ref-demo/context/AppContext.tsx:517-518 | the outer loop appends one friend's list at a time |
| AppContext.CountId | ref-demo/context/AppContext.tsx:517-518 | at most the number of records, and zero exactly when no record carries the id |
| AppContext.CountIdSnoc | ref-demo/context/AppContext.tsx:517-535 | one more record adds one to the count of its own id only |
| AppContext.Visit | ref-demo/context/AppContext.tsx:519-534 | a skipped record changes nothing; a counted id keeps its entry and its first record, only the count goes up by one and nothing is added; a new id is appended with this record and count 1; no other entry changes |
| AppContext.EntryIndex | ref-demo/context/AppContext.tsx:529 | the entry of the local map for that id; none exactly when the id is not counted yet |
| AppContext.FirstRecord | ref-demo/context/AppContext.tsx:529-533 | the position of the first record with that id, none earlier; none exactly when no record has it |
| AppContext.FirstRecordSnoc | ref-demo/context/AppContext.tsx:529-533 | appending a record moves no id's first occurrence, and a new id first occurs at the appended record |
| AppContext.TallyFactsHold | ref-demo/context/AppContext.tsx:515-536 | the local map has one entry per counted id, never a skipped id, each with the number of records carrying that id and holding the first record seen with that id; every record that is not skipped has an entry |
| AppContext.VisitKeepsTallyFacts | ref-demo/context/AppContext.tsx:517-535 | visiting one more record keeps ids distinct, counts exact, every unskipped record covered and each entry's first record |
| AppContext.VisitKeepsFirstRecords | ref-demo/context/AppContext.tsx:529-533 | after a visit every entry still holds the first record seen with its id |
| AppContext.VisitKeepsDistinct | ref-demo/context/AppContext.tsx:519-534 | visiting a record never gives two entries the same id |
| AppContext.VisitKeepsCounts | ref-demo/context/AppContext.tsx:519-534 | after a visit each entry holds the count of its id in the longer record list |
| AppContext.VisitKeepsCoverage | ref-demo/context/AppContext.tsx:519-534 | after a visit every unskipped record of the longer list has an entry |
| AppContext.TallySnoc | ref-demo/context/AppContext.tsx:517-535 | visiting one more record is one step of the tally |
| AppContext.TallyWithoutUser | ref-demo/context/AppContext.tsx:519-520 | without a current user every record is skipped |
| AppContext.Insert | ref-demo/context/AppContext.tsx:540 | insertion adds exactly the one element |
| AppContext.InsertSorted | ref-demo/context/AppContext.tsx:540 | insertion keeps the list sorted by non-increasing count |
| AppContext.SortByCount | ref-demo/context/AppContext.tsx:540 | the result is a permutation sorted by non-increasing count |
| AppContext.Qualifying | ref-demo/context/AppContext.tsx:539 | exactly the entries with count at least 2, in their order (a subsequence of the entries), with ids distinct when the entries' are |
| AppContext.TailIdsDiffer | ref-demo/context/AppContext.tsx:539 | entries drawn from the tail of a list with distinct ids never share the head's id |
| AppContext.InsertDistinct | ref-demo/context/AppContext.tsx:540 | inserting an entry with a new id keeps the ids distinct |
| AppContext.SortDistinct | ref-demo/context/AppContext.tsx:540 | sorting keeps the ids distinct |
| AppContext.Top | ref-demo/context/AppContext.tsx:541 | a prefix of at most 25 entries; the whole list when shorter |
| AppContext.ToSuggestion | ref-demo/context/AppContext.tsx:542-545 | a suggestion is the entry's user with its mutual count, not invited by anyone and with no friends listed |
| AppContext.ToSuggestions | ref-demo/context/AppContext.tsx:542-545 | one suggestion per entry carrying its count |
| AppContext.Rank | ref-demo/context/AppContext.tsx:538-545 | at most 25 suggestions by non-increasing count, each from an entry with count at least 2; a qualifying entry is left out only when 25 suggestions with no smaller count are kept; no user is suggested twice when the entries' ids are distinct |
| AppContext.SortedHoldsQualifying | ref-demo/context/AppContext.tsx:539-540 | sorting the qualifying entries loses none of them |
| AppContext.RankDistinct | ref-demo/context/AppContext.tsx:538-545 | entries with distinct ids give suggestions with distinct ids |
| AppContext.TopDistinct | ref-demo/context/AppContext.tsx:541-545 | the first 25 of a list with distinct ids become suggestions with distinct ids |
| AppContext.RankSound | ref-demo/context/AppContext.tsx:538-545 | every suggestion comes from an entry with count at least 2 |
| AppContext.RankedNotSkipped | ref-demo/context/AppContext.tsx:519-545 | no ranked suggestion has a skipped id |
| AppContext.RankComplete | ref-demo/context/AppContext.tsx:538-545 | from a list sorted by count that holds every qualifying entry, every qualifying entry is suggested, or 25 suggestions with no smaller count are |
| AppContext.CountRecord | ref-demo/context/AppContext.tsx:518-535 | one record skipped, counted again or inserted with count 1, as one step of the tally |
| AppContext.CountFriendOfFriends | ref-demo/context/AppContext.tsx:517-535 | the inner loop over one friend's list extends the tally by exactly that list |
| AppContext.SuggestedFriends | ref-demo/context/AppContext.tsx:500-546 | the nested loops compute exactly `Suggestions` |
| AppContext.SuggestionsRanked | ref-demo/context/AppContext.tsx:501-541 | empty with fewer than three friends or without a current user; otherwise at most 25, by non-increasing mutual count |
| AppContext.SuggestionsExcluded | ref-demo/context/AppContext.tsx:503-527 | never the current user, an existing friend, the sender of a pending incoming request or the target of a pending outgoing request |
| AppContext.SuggestionsDistinct | ref-demo/context/AppContext.tsx:515-545 | no user is suggested twice, because the local map has one entry per id |
| AppContext.RankedCounts | ref-demo/context/AppContext.tsx:538-545 | ranking a map with exact counts gives suggestions with exact counts of at least 2 |
| AppContext.RankedFirstRecords | ref-demo/context/AppContext.tsx:538-545 | ranking a map whose entries hold first records shows those records |
| AppContext.SuggestionsShowFirstRecord | ref-demo/context/AppContext.tsx:529-545 | each suggestion shows the first friend-of-friend record seen with its id; later records only raise the count |
| AppContext.SuggestionsCounted | ref-demo/context/AppContext.tsx:515-545 | each mutual count is the number of occurrences of the id among all friends' friends, and at least 2 |
| AppContext.SuggestionsComplete | ref-demo/context/AppContext.tsx:538-541 | a non-excluded friend-of-friend seen at least twice is suggested, unless 25 suggestions with no smaller count are |
| AppContext.AppState.constructor | ref-demo/context/AppContext.tsx:88-96 | no current user and empty lists |
| AppContext.AppState.LikeMatch | ref-demo/context/AppContext.tsx:387-395 | no change without a current user or an entry with that id; otherwise only that entry becomes `liked`; the other lists are untouched |
| AppContext.AppState.OnLikeAnswered | ref-demo/context/AppContext.tsx:410-425 | a server match confirms the liked entry; no match leaves the list for the next sync |
| AppContext.AppState.PassMatch | ref-demo/context/AppContext.tsx:429-437 | no change without a current user or an entry with that id; otherwise only that entry becomes `passed` |
| AppContext.AppState.AcceptFriendRequest | ref-demo/context/AppContext.tsx:463-479 | no change for an unknown id; otherwise exactly one friend (the sender, with no friends listed) is appended and that request becomes `accepted` |
| AppContext.AppState.DeclineFriendRequest | ref-demo/context/AppContext.tsx:481-487 | only requests with that id become `declined` |
| AppContext.AppState.SyncDiscoveryAndMatches | ref-demo/context/AppContext.tsx:264-289 | the match list becomes the merge of the two answers; the other lists are untouched |

## Left out

- File persistence of the store (`loadState`, `saveState`, the data file and its reset, `ref-backend/src/store.ts:73-108`) is file I/O. The model starts from the seeded state (`Store.Seeded`). Every write is a pure state change.
- Id, token and timestamp generation (`Date.now`, `Math.random`, `new Date()`) is nondeterministic. These values are parameters. Fresh user and match ids carry a freshness precondition. Message ids and tokens are arbitrary.
- `ref-backend/src/store-supabase.ts` is not part of this model. Its outcomes depend on the database client's semantics.
- `ref-backend/src/server.ts` is not part of this model: routing, status codes and request validation. Its bounds (message text length, bio length, age range) are not preconditions here, because the store itself does not check them.
- The screens, layout, colours and mock data of the client are not part of this model.
- In the client, `apiRequest` with its timeout, `AsyncStorage`, the async tasks and React hooks are left out. The network answers are inputs to `OnLikeAnswered` and `SyncDiscoveryAndMatches`. The like request itself and the re-sync after a like without a match are not modelled.
- Concurrency: the store is single-threaded. Interleavings of the client's async tasks are not modelled.
- JsText.Lower: only ASCII letters are mapped. Unicode case mapping of non-ASCII characters is not modelled, so emails differing only in non-ASCII case count as different.
- MemoryStore.ApplyPatch: a patch field explicitly set to `undefined` would overwrite the stored value. In the model an absent field keeps it.
- MemoryStore.GetMessages: the thread table is a plain JavaScript object, so a key such as `constructor` or `__proto__` reads an inherited property instead of `undefined`. The model's map has only the match ids as keys. Generated match ids never take such a name.
- MemoryStore.Store.AddMessage: for the same reason, a key inherited from `Object.prototype` would count as an existing thread in the source. The model does not capture that case.
- MemoryStore.SeedUsers: each seeded user and the write around it call `new Date()` separately, so their creation times can differ. The model uses one `now` for all three. The same holds for the pending entries of `PendingMatches`.
- MemoryStore.FindMatch: the source also checks that a match has exactly two users. Every match in the model has exactly two ids, so that check always holds and is not written.
- AppContext.AppState.AcceptFriendRequest: the mutual-friend count comes from `randomInt(1, 5)`. Here it is an unconstrained parameter.
- AppContext.AppState.LikeMatch: the source looks the entry up in the rendered list and updates the latest state. The model uses one list for both, so a stale closure is not modelled. The same holds for `PassMatch`.
- AppContext.SortByCount: the insertion sort is stable like the engine's sort, so equal counts keep first-seen order. That stability is not stated as a lemma.
- AppContext.Friend: a friend wraps a `User` instead of extending it. A missing `friendsOfFriend` is the empty list. Dates are opaque strings.
- Ages are JavaScript numbers, that is floating point. The model uses unbounded integers and does no arithmetic on them.
- AppContext.User: the status is optional because `isProfileComplete` tests that it is present.
