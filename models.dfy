/**
  The persistence model and the read-only queries of models.py.

  The three tables are sequences of records in insertion (primary key)
  order: users, swipes and messages.  Every query below is a function of
  those sequences.
 */
module Models {
  import opened Wrappers

  type UserId = int

  /** A timestamp, supplied by the caller instead of read from a clock. */
  type Timestamp = int

  /** A user row, reduced to the columns the matching core reads. */
  datatype User = User(
    id: UserId,
    username: string,
    age: Option<int>,
    gender: Option<string>,
    location: Option<string>)

  /** A directed like/pass decision from `actor` to `target`. */
  datatype Swipe = Swipe(actor: UserId, target: UserId, isLike: bool, createdAt: Timestamp)

  /** A directed text message. */
  datatype Message = Message(sender: UserId, receiver: UserId, body: string, createdAt: Timestamp)

  // ---------------------------------------------------------------------
  // Store invariants
  // ---------------------------------------------------------------------

  /** Users are kept in strictly ascending id order, so ids are unique. */
  predicate IdsAscending(users: seq<User>) {
    forall i, j :: 0 <= i < j < |users| ==> users[i].id < users[j].id
  }

  /** No swipe has the same user as actor and target. */
  predicate NoSelfSwipes(swipes: seq<Swipe>) {
    forall k :: 0 <= k < |swipes| ==> swipes[k].actor != swipes[k].target
  }

  /** At most one swipe per ordered (actor, target) pair. */
  predicate OneSwipePerPair(swipes: seq<Swipe>) {
    forall i, j :: 0 <= i < j < |swipes| ==>
      swipes[i].actor != swipes[j].actor || swipes[i].target != swipes[j].target
  }

  // ---------------------------------------------------------------------
  // Lookups
  // ---------------------------------------------------------------------

  /** Is there a user with this id? */
  predicate HasUser(users: seq<User>, id: UserId) {
    exists k :: 0 <= k < |users| && users[k].id == id
  }

  /** `User.query.get(id)`: the user with this id, if any. */
  function FindUser(users: seq<User>, id: UserId): (r: Option<User>)
    ensures r.None? <==> !HasUser(users, id)
    ensures r.Some? ==> r.value in users && r.value.id == id
  {
    if users == [] then None
    else if users[0].id == id then Some(users[0])
    else FindUser(users[1..], id)
  }

  /** The filter of `Swipe.query.filter_by(user_id=actor, target_id=target[, is_like=True])`. */
  predicate Selects(w: Swipe, actor: UserId, target: UserId, likesOnly: bool) {
    w.actor == actor && w.target == target && (likesOnly ==> w.isLike)
  }

  /** Some swipe from `actor` to `target` exists (a like one, when `likesOnly`). */
  predicate HasSwipe(swipes: seq<Swipe>, actor: UserId, target: UserId, likesOnly: bool) {
    exists k :: 0 <= k < |swipes| && Selects(swipes[k], actor, target, likesOnly)
  }

  /** `Swipe.query.filter_by(...).first()`: the first selected swipe, if any. */
  function FindSwipe(swipes: seq<Swipe>, actor: UserId, target: UserId, likesOnly: bool): (r: Option<Swipe>)
    ensures r.None? <==> !HasSwipe(swipes, actor, target, likesOnly)
    ensures r.Some? ==> r.value in swipes && Selects(r.value, actor, target, likesOnly)
  {
    if swipes == [] then None
    else if Selects(swipes[0], actor, target, likesOnly) then Some(swipes[0])
    else
      var r := FindSwipe(swipes[1..], actor, target, likesOnly);
      assert r.None? ==> !HasSwipe(swipes, actor, target, likesOnly) by {
        if r.None? {
          forall k | 0 <= k < |swipes| ensures !Selects(swipes[k], actor, target, likesOnly) {
            if k > 0 { assert swipes[k] == swipes[1..][k - 1]; }
          }
        }
      }
      assert r.Some? ==> HasSwipe(swipes, actor, target, likesOnly) by {
        if r.Some? {
          var k :| 0 <= k < |swipes[1..]| && Selects(swipes[1..][k], actor, target, likesOnly);
          assert swipes[k + 1] == swipes[1..][k];
        }
      }
      r
  }

  /** The targets of `actor`'s swipes (its like swipes only, when `likesOnly`), in store order. */
  function Targets(swipes: seq<Swipe>, actor: UserId, likesOnly: bool): (r: seq<UserId>)
    ensures forall t :: t in r <==> HasSwipe(swipes, actor, t, likesOnly)
  {
    if swipes == [] then []
    else
      var w := swipes[0];
      var rest := Targets(swipes[1..], actor, likesOnly);
      var r := (if Selects(w, actor, w.target, likesOnly) then [w.target] else []) + rest;
      assert forall t :: HasSwipe(swipes, actor, t, likesOnly) <==>
          Selects(w, actor, t, likesOnly) || HasSwipe(swipes[1..], actor, t, likesOnly) by {
        forall t ensures HasSwipe(swipes, actor, t, likesOnly) ==>
            Selects(w, actor, t, likesOnly) || HasSwipe(swipes[1..], actor, t, likesOnly) {
          if HasSwipe(swipes, actor, t, likesOnly) && !Selects(w, actor, t, likesOnly) {
            var k :| 0 <= k < |swipes| && Selects(swipes[k], actor, t, likesOnly);
            assert swipes[1..][k - 1] == swipes[k];
          }
        }
        forall t ensures HasSwipe(swipes[1..], actor, t, likesOnly) ==> HasSwipe(swipes, actor, t, likesOnly) {
          if HasSwipe(swipes[1..], actor, t, likesOnly) {
            var k :| 0 <= k < |swipes[1..]| && Selects(swipes[1..][k], actor, t, likesOnly);
            assert swipes[k + 1] == swipes[1..][k];
          }
        }
      }
      r
  }

  // ---------------------------------------------------------------------
  // Matching
  // ---------------------------------------------------------------------

  /** `is_match`: both like lookups find a row. */
  function IsMatch(swipes: seq<Swipe>, a: UserId, b: UserId): (r: bool)
    ensures r <==> HasSwipe(swipes, a, b, true) && HasSwipe(swipes, b, a, true)
  {
    var likeAB := FindSwipe(swipes, a, b, true);
    var likeBA := FindSwipe(swipes, b, a, true);
    likeAB.Some? && likeBA.Some?
  }

  /** A match is symmetric. */
  lemma IsMatchSymmetric(swipes: seq<Swipe>, a: UserId, b: UserId)
    ensures IsMatch(swipes, a, b) == IsMatch(swipes, b, a)
  {
  }

  /** Appending pass swipes, in any number, never creates nor removes a match. */
  lemma {:induction false} PassesDoNotAffectMatch(swipes: seq<Swipe>, passes: seq<Swipe>, a: UserId, b: UserId)
    requires forall k :: 0 <= k < |passes| ==> !passes[k].isLike
    ensures IsMatch(swipes + passes, a, b) == IsMatch(swipes, a, b)
  {
    LikesUnaffectedByPasses(swipes, passes, a, b);
    LikesUnaffectedByPasses(swipes, passes, b, a);
  }

  lemma LikesUnaffectedByPasses(swipes: seq<Swipe>, passes: seq<Swipe>, a: UserId, b: UserId)
    requires forall k :: 0 <= k < |passes| ==> !passes[k].isLike
    ensures HasSwipe(swipes + passes, a, b, true) == HasSwipe(swipes, a, b, true)
  {
    var all := swipes + passes;
    if HasSwipe(all, a, b, true) {
      var k :| 0 <= k < |all| && Selects(all[k], a, b, true);
      assert all[k] == swipes[k];
    }
    if HasSwipe(swipes, a, b, true) {
      var k :| 0 <= k < |swipes| && Selects(swipes[k], a, b, true);
      assert all[k] == swipes[k];
    }
  }

  /** The filter of `get_matches` over the user join, for the given list of liked ids. */
  function MutualLikes(users: seq<User>, swipes: seq<Swipe>, u: UserId, likeIds: seq<UserId>): (r: seq<User>)
    ensures forall x :: x in r <==> x in users && x.id in likeIds && HasSwipe(swipes, x.id, u, true)
    ensures |r| <= |users|
  {
    if users == [] then []
    else
      var x := users[0];
      var keep := x.id in likeIds && FindSwipe(swipes, x.id, u, true).Some?;
      var rest := MutualLikes(users[1..], swipes, u, likeIds);
      assert forall y :: y in users <==> y == x || y in users[1..];
      (if keep then [x] else []) + rest
  }

  /** `User.get_matches(u)`: the users that `u` liked and that liked `u`, in store order. */
  function GetMatches(users: seq<User>, swipes: seq<Swipe>, u: UserId): (r: seq<User>)
    ensures forall x :: x in r <==> x in users && IsMatch(swipes, u, x.id)
    ensures |r| <= |users|
  {
    var likeIds := Targets(swipes, u, true);
    MutualLikes(users, swipes, u, likeIds)
  }

  /** When no self swipe is stored, no user is listed among its own matches. */
  lemma GetMatchesExcludesSelf(users: seq<User>, swipes: seq<Swipe>, u: UserId)
    requires NoSelfSwipes(swipes)
    ensures forall x :: x in GetMatches(users, swipes, u) ==> x.id != u
  {
  }

  // ---------------------------------------------------------------------
  // Conversations
  // ---------------------------------------------------------------------

  /** The message was exchanged between `a` and `b`, in either direction. */
  predicate Between(m: Message, a: UserId, b: UserId) {
    (m.sender == a && m.receiver == b) || (m.sender == b && m.receiver == a)
  }

  /** The `or_(and_(...), and_(...))` filter of `get_conversation`, in store order. */
  function Exchanged(messages: seq<Message>, a: UserId, b: UserId): (r: seq<Message>)
    ensures forall m :: m in r <==> m in messages && Between(m, a, b)
    ensures forall m :: Between(m, a, b) ==> multiset(r)[m] == multiset(messages)[m]
    ensures |r| <= |messages|
  {
    if messages == [] then []
    else
      var m := messages[0];
      assert messages == [m] + messages[1..];
      (if Between(m, a, b) then [m] else []) + Exchanged(messages[1..], a, b)
  }

  predicate SortedByTime(ms: seq<Message>) {
    forall i, j :: 0 <= i < j < |ms| ==> ms[i].createdAt <= ms[j].createdAt
  }

  /** Inserts `m` into a time-sorted sequence, ahead of the messages of equal time. */
  function InsertByTime(m: Message, ms: seq<Message>): (r: seq<Message>)
    requires SortedByTime(ms)
    ensures SortedByTime(r)
    ensures multiset(r) == multiset(ms) + multiset{m}
  {
    if ms == [] || m.createdAt <= ms[0].createdAt then [m] + ms
    else
      var rest := InsertByTime(m, ms[1..]);
      InsertBehindHead(m, ms, rest);
      [ms[0]] + rest
  }

  /** Putting back the head of a sorted sequence in front of the insertion into its tail. */
  lemma InsertBehindHead(m: Message, ms: seq<Message>, rest: seq<Message>)
    requires SortedByTime(ms) && ms != [] && ms[0].createdAt < m.createdAt
    requires SortedByTime(rest) && multiset(rest) == multiset(ms[1..]) + multiset{m}
    ensures SortedByTime([ms[0]] + rest)
    ensures multiset([ms[0]] + rest) == multiset(ms) + multiset{m}
  {
    assert ms == [ms[0]] + ms[1..];
    forall k | 0 <= k < |rest| ensures ms[0].createdAt <= rest[k].createdAt {
      assert rest[k] in multiset(rest);
      if rest[k] != m {
        assert rest[k] in multiset(ms[1..]);
        assert rest[k] in ms;
      }
    }
    var r := [ms[0]] + rest;
    forall i, j | 0 <= i < j < |r| ensures r[i].createdAt <= r[j].createdAt {
      if i > 0 { assert r[i] == rest[i - 1] && r[j] == rest[j - 1]; }
      else { assert r[j] == rest[j - 1]; }
    }
  }

  /** `.order_by(Message.created_at.asc())`: a stable insertion sort on the timestamp. */
  function SortByTime(ms: seq<Message>): (r: seq<Message>)
    ensures SortedByTime(r)
    ensures multiset(r) == multiset(ms)
  {
    if ms == [] then []
    else
      assert ms == [ms[0]] + ms[1..];
      InsertByTime(ms[0], SortByTime(ms[1..]))
  }

  /** `Message.get_conversation(a, b)`. */
  function GetConversation(messages: seq<Message>, a: UserId, b: UserId): (r: seq<Message>)
    ensures SortedByTime(r)
  {
    SortByTime(Exchanged(messages, a, b))
  }

  /** The conversation holds every message between the two users, each as often as it is
      stored, and no other message. */
  lemma GetConversationExact(messages: seq<Message>, a: UserId, b: UserId)
    ensures forall m :: m in GetConversation(messages, a, b) <==> m in messages && Between(m, a, b)
    ensures forall m :: Between(m, a, b) ==>
      multiset(GetConversation(messages, a, b))[m] == multiset(messages)[m]
    ensures |GetConversation(messages, a, b)| <= |messages|
  {
  }

  /** Both orders of the two users give the same conversation. */
  lemma {:induction false} ExchangedSymmetric(messages: seq<Message>, a: UserId, b: UserId)
    ensures Exchanged(messages, a, b) == Exchanged(messages, b, a)
  {
    if messages != [] {
      ExchangedSymmetric(messages[1..], a, b);
    }
  }

  lemma GetConversationSymmetric(messages: seq<Message>, a: UserId, b: UserId)
    ensures GetConversation(messages, a, b) == GetConversation(messages, b, a)
  {
    ExchangedSymmetric(messages, a, b);
  }

  // ---------------------------------------------------------------------
  // Recording a swipe (the query-before-insert of `like` and `pass_user`)
  // ---------------------------------------------------------------------

  /** The swipe table after recording a decision: unchanged when the pair already has a swipe,
      otherwise extended by exactly the new swipe. */
  function AfterSwipe(swipes: seq<Swipe>, actor: UserId, target: UserId, isLike: bool, now: Timestamp): (r: seq<Swipe>)
    ensures HasSwipe(swipes, actor, target, false) ==> r == swipes
    ensures !HasSwipe(swipes, actor, target, false) ==> r == swipes + [Swipe(actor, target, isLike, now)]
  {
    var existing := FindSwipe(swipes, actor, target, false);
    if existing.None? then swipes + [Swipe(actor, target, isLike, now)] else swipes
  }

  /** Recording keeps at most one swipe per pair, and no self swipe when the actor is not the target. */
  lemma AfterSwipeKeepsInvariant(swipes: seq<Swipe>, actor: UserId, target: UserId, isLike: bool, now: Timestamp)
    requires OneSwipePerPair(swipes) && NoSelfSwipes(swipes)
    requires actor != target
    ensures OneSwipePerPair(AfterSwipe(swipes, actor, target, isLike, now))
    ensures NoSelfSwipes(AfterSwipe(swipes, actor, target, isLike, now))
  {
  }

  /** First decision wins: once a pair has a swipe, a later decision for it changes nothing. */
  lemma FirstDecisionWins(swipes: seq<Swipe>, actor: UserId, target: UserId,
                          first: bool, later: bool, t1: Timestamp, t2: Timestamp)
    ensures var once := AfterSwipe(swipes, actor, target, first, t1);
      AfterSwipe(once, actor, target, later, t2) == once
  {
    var once := AfterSwipe(swipes, actor, target, first, t1);
    if once != swipes {
      assert Selects(once[|swipes|], actor, target, false);
    }
  }

  /** Two fresh likes make a match; a fresh pass from either side prevents it. */
  lemma {:induction false} MutualDecisions(swipes: seq<Swipe>, a: UserId, b: UserId,
                                           ab: bool, ba: bool, t1: Timestamp, t2: Timestamp)
    requires a != b
    requires !HasSwipe(swipes, a, b, false) && !HasSwipe(swipes, b, a, false)
    ensures var after := AfterSwipe(AfterSwipe(swipes, a, b, ab, t1), b, a, ba, t2);
      IsMatch(after, a, b) <==> ab && ba
  {
    var s1 := AfterSwipe(swipes, a, b, ab, t1);
    assert s1 == swipes + [Swipe(a, b, ab, t1)];
    assert !HasSwipe(s1, b, a, false);
    var s2 := AfterSwipe(s1, b, a, ba, t2);
    assert s2 == swipes + [Swipe(a, b, ab, t1), Swipe(b, a, ba, t2)];
    if ab {
      assert Selects(s2[|swipes|], a, b, true);
    }
    if ba {
      assert Selects(s2[|swipes| + 1], b, a, true);
    }
    if HasSwipe(s2, a, b, true) {
      var k :| 0 <= k < |s2| && Selects(s2[k], a, b, true);
      assert k == |swipes| && ab;
    }
    if HasSwipe(s2, b, a, true) {
      var k :| 0 <= k < |s2| && Selects(s2[k], b, a, true);
      assert k == |swipes| + 1 && ba;
    }
  }
}
