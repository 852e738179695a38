/**
  The state-changing routes of app.py over one store of users, swipes and
  messages: `like`, `pass_user` and `chat`.  Requests are handled one at a
  time; the logged-in user (`current_user`) is an explicit parameter `me`.
 */
module App {
  import opened Wrappers
  import opened Models
  import opened Discovery

  /** What the `like` route does: ignore a self-like, answer not-found, or record the like and
      report whether the two users now match (the "It's a match" flash). */
  datatype LikeOutcome = SelfIgnored | TargetNotFound | Liked(matched: bool)

  /** What the `chat` route does: answer not-found, refuse without a match, store a sent
      message, or show the conversation. */
  datatype ChatOutcome = ChatNotFound | NotMatched | Sent | Shown(conversation: seq<Message>)

  /** `Length(max=1000)` on the message body. */
  const MaxBodyLength := 1000

  /** The ASCII characters Python's `str.strip()` removes. */
  predicate IsSpace(c: char) {
    c == ' ' || 9 <= c as int <= 13 || 28 <= c as int <= 31
  }

  /** `not s.strip()`: nothing is left once the blanks are stripped, that is, every character
      is a blank. */
  function Blank(s: string): (r: bool)
    ensures r <==> forall k :: 0 <= k < |s| ==> IsSpace(s[k])
  {
    if s == [] then true
    else
      assert forall k :: 1 <= k < |s| ==> s[k] == s[1..][k - 1];
      IsSpace(s[0]) && Blank(s[1..])
  }

  /** The validators of the message form: `DataRequired()`, which refuses an empty or blank
      body, and `Length(max=1000)`. */
  function ValidBody(body: string): (ok: bool)
    ensures ok <==> (exists k :: 0 <= k < |body| && !IsSpace(body[k])) && |body| <= MaxBodyLength
  {
    !Blank(body) && |body| <= MaxBodyLength
  }

  class Store {
    var users: seq<User>
    var swipes: seq<Swipe>
    var messages: seq<Message>

    /** The store invariant: ids ascend, and the swipe table holds no self swipe and at most
        one swipe per (actor, target) pair. */
    ghost predicate Valid()
      reads this
    {
      IdsAscending(users) && NoSelfSwipes(swipes) && OneSwipePerPair(swipes)
    }

    /** A store with the given registered users and no swipe or message yet. */
    constructor (registered: seq<User>)
      requires IdsAscending(registered)
      ensures Valid()
      ensures users == registered && swipes == [] && messages == []
    {
      users := registered;
      swipes := [];
      messages := [];
    }

    /** The query-before-insert shared by `like` and `pass_user`: insert the swipe only when
        the pair has none, so the first decision stands. */
    method RecordSwipe(actor: UserId, target: UserId, isLike: bool, now: Timestamp)
      requires Valid() && actor != target
      modifies this
      ensures Valid()
      ensures users == old(users) && messages == old(messages)
      ensures HasSwipe(old(swipes), actor, target, false) ==> swipes == old(swipes)
      ensures !HasSwipe(old(swipes), actor, target, false) ==>
        swipes == old(swipes) + [Swipe(actor, target, isLike, now)]
      ensures swipes == AfterSwipe(old(swipes), actor, target, isLike, now)
    {
      AfterSwipeKeepsInvariant(swipes, actor, target, isLike, now);
      var existing := FindSwipe(swipes, actor, target, false);
      if existing.None? {
        swipes := swipes + [Swipe(actor, target, isLike, now)];
      }
    }

    /** The `like` route. */
    method Like(me: UserId, target: UserId, now: Timestamp) returns (r: LikeOutcome)
      requires Valid() && HasUser(users, me)
      modifies this
      ensures Valid()
      ensures users == old(users) && messages == old(messages)
      ensures target == me ==> r == SelfIgnored && swipes == old(swipes)
      ensures target != me && !HasUser(users, target) ==> r == TargetNotFound && swipes == old(swipes)
      ensures target != me && HasUser(users, target) ==>
        && swipes == AfterSwipe(old(swipes), me, target, true, now)
        && r == Liked(IsMatch(swipes, me, target))
    {
      if target == me {
        return SelfIgnored;
      }
      var found := FindUser(users, target);
      if found.None? {
        return TargetNotFound;
      }
      RecordSwipe(me, target, true, now);
      r := Liked(IsMatch(swipes, me, target));
    }

    /** The `pass_user` route; unlike `like`, it does not look the target up first. */
    method PassUser(me: UserId, target: UserId, now: Timestamp)
      requires Valid() && HasUser(users, me)
      modifies this
      ensures Valid()
      ensures users == old(users) && messages == old(messages)
      ensures target == me ==> swipes == old(swipes)
      ensures target != me ==> swipes == AfterSwipe(old(swipes), me, target, false, now)
    {
      if target != me {
        RecordSwipe(me, target, false, now);
      }
    }

    /** The `chat` route. `submitted` says whether the request is a form POST; only a POST
        with a valid body appends, and only between matched users. */
    method Chat(me: UserId, other: UserId, submitted: bool, body: string, now: Timestamp)
      returns (r: ChatOutcome)
      requires Valid() && HasUser(users, me)
      modifies this
      ensures Valid()
      ensures users == old(users) && swipes == old(swipes)
      ensures !HasUser(users, other) ==> r == ChatNotFound
      ensures HasUser(users, other) && !IsMatch(swipes, me, other) ==> r == NotMatched
      ensures r == Sent <==> HasUser(users, other) && IsMatch(swipes, me, other) && submitted && ValidBody(body)
      ensures r == Sent ==> messages == old(messages) + [Message(me, other, body, now)]
      ensures r != Sent ==> messages == old(messages)
      ensures other == me ==> r != Sent
      ensures HasUser(users, other) && IsMatch(swipes, me, other) && !(submitted && ValidBody(body)) ==>
        r == Shown(GetConversation(messages, me, other))
    {
      var found := FindUser(users, other);
      if found.None? {
        return ChatNotFound;
      }
      if !IsMatch(swipes, me, found.value.id) {
        return NotMatched;
      }
      if submitted && ValidBody(body) {
        messages := messages + [Message(me, found.value.id, body, now)];
        return Sent;
      }
      r := Shown(GetConversation(messages, me, found.value.id));
    }
  }

  /** Before any swipe, a user looking for men is shown the first stored man. */
  method DiscoverScenario() {
    var a := User(1, "ann", Some(25), Some("f"), None);
    var b := User(2, "bob", Some(30), Some("m"), None);
    var store := new Store([a, b]);
    var lookingForMen := Filters("m", None, None, "");
    assert !Qualifies(store.swipes, 1, lookingForMen, store.users[0]);
    assert Qualifies(store.swipes, 1, lookingForMen, store.users[1]);
    assert Candidate(store.users, store.swipes, 1, lookingForMen) == Some(b);
  }

  /** The walk-through of two users who like each other. */
  method MatchScenario() returns (store: Store)
    ensures fresh(store) && store.Valid()
    ensures store.users == [User(1, "ann", Some(25), Some("f"), None), User(2, "bob", Some(30), Some("m"), None)]
    ensures store.swipes == [Swipe(1, 2, true, 100), Swipe(2, 1, true, 101)]
    ensures store.messages == []
  {
    var a := User(1, "ann", Some(25), Some("f"), None);
    var b := User(2, "bob", Some(30), Some("m"), None);
    store := new Store([a, b]);
    assert store.users[0].id == 1 && store.users[1].id == 2;
    assert HasUser(store.users, 1) && HasUser(store.users, 2);

    var first := store.Like(1, 2, 100);
    assert store.swipes == [Swipe(1, 2, true, 100)];
    assert first == Liked(false) by {
      assert !HasSwipe(store.swipes, 2, 1, true);
    }
    var second := store.Like(2, 1, 101);
    assert store.swipes == [Swipe(1, 2, true, 100), Swipe(2, 1, true, 101)] by {
      assert !Selects(store.swipes[0], 2, 1, false);
    }
    assert second == Liked(true) by {
      assert Selects(store.swipes[0], 1, 2, true) && Selects(store.swipes[1], 2, 1, true);
    }
  }

  /** After the mutual like, each user is listed among the other's matches. */
  method MatchListScenario() {
    var store := MatchScenario();
    assert IsMatch(store.swipes, 1, 2) && IsMatch(store.swipes, 2, 1) by {
      assert Selects(store.swipes[0], 1, 2, true) && Selects(store.swipes[1], 2, 1, true);
    }
    assert store.users[1] in GetMatches(store.users, store.swipes, 1);
    assert store.users[0] in GetMatches(store.users, store.swipes, 2);
  }

  /** Once matched, the two users can message each other. */
  method MutualLikeScenario() {
    var store := MatchScenario();
    assert HasUser(store.users, 1) by {
      assert store.users[0].id == 1;
    }
    assert IsMatch(store.swipes, 1, 2) by {
      assert Selects(store.swipes[0], 1, 2, true) && Selects(store.swipes[1], 2, 1, true);
    }
    var sent := store.Chat(1, 2, true, "hi", 102);
    assert sent == Sent by {
      assert store.users[1].id == 2;
      assert !IsSpace("hi"[0]);
    }
    assert store.messages == [Message(1, 2, "hi", 102)];
    assert GetConversation(store.messages, 1, 2) == [Message(1, 2, "hi", 102)];
  }

  /** A pass keeps the passed user out of discovery without making a match. */
  method PassScenario() {
    var a := User(1, "ann", Some(25), Some("f"), None);
    var b := User(2, "bob", Some(30), Some("m"), None);
    var store := new Store([a, b]);
    assert store.users[0] == a && HasUser(store.users, 1);
    store.PassUser(1, 2, 100);
    assert Selects(store.swipes[0], 1, 2, false);
    assert Candidate(store.users, store.swipes, 1, NoFilters) == None;
    assert b !in GetMatches(store.users, store.swipes, 1);
  }
}
