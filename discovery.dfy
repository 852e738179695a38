/**
  Candidate selection of the `discover` route in app.py: a query over the
  user table narrowed step by step by optional filters, of which the first
  remaining row is shown.
 */
module Discovery {
  import opened Wrappers
  import opened Models
  import opened SqlLike

  /** The query-string filters. An empty gender or location stands for an absent filter
      (`request.args.get(...) or ''`); an age bound is absent when it is missing or not an integer. */
  datatype Filters = Filters(gender: string, minAge: Option<int>, maxAge: Option<int>, location: string)

  /** No filter at all. */
  const NoFilters := Filters("", None, None, "")

  /** `query.filter(p)`: the rows satisfying `p`, in store order. */
  function Where(users: seq<User>, p: User -> bool): (r: seq<User>)
    ensures forall x :: x in r <==> x in users && p(x)
    ensures |r| <= |users|
  {
    if users == [] then []
    else
      assert forall x :: x in users <==> x == users[0] || x in users[1..];
      (if p(users[0]) then [users[0]] else []) + Where(users[1..], p)
  }

  // The conditions of the pipeline, one per `query.filter(...)`.

  function IdNotIn(ids: seq<UserId>): (p: User -> bool) {
    (u: User) => u.id !in ids
  }

  function GenderIs(g: string): (p: User -> bool) {
    (u: User) => u.gender == Some(g)
  }

  function AgeAtLeast(lo: int): (p: User -> bool) {
    (u: User) => u.age.Some? && u.age.value >= lo
  }

  function AgeAtMost(hi: int): (p: User -> bool) {
    (u: User) => u.age.Some? && u.age.value <= hi
  }

  function LocationLike(loc: string): (p: User -> bool) {
    (u: User) => u.location.Some? && ILike(u.location.value, "%" + loc + "%")
  }

  /** The filter steps of `discover` after the exclusion of `swipedIds`, in program order. */
  function FilterChain(users: seq<User>, swipedIds: seq<UserId>, f: Filters): (r: seq<User>) {
    var q0 := Where(users, IdNotIn(swipedIds));
    var q1 := if f.gender != "" then Where(q0, GenderIs(f.gender)) else q0;
    var q2 := if f.minAge.Some? then Where(q1, AgeAtLeast(f.minAge.value)) else q1;
    var q3 := if f.maxAge.Some? then Where(q2, AgeAtMost(f.maxAge.value)) else q2;
    if f.location != "" then Where(q3, LocationLike(f.location)) else q3
  }

  /** The rows left in `query` after every filter of `discover` has been applied: exactly the
      qualifying users, in store order. */
  function Remaining(users: seq<User>, swipes: seq<Swipe>, me: UserId, f: Filters): (r: seq<User>)
    ensures r == Where(users, Qualifier(swipes, me, f))
  {
    var swipedIds := Targets(swipes, me, false) + [me];
    FilterChainQualifies(users, swipes, me, f, swipedIds);
    FilterChain(users, swipedIds, f)
  }

  /** `query.first()`: the candidate shown on the discover page. It is the first user in store
      order that qualifies; there is none exactly when no user qualifies. */
  function Candidate(users: seq<User>, swipes: seq<Swipe>, me: UserId, f: Filters): (r: Option<User>)
    ensures r.None? <==> forall k :: 0 <= k < |users| ==> !Qualifies(swipes, me, f, users[k])
    ensures r.Some? ==>
      exists k :: 0 <= k < |users| && users[k] == r.value && Qualifies(swipes, me, f, users[k]) &&
        forall j :: 0 <= j < k ==> !Qualifies(swipes, me, f, users[j])
  {
    WhereFirst(users, Qualifier(swipes, me, f));
    var q := Remaining(users, swipes, me, f);
    if q == [] then None else Some(q[0])
  }

  /** What a candidate must be, stated directly: neither `me` nor anyone `me` has swiped
      (like or pass), and passing every supplied filter, a missing column failing it. */
  predicate Qualifies(swipes: seq<Swipe>, me: UserId, f: Filters, u: User) {
    && u.id != me
    && !HasSwipe(swipes, me, u.id, false)
    && (f.gender != "" ==> u.gender.Some? && u.gender.value == f.gender)
    && (f.minAge.Some? ==> u.age.Some? && f.minAge.value <= u.age.value)
    && (f.maxAge.Some? ==> u.age.Some? && u.age.value <= f.maxAge.value)
    && (f.location != "" ==> u.location.Some? && ILike(u.location.value, "%" + f.location + "%"))
  }

  function Qualifier(swipes: seq<Swipe>, me: UserId, f: Filters): (p: User -> bool) {
    (u: User) => Qualifies(swipes, me, f, u)
  }

  // ---------------------------------------------------------------------
  // Facts about Where
  // ---------------------------------------------------------------------

  /** Two filters in a row are one filter by their conjunction. */
  lemma {:induction false} WhereWhere(users: seq<User>, p: User -> bool, q: User -> bool, pq: User -> bool)
    requires forall x :: pq(x) == (p(x) && q(x))
    ensures Where(Where(users, p), q) == Where(users, pq)
  {
    if users != [] {
      WhereWhere(users[1..], p, q, pq);
      var w := Where(users, p);
      if p(users[0]) {
        assert w == [users[0]] + Where(users[1..], p);
        assert w[0] == users[0] && w[1..] == Where(users[1..], p);
      } else {
        assert w == Where(users[1..], p);
      }
    }
  }

  /** One optional `query.filter(...)` step, when applied, conjoins its condition. */
  lemma OptionalStep(users: seq<User>, before: User -> bool, applied: bool, p: User -> bool, after: User -> bool)
    requires forall x :: after(x) == (before(x) && (applied ==> p(x)))
    ensures (if applied then Where(Where(users, before), p) else Where(users, before)) == Where(users, after)
  {
    if applied { WhereWhere(users, before, p, after); } else { WhereSame(users, before, after); }
  }

  /** Filters that agree on every row keep the same rows. */
  lemma {:induction false} WhereSame(users: seq<User>, p: User -> bool, q: User -> bool)
    requires forall x :: p(x) == q(x)
    ensures Where(users, p) == Where(users, q)
  {
    if users != [] {
      WhereSame(users[1..], p, q);
    }
  }

  /** The first row kept by a filter is the first row of the table that satisfies it. */
  lemma {:induction false} WhereFirst(users: seq<User>, p: User -> bool)
    ensures Where(users, p) == [] <==> forall k :: 0 <= k < |users| ==> !p(users[k])
    ensures Where(users, p) != [] ==>
      exists k :: 0 <= k < |users| && users[k] == Where(users, p)[0] && p(users[k]) &&
        forall j :: 0 <= j < k ==> !p(users[j])
  {
    if users != [] {
      WhereFirst(users[1..], p);
      if !p(users[0]) && Where(users[1..], p) != [] {
        var k :| 0 <= k < |users[1..]| && users[1..][k] == Where(users[1..], p)[0] && p(users[1..][k]) &&
          forall j :: 0 <= j < k ==> !p(users[1..][j]);
        assert users[k + 1] == users[1..][k];
        forall j | 0 <= j < k + 1 ensures !p(users[j]) {
          if j > 0 { assert users[j] == users[1..][j - 1]; }
        }
      }
      if Where(users[1..], p) == [] && !p(users[0]) {
        forall k | 0 <= k < |users| ensures !p(users[k]) {
          if k > 0 { assert users[k] == users[1..][k - 1]; }
        }
      }
    }
  }

  // ---------------------------------------------------------------------
  // The pipeline against its reference
  // ---------------------------------------------------------------------

  /** Applied one after the other, the exclusion of the swiped users and the optional steps keep
      exactly the qualifying users, in store order. */
  lemma FilterChainQualifies(users: seq<User>, swipes: seq<Swipe>, me: UserId, f: Filters,
                             swipedIds: seq<UserId>)
    requires swipedIds == Targets(swipes, me, false) + [me]
    ensures FilterChain(users, swipedIds, f) == Where(users, Qualifier(swipes, me, f))
  {
    var lo := if f.minAge.Some? then f.minAge.value else 0;
    var hi := if f.maxAge.Some? then f.maxAge.value else 0;
    var p0 := IdNotIn(swipedIds);
    var p1 := (u: User) => p0(u) && (f.gender != "" ==> GenderIs(f.gender)(u));
    var p2 := (u: User) => p1(u) && (f.minAge.Some? ==> AgeAtLeast(lo)(u));
    var p3 := (u: User) => p2(u) && (f.maxAge.Some? ==> AgeAtMost(hi)(u));
    var p4 := (u: User) => p3(u) && (f.location != "" ==> LocationLike(f.location)(u));

    var q0 := Where(users, p0);
    var q1 := if f.gender != "" then Where(q0, GenderIs(f.gender)) else q0;
    OptionalStep(users, p0, f.gender != "", GenderIs(f.gender), p1);
    assert q1 == Where(users, p1);
    var q2 := if f.minAge.Some? then Where(q1, AgeAtLeast(lo)) else q1;
    OptionalStep(users, p1, f.minAge.Some?, AgeAtLeast(lo), p2);
    assert q2 == Where(users, p2);
    var q3 := if f.maxAge.Some? then Where(q2, AgeAtMost(hi)) else q2;
    OptionalStep(users, p2, f.maxAge.Some?, AgeAtMost(hi), p3);
    assert q3 == Where(users, p3);
    var q4 := if f.location != "" then Where(q3, LocationLike(f.location)) else q3;
    OptionalStep(users, p3, f.location != "", LocationLike(f.location), p4);
    assert q4 == Where(users, p4);
    assert FilterChain(users, swipedIds, f) == q4;

    PipelineConditionQualifies(swipes, me, f, swipedIds, lo, hi, p4);
    WhereSame(users, p4, Qualifier(swipes, me, f));
  }

  /** The conjunction of the pipeline's conditions is the reference predicate. */
  lemma PipelineConditionQualifies(swipes: seq<Swipe>, me: UserId, f: Filters, swipedIds: seq<UserId>,
                                   lo: int, hi: int, p: User -> bool)
    requires swipedIds == Targets(swipes, me, false) + [me]
    requires f.minAge.Some? ==> lo == f.minAge.value
    requires f.maxAge.Some? ==> hi == f.maxAge.value
    requires forall u :: (p(u) == (IdNotIn(swipedIds)(u) &&
                                   (f.gender != "" ==> GenderIs(f.gender)(u)) &&
                                   (f.minAge.Some? ==> AgeAtLeast(lo)(u)) &&
                                   (f.maxAge.Some? ==> AgeAtMost(hi)(u)) &&
                                   (f.location != "" ==> LocationLike(f.location)(u))))
    ensures forall u :: p(u) == Qualifier(swipes, me, f)(u)
  {
  }

  /** The candidate is never the current user nor anyone that user already swiped, like or pass,
      and it satisfies every supplied filter. */
  lemma CandidateRespectsFilters(users: seq<User>, swipes: seq<Swipe>, me: UserId, f: Filters)
    ensures Candidate(users, swipes, me, f).Some? ==>
      var c := Candidate(users, swipes, me, f).value;
      && c in users
      && c.id != me
      && (forall k :: 0 <= k < |swipes| && swipes[k].actor == me ==> swipes[k].target != c.id)
      && (f.gender != "" ==> c.gender == Some(f.gender))
      && (f.minAge.Some? ==> c.age.Some? && f.minAge.value <= c.age.value)
      && (f.maxAge.Some? ==> c.age.Some? && c.age.value <= f.maxAge.value)
      && (f.location != "" ==> c.location.Some? && ILike(c.location.value, "%" + f.location + "%"))
  {
  }

  /** A location filter free of `%` and `_` is a case-insensitive substring test. */
  lemma CandidateLocationIsSubstring(users: seq<User>, swipes: seq<Swipe>, me: UserId, f: Filters)
    requires f.location != "" && NoWildcards(f.location)
    ensures Candidate(users, swipes, me, f).Some? ==>
      var c := Candidate(users, swipes, me, f).value;
      c.location.Some? && ContainsIgnoringCase(c.location.value, f.location)
  {
    CandidateRespectsFilters(users, swipes, me, f);
    if Candidate(users, swipes, me, f).Some? {
      var c := Candidate(users, swipes, me, f).value;
      SurroundedFilterIsSubstring(c.location.value, f.location);
    }
  }
}
