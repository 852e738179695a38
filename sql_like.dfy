/**
  The meaning of `column.ilike(pattern)` on the SQLite store used by app.py:
  `lower(column) LIKE lower(pattern)`, where `%` stands for any run of
  characters, `_` for exactly one character, there is no escape character,
  and lower-casing touches the ASCII letters only.
 */
module SqlLike {

  /** ASCII lower-casing, as SQLite's `lower()` does it. */
  function Lower(c: char): (r: char) {
    if 'A' <= c <= 'Z' then (c as int + 32) as char else c
  }

  /** The pattern character `p` matches the text character `c`, ignoring ASCII case. */
  predicate SameLetter(p: char, c: char) {
    Lower(p) == Lower(c)
  }

  /** The text holds no LIKE wildcard. */
  predicate NoWildcards(f: string) {
    forall k :: 0 <= k < |f| ==> f[k] != '%' && f[k] != '_'
  }

  /** `a` and `b` are equal up to ASCII case. */
  predicate EqualIgnoringCase(a: string, b: string) {
    |a| == |b| && forall k :: 0 <= k < |a| ==> SameLetter(b[k], a[k])
  }

  /** SQLite's LIKE without an escape clause, case-insensitive for ASCII. A pattern without
      wildcards matches exactly the texts equal to it up to case. */
  function ILike(s: string, p: string): (r: bool)
    ensures NoWildcards(p) ==> (r <==> EqualIgnoringCase(s, p))
    decreases |p| + |s|
  {
    if p == [] then s == []
    else if p[0] == '%' then ILike(s, p[1..]) || (s != [] && ILike(s[1..], p))
    else if s == [] then false
    else
      NoWildcardsTail(p);
      EqualIgnoringCaseStep(s, p);
      (p[0] == '_' || SameLetter(p[0], s[0])) && ILike(s[1..], p[1..])
  }

  /** Dropping the first character keeps a text wildcard-free. */
  lemma NoWildcardsTail(f: string)
    requires f != []
    ensures NoWildcards(f) ==> NoWildcards(f[1..])
  {
  }

  /** Equality up to case, one character at a time. */
  lemma EqualIgnoringCaseStep(a: string, b: string)
    requires a != [] && b != []
    ensures EqualIgnoringCase(a, b) <==> SameLetter(b[0], a[0]) && EqualIgnoringCase(a[1..], b[1..])
  {
  }

  /** `f` occurs in `s` at position `i`, ignoring ASCII case. */
  predicate OccursAt(s: string, f: string, i: int) {
    0 <= i && i + |f| <= |s| && EqualIgnoringCase(s[i..i + |f|], f)
  }

  /** `f` occurs in `s` ignoring ASCII case: the case-insensitive substring test. */
  predicate ContainsIgnoringCase(s: string, f: string) {
    exists i :: 0 <= i <= |s| && OccursAt(s, f, i)
  }

  /** A lone `%` matches every text. */
  lemma {:induction false} PercentMatchesAll(s: string)
    ensures ILike(s, "%")
  {
    if s != [] {
      PercentMatchesAll(s[1..]);
    }
  }

  /** A wildcard-free literal followed by `%` matches exactly the texts it starts, up to case. */
  lemma {:induction false} LiteralPrefix(s: string, f: string)
    requires NoWildcards(f)
    ensures ILike(s, f + "%") <==> |f| <= |s| && EqualIgnoringCase(s[..|f|], f)
  {
    if f == [] {
      assert f + "%" == "%";
      PercentMatchesAll(s);
    } else {
      assert (f + "%")[1..] == f[1..] + "%";
      NoWildcardsTail(f);
      if s != [] {
        LiteralPrefix(s[1..], f[1..]);
        if |f| <= |s| {
          assert s[..|f|][1..] == s[1..][..|f| - 1];
          EqualIgnoringCaseStep(s[..|f|], f);
        }
      }
    }
  }

  /** A leading `%` lets the rest of the pattern match any suffix. */
  lemma {:induction false} LeadingPercent(s: string, q: string)
    ensures ILike(s, "%" + q) <==> exists i :: 0 <= i <= |s| && ILike(s[i..], q)
  {
    var p := "%" + q;
    assert p[1..] == q;
    if s == [] {
      assert s[0..] == s;
    } else {
      LeadingPercent(s[1..], q);
      assert s[0..] == s;
      if exists i :: 0 <= i <= |s| && ILike(s[i..], q) {
        var i :| 0 <= i <= |s| && ILike(s[i..], q);
        if i > 0 { assert s[1..][i - 1..] == s[i..]; }
      }
      if exists i :: 0 <= i <= |s[1..]| && ILike(s[1..][i..], q) {
        var i :| 0 <= i <= |s[1..]| && ILike(s[1..][i..], q);
        assert s[1..][i..] == s[i + 1..];
      }
    }
  }

  /** For a wildcard-free filter, the pattern `%filter%` is the case-insensitive substring test. */
  lemma SurroundedFilterIsSubstring(s: string, f: string)
    requires NoWildcards(f)
    ensures ILike(s, "%" + f + "%") <==> ContainsIgnoringCase(s, f)
  {
    assert "%" + f + "%" == "%" + (f + "%");
    LeadingPercent(s, f + "%");
    forall i | 0 <= i <= |s|
      ensures ILike(s[i..], f + "%") <==> OccursAt(s, f, i)
    {
      LiteralPrefix(s[i..], f);
      if |f| <= |s[i..]| { assert s[i..][..|f|] == s[i..i + |f|]; }
    }
  }

  /** Wildcards in the filter do act as wildcards: `_` matches any one letter. */
  lemma UnderscoreIsAWildcard()
    ensures ILike("Pune", "%P_ne%")
    ensures !ContainsIgnoringCase("Pune", "P_ne")
  {
    assert !SameLetter("P_ne"[1], "Pune"[1]);
    assert !OccursAt("Pune", "P_ne", 0) by {
      assert "Pune"[0..4] == "Pune";
    }
  }
}
