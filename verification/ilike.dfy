/** PostgreSQL's `ILIKE` as used by the search handler: `LIKE` pattern
    matching (`%` any run of characters, `_` any one character, backslash
    escaping the next character) applied after folding both sides to lower
    case. Case folding here is ASCII only. */
module Ilike {

  /** ASCII lower-casing of one character. */
  function Lower(c: char): char
  {
    if 'A' <= c <= 'Z' then (c as int + 32) as char else c
  }

  /** ASCII lower-casing of a string, character by character. */
  function LowerString(s: string): (r: string)
    ensures |r| == |s|
    ensures forall i :: 0 <= i < |s| ==> r[i] == Lower(s[i])
  {
    seq(|s|, i requires 0 <= i < |s| => Lower(s[i]))
  }

  /** `s LIKE p`: does the whole of `s` match the pattern `p`? */
  predicate Like(s: string, p: string)
    decreases |s| + |p|
  {
    if |p| == 0 then |s| == 0
    else if p[0] == '%' then Like(s, p[1..]) || (|s| > 0 && Like(s[1..], p))
    else if p[0] == '_' then |s| > 0 && Like(s[1..], p[1..])
    else if p[0] == '\\' && |p| >= 2 then |s| > 0 && s[0] == p[1] && Like(s[1..], p[2..])
    else |s| > 0 && s[0] == p[0] && Like(s[1..], p[1..])
  }

  /** `text ILIKE pattern`. */
  predicate ILike(text: string, pattern: string)
  {
    Like(LowerString(text), LowerString(pattern))
  }

  /** The pattern `"%{}%".format(term)` that the search handler builds. */
  function ContainsPattern(term: string): (p: string)
    ensures |p| == |term| + 2
    ensures p[0] == '%' && p[|p| - 1] == '%'
    ensures p[1..|p| - 1] == term
  {
    "%" + term + "%"
  }

  /** Lower-casing twice is lower-casing once. */
  lemma LowerStringIdempotent(s: string)
    ensures LowerString(LowerString(s)) == LowerString(s)
  {
  }

  /** ILIKE ignores case on both sides: lower-casing the text or the
      pattern first does not change whether they match. */
  lemma ILikeIgnoresCase(text: string, pattern: string)
    ensures ILike(text, pattern) <==> ILike(LowerString(text), pattern)
    ensures ILike(text, pattern) <==> ILike(text, LowerString(pattern))
  {
    LowerStringIdempotent(text);
    LowerStringIdempotent(pattern);
  }

  /** A term holding none of LIKE's special characters. */
  predicate Literal(t: string)
  {
    forall i :: 0 <= i < |t| ==> t[i] != '%' && t[i] != '_' && t[i] != '\\'
  }

  /** `t` occurs inside `s` starting at position `k`. */
  predicate OccursAt(t: string, s: string, k: int)
  {
    0 <= k <= |s| - |t| && s[k..k + |t|] == t
  }

  /** `t` occurs somewhere inside `s`. */
  ghost predicate IsSubstring(t: string, s: string)
  {
    exists k :: OccursAt(t, s, k)
  }

  /** A lone `%` matches every string. */
  lemma {:induction false} PercentMatchesAll(s: string)
    ensures Like(s, "%")
  {
    if |s| > 0 {
      PercentMatchesAll(s[1..]);
    }
  }

  /** A literal followed by `%` matches exactly the strings it begins. */
  lemma {:induction false} LiteralPercentIsPrefix(s: string, t: string)
    requires Literal(t)
    ensures Like(s, t + "%") <==> |t| <= |s| && s[..|t|] == t
  {
    if |t| == 0 {
      PercentMatchesAll(s);
      assert t + "%" == "%";
    } else {
      assert (t + "%")[0] == t[0];
      assert (t + "%")[1..] == t[1..] + "%";
      if |s| > 0 {
        LiteralPercentIsPrefix(s[1..], t[1..]);
        if |t| <= |s| {
          assert s[..|t|] == [s[0]] + s[1..][..|t| - 1];
          assert t == [t[0]] + t[1..];
        }
      }
    }
  }

  /** A leading `%` lets the rest of the pattern match any suffix. */
  lemma {:induction false} LeadingPercent(s: string, q: string)
    ensures Like(s, "%" + q) <==> exists k :: 0 <= k <= |s| && Like(s[k..], q)
  {
    assert ("%" + q)[0] == '%';
    assert ("%" + q)[1..] == q;
    assert s[0..] == s;
    if |s| > 0 {
      LeadingPercent(s[1..], q);
      assert forall k :: 1 <= k <= |s| ==> s[1..][k - 1..] == s[k..];
      if Like(s, "%" + q) && !Like(s, q) {
        var k :| 0 <= k <= |s[1..]| && Like(s[1..][k..], q);
        assert Like(s[k + 1..], q);
      }
    }
  }

  /** For a term free of wildcards, the search pattern `%term%` matches
      exactly the strings that contain the term. */
  lemma ContainsPatternIsSubstring(s: string, t: string)
    requires Literal(t)
    ensures Like(s, ContainsPattern(t)) <==> IsSubstring(t, s)
  {
    assert ContainsPattern(t) == "%" + (t + "%");
    LeadingPercent(s, t + "%");
    forall k | 0 <= k <= |s|
      ensures Like(s[k..], t + "%") <==> OccursAt(t, s, k)
    {
      LiteralPercentIsPrefix(s[k..], t);
      if k + |t| <= |s| {
        assert s[k..][..|t|] == s[k..k + |t|];
      }
    }
    if IsSubstring(t, s) {
      var k :| OccursAt(t, s, k);
      assert Like(s[k..], t + "%");
    }
  }

  /** Lower-casing leaves LIKE's special characters alone, so it keeps a
      literal term literal and distributes over the search pattern. */
  lemma LowerContainsPattern(t: string)
    ensures LowerString(ContainsPattern(t)) == ContainsPattern(LowerString(t))
    ensures Literal(t) ==> Literal(LowerString(t))
  {
  }

  /** The search match, case-insensitively: a literal term matches a text
      exactly when its lower-cased form occurs in the lower-cased text. */
  lemma ILikeIsCaseInsensitiveSubstring(text: string, term: string)
    requires Literal(term)
    ensures ILike(text, ContainsPattern(term)) <==>
            IsSubstring(LowerString(term), LowerString(text))
  {
    LowerContainsPattern(term);
    ContainsPatternIsSubstring(LowerString(text), LowerString(term));
  }
}
