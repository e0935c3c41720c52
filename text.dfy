/** String comparison and matching as the note store uses them: the order that
    sorts the `date` column and the substring test behind the title search. */
module Text {

  /** Lexicographic order on strings, character by character by code point,
      a proper prefix sorting first. The note dates are fixed-width
      `YYYY-MM-DD HH:MM:SS` strings, so this order is their chronological order. */
  predicate LexLeq(a: string, b: string)
  {
    if a == [] then true
    else if b == [] then false
    else if a[0] != b[0] then a[0] < b[0]
    else LexLeq(a[1..], b[1..])
  }

  /** Any two strings are comparable. */
  lemma {:induction false} LexLeqTotal(a: string, b: string)
    ensures LexLeq(a, b) || LexLeq(b, a)
  {
    if a != [] && b != [] && a[0] == b[0] {
      LexLeqTotal(a[1..], b[1..]);
    }
  }

  lemma {:induction false} LexLeqTransitive(a: string, b: string, c: string)
    requires LexLeq(a, b) && LexLeq(b, c)
    ensures LexLeq(a, c)
  {
    if a != [] && b != [] && c != [] && a[0] == b[0] && b[0] == c[0] {
      LexLeqTransitive(a[1..], b[1..], c[1..]);
    }
  }

  /** Comparing two strings with a common prefix compares what follows it. */
  lemma {:induction false} LexLeqCommonPrefix(p: string, a: string, b: string)
    ensures LexLeq(p + a, p + b) == LexLeq(a, b)
  {
    if p != [] {
      assert (p + a)[0] == p[0] == (p + b)[0];
      assert (p + a)[1..] == p[1..] + a;
      assert (p + b)[1..] == p[1..] + b;
      LexLeqCommonPrefix(p[1..], a, b);
      assert LexLeq(p + a, p + b) == LexLeq(p[1..] + a, p[1..] + b);
    } else {
      assert p + a == a && p + b == b;
    }
  }

  predicate StartsWith(s: string, p: string)
  {
    |p| <= |s| && s[..|p|] == p
  }

  /** `p` occurs in `s` as a contiguous substring. */
  predicate Contains(s: string, p: string)
  {
    StartsWith(s, p) || (s != [] && Contains(s[1..], p))
  }

  /** `p` occurs in `s` starting at position `i`. */
  predicate OccursAt(s: string, p: string, i: int)
  {
    0 <= i <= |s| - |p| && s[i..i + |p|] == p
  }

  /** Contains agrees with the positional definition of a substring. */
  lemma {:induction false} ContainsAt(s: string, p: string)
    ensures Contains(s, p) <==> exists i :: OccursAt(s, p, i)
  {
    if s == [] {
      if p == [] {
        assert OccursAt(s, p, 0);
      }
      if exists i :: OccursAt(s, p, i) {
        var i :| OccursAt(s, p, i);
        assert StartsWith(s, p);
        assert Contains(s, p);
      }
    } else {
      ContainsAt(s[1..], p);
      if Contains(s, p) {
        if StartsWith(s, p) {
          assert OccursAt(s, p, 0);
        } else {
          var i :| OccursAt(s[1..], p, i);
          assert s[1..][i..i + |p|] == s[i + 1..i + 1 + |p|];
          assert OccursAt(s, p, i + 1);
        }
      }
      if exists i :: OccursAt(s, p, i) {
        var i :| OccursAt(s, p, i);
        if i == 0 {
          assert StartsWith(s, p);
        } else {
          assert s[1..][i - 1..i - 1 + |p|] == s[i..i + |p|];
          assert OccursAt(s[1..], p, i - 1);
        }
      }
    }
  }

  /** Every string contains the empty string, so an empty search matches every title. */
  lemma ContainsEmpty(s: string)
    ensures Contains(s, "")
  {
  }

  /** A string that lacks the first character of `p` cannot contain `p`. */
  lemma {:induction false} ContainsFirstChar(s: string, p: string)
    requires p != [] && Contains(s, p)
    ensures p[0] in s
  {
    if StartsWith(s, p) {
      assert s[0] == p[0];
    } else {
      ContainsFirstChar(s[1..], p);
    }
  }

  // ---------------------------------------------------------------------------
  // ASCII case folding, as SQLite's LIKE applies it

  function LowerChar(c: char): (d: char)
    ensures 'A' <= c <= 'Z' ==> 'a' <= d <= 'z' && d as int == c as int + 32
    ensures !('A' <= c <= 'Z') ==> d == c
  {
    if 'A' <= c <= 'Z' then (c as int + 32) as char else c
  }

  /** `s` with its ASCII capitals replaced by lower-case letters; every other
      character, including non-ASCII letters, is kept. */
  function Lower(s: string): (r: string)
    ensures |r| == |s| && forall i :: 0 <= i < |s| ==> r[i] == LowerChar(s[i])
  {
    if s == [] then [] else [LowerChar(s[0])] + Lower(s[1..])
  }

  /** The title search the store applies: `search` occurs in `title` when
      ASCII case is ignored. */
  predicate MatchesIgnoringCase(title: string, search: string)
  {
    Contains(Lower(title), Lower(search))
  }

  lemma MatchesItself(s: string)
    ensures MatchesIgnoringCase(s, s)
  {
  }

  /** A title none of whose characters equals the first character of the
      search, up to ASCII case, does not match that search. */
  lemma {:induction false} NoMatchWithoutFirstChar(title: string, search: string)
    requires search != []
    requires forall i :: 0 <= i < |title| ==> LowerChar(title[i]) != LowerChar(search[0])
    ensures !MatchesIgnoringCase(title, search)
  {
    if MatchesIgnoringCase(title, search) {
      MatchNeedsFirstChar(title, search);
      assert false;
    }
  }

  /** A string holding a letter in neither case has no character that
      lowers to it. */
  lemma LacksLetter(s: string, c: char)
    requires 'a' <= c <= 'z' && c !in s && (c as int - 32) as char !in s
    ensures forall i :: 0 <= i < |s| ==> LowerChar(s[i]) != c
  {
    forall i | 0 <= i < |s|
      ensures LowerChar(s[i]) != c
    {
      assert s[i] in s;
    }
  }

  /** A title can only match a search whose first character it holds, up to
      ASCII case. */
  lemma MatchNeedsFirstChar(title: string, search: string)
    requires search != [] && MatchesIgnoringCase(title, search)
    ensures exists i :: 0 <= i < |title| && LowerChar(title[i]) == LowerChar(search[0])
  {
    ContainsFirstChar(Lower(title), Lower(search));
    var i :| 0 <= i < |Lower(title)| && Lower(title)[i] == Lower(search)[0];
  }

  // ---------------------------------------------------------------------------
  // The LIKE operator as the query uses it

  /** SQLite's `s LIKE p` with no ESCAPE clause: `%` matches any run of
      characters, `_` any one character, every other character itself with
      ASCII case ignored. */
  predicate Like(s: string, p: string)
    decreases |s| + |p|
  {
    if p == [] then s == []
    else if p[0] == '%' then Like(s, p[1..]) || (s != [] && Like(s[1..], p))
    else s != [] && (p[0] == '_' || LowerChar(s[0]) == LowerChar(p[0])) && Like(s[1..], p[1..])
  }

  /** The title test of notes.py as written: the search text is put between
      two `%` without escaping its own `%` and `_`. */
  predicate LikeSearch(title: string, search: string)
  {
    Like(title, "%" + search + "%")
  }

  predicate NoWildcards(s: string)
  {
    '%' !in s && '_' !in s
  }

  lemma {:induction false} LikeAnyTail(s: string)
    ensures Like(s, "%")
  {
    if s != [] {
      LikeAnyTail(s[1..]);
    }
  }

  /** Without wildcards, `q%` matches exactly the strings that start with `q`
      up to ASCII case. */
  lemma {:induction false} LikePrefix(s: string, q: string)
    requires NoWildcards(q)
    ensures Like(s, q + "%") <==> StartsWith(Lower(s), Lower(q))
  {
    if q == [] {
      assert q + "%" == "%";
      LikeAnyTail(s);
      assert Lower(s)[..0] == Lower(q);
    } else {
      var p := q + "%";
      assert p[0] == q[0] && p[1..] == q[1..] + "%";
      assert q[0] in q;
      assert NoWildcards(q[1..]) by {
        forall c | c in q[1..] ensures c in q { }
      }
      if s == [] {
        assert !Like(s, p);
      } else {
        LikePrefix(s[1..], q[1..]);
        assert Lower(s)[1..] == Lower(s[1..]);
        assert Lower(q)[1..] == Lower(q[1..]);
        assert Like(s, p) <==> LowerChar(s[0]) == LowerChar(q[0]) && Like(s[1..], q[1..] + "%");
        if |q| <= |s| {
          assert Lower(s)[..|q|] == [Lower(s)[0]] + Lower(s[1..])[..|q| - 1];
          assert Lower(q) == [Lower(q)[0]] + Lower(q[1..]);
        }
        assert StartsWith(Lower(s), Lower(q)) <==>
               LowerChar(s[0]) == LowerChar(q[0]) && StartsWith(Lower(s[1..]), Lower(q[1..]));
      }
    }
  }

  /** Without wildcards, `%q%` matches exactly the strings that contain `q`
      up to ASCII case. */
  lemma {:induction false} LikeInfix(s: string, q: string)
    requires NoWildcards(q)
    ensures Like(s, "%" + q + "%") <==> MatchesIgnoringCase(s, q)
  {
    var p := "%" + q + "%";
    assert p[0] == '%' && p[1..] == q + "%";
    LikePrefix(s, q);
    if s == [] {
      assert Like(s, p) <==> Like(s, q + "%");
    } else {
      LikeInfix(s[1..], q);
      assert Lower(s)[1..] == Lower(s[1..]);
      assert Like(s, p) <==> Like(s, q + "%") || Like(s[1..], p);
    }
  }

  /** The search of notes.py agrees with the case-insensitive substring test
      whenever the search text holds no `%` and no `_`. */
  lemma LikeSearchWithoutWildcards(title: string, search: string)
    requires NoWildcards(search)
    ensures LikeSearch(title, search) <==> MatchesIgnoringCase(title, search)
  {
    LikeInfix(title, search);
  }

  /** With `_` in the search text the query lists a title that does not
      contain that text: searching for "_" lists the note titled "ab". */
  lemma LikeSearchWildcardCounterexample()
    ensures LikeSearch("ab", "_") && !MatchesIgnoringCase("ab", "_")
  {
    assert "%" + "_" + "%" == "%_%";
    assert Like("", "") && Like("", "%");
    assert Like("b", "%") by { LikeAnyTail("b"); }
    assert Like("ab", "_%");
    assert Lower("ab") == "ab" && Lower("_") == "_";
    if Contains("ab", "_") {
      ContainsFirstChar("ab", "_");
      assert false;
    }
  }
}
