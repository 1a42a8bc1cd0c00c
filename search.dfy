/**
 * The title filter of the post listing. `Post.title.contains(search)` is rendered as
 * `title LIKE '%' || search || '%'` without escaping, so `%`, `_` and `\` inside `search` act as
 * LIKE metacharacters. `MatchesAsWritten` is that filter; `Contains` is the substring test the
 * listing is meant to apply, and the one the rest of the model uses.
 */
module Search {

  /** `sub` occurs in `s` starting at index i. */
  predicate OccursAt(s: string, sub: string, i: int)
  {
    0 <= i <= |s| - |sub| && s[i..i + |sub|] == sub
  }

  /** `sub` occurs in `s` as a contiguous substring. */
  predicate Contains(s: string, sub: string)
  {
    exists i :: 0 <= i <= |s| - |sub| && OccursAt(s, sub, i)
  }

  /**
   * PostgreSQL's `s LIKE p` with the default escape character `\`: `%` matches any run of
   * characters, `_` any one character, `\c` the character c itself.
   */
  predicate Like(s: string, p: string)
    decreases |p|, |s|
  {
    if p == [] then s == []
    else if p[0] == '%' then Like(s, p[1..]) || (s != [] && Like(s[1..], p))
    else if s == [] then false
    else if p[0] == '_' then Like(s[1..], p[1..])
    // A pattern built as '%' || search || '%' never ends in a lone escape character.
    else if p[0] == '\\' && |p| >= 2 then s[0] == p[1] && Like(s[1..], p[2..])
    else s[0] == p[0] && Like(s[1..], p[1..])
  }

  /**
   * The title filter as the listing query writes it. It agrees with the substring test exactly
   * as long as the search string holds no metacharacter.
   */
  function MatchesAsWritten(title: string, search: string): (r: bool)
    ensures NoWildcards(search) ==> (r <==> Contains(title, search))
  {
    if NoWildcards(search) then
      AsWrittenAgreesWithoutWildcards(title, search);
      Like(title, "%" + search + "%")
    else Like(title, "%" + search + "%")
  }

  /** `search` holds none of LIKE's metacharacters. */
  predicate NoWildcards(search: string)
  {
    forall i :: 0 <= i < |search| ==> search[i] != '%' && search[i] != '_' && search[i] != '\\'
  }

  /** The empty search string is a substring of every title. */
  lemma EmptySearchContained(title: string)
    ensures Contains(title, "")
  {
    assert OccursAt(title, "", 0);
  }

  /** A lone `%` matches every string. */
  lemma {:induction false} PercentMatchesAll(s: string)
    ensures Like(s, "%")
    decreases |s|
  {
    if s != [] {
      PercentMatchesAll(s[1..]);
    }
  }

  /** A leading `%` matches exactly when the rest of the pattern matches some suffix. */
  lemma {:induction false} LeadingPercent(s: string, q: string)
    ensures Like(s, "%" + q) <==> exists i :: 0 <= i <= |s| && Like(s[i..], q)
    decreases |s|
  {
    var p := "%" + q;
    assert p[1..] == q;
    if s == [] {
      assert s[0..] == s;
    } else {
      LeadingPercent(s[1..], q);
      if Like(s, p) {
        if Like(s, q) {
          assert Like(s[0..], q);
        } else {
          var j :| 0 <= j <= |s[1..]| && Like(s[1..][j..], q);
          assert s[1..][j..] == s[j + 1..];
        }
      }
      if exists i :: 0 <= i <= |s| && Like(s[i..], q) {
        var i :| 0 <= i <= |s| && Like(s[i..], q);
        if i == 0 {
          assert s[0..] == s;
        } else {
          assert s[1..][i - 1..] == s[i..];
        }
      }
    }
  }

  /** A wildcard-free literal followed by `%` matches exactly the strings it prefixes. */
  lemma {:induction false} LiteralThenPercent(s: string, w: string)
    requires NoWildcards(w)
    ensures Like(s, w + "%") <==> |w| <= |s| && s[..|w|] == w
    decreases |w|
  {
    if w == [] {
      assert w + "%" == "%";
      PercentMatchesAll(s);
    } else {
      var p := w + "%";
      assert p[0] == w[0] && p[1..] == w[1..] + "%";
      assert NoWildcards(w[1..]) by {
        forall i | 0 <= i < |w[1..]| ensures w[1..][i] == w[i + 1] { }
      }
      if s != [] {
        LiteralThenPercent(s[1..], w[1..]);
        if |w| <= |s| && s[..|w|] == w {
          assert s[1..][..|w| - 1] == s[..|w|][1..];
        }
        if Like(s, p) {
          assert s[..|w|] == [s[0]] + s[1..][..|w| - 1];
        }
      }
    }
  }

  /** Without metacharacters in `search`, the query's filter is the substring test. */
  lemma AsWrittenAgreesWithoutWildcards(title: string, search: string)
    requires NoWildcards(search)
    ensures Like(title, "%" + search + "%") <==> Contains(title, search)
  {
    assert "%" + search + "%" == "%" + (search + "%");
    LeadingPercent(title, search + "%");
    if Like(title, "%" + search + "%") {
      var i :| 0 <= i <= |title| && Like(title[i..], search + "%");
      LiteralThenPercent(title[i..], search);
      assert title[i..i + |search|] == title[i..][..|search|];
      assert OccursAt(title, search, i);
    }
    if Contains(title, search) {
      var i :| 0 <= i <= |title| - |search| && OccursAt(title, search, i);
      LiteralThenPercent(title[i..], search);
      assert title[i..i + |search|] == title[i..][..|search|];
      assert Like(title[i..], search + "%");
    }
  }

  /** The as-written filter lets `_` select the title "abc", which does not contain "_". */
  lemma WildcardSearchMatchesUnrelatedTitle()
    ensures MatchesAsWritten("abc", "_")
    ensures !Contains("abc", "_")
  {
    var s := "abc";
    assert "%" + "_" + "%" == "%_%";
    assert "%_%"[1..] == "_%" && "_%"[1..] == "%";
    PercentMatchesAll(s[1..]);
    assert Like(s, "_%");
    assert Like(s, "%_%");
    forall i | 0 <= i <= 2 ensures !OccursAt(s, "_", i) {
      assert s[i..i + 1][0] == s[i];
    }
  }
}
