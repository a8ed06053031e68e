/** SQLite's LIKE operator with its default settings and no ESCAPE clause: `%`
    matches any run of characters, `_` exactly one character, and every other
    pattern character matches itself with ASCII letters compared case-insensitively. */
module SqlLike {

  /** The case folding LIKE applies: ASCII upper-case letters to lower case. */
  function FoldChar(c: char): char
  {
    if 'A' <= c <= 'Z' then (c as int + 32) as char else c
  }

  predicate Like(pattern: string, text: string)
    decreases |pattern| + |text|
  {
    if pattern == [] then text == []
    else if pattern[0] == '%' then Like(pattern[1..], text) || (text != [] && Like(pattern, text[1..]))
    else text != [] && (pattern[0] == '_' || FoldChar(pattern[0]) == FoldChar(text[0]))
         && Like(pattern[1..], text[1..])
  }

  /** A pattern character that LIKE does not treat as a wildcard. */
  predicate NoWildcards(term: string)
  {
    forall i :: 0 <= i < |term| ==> term[i] != '%' && term[i] != '_'
  }

  /** Equality up to ASCII case. */
  predicate FoldEq(a: string, b: string)
  {
    |a| == |b| && forall i :: 0 <= i < |a| ==> FoldChar(a[i]) == FoldChar(b[i])
  }

  /** `term` occurs in `text` at position `i`, up to ASCII case. */
  predicate OccursAt(text: string, term: string, i: nat)
  {
    i + |term| <= |text| && FoldEq(text[i..i + |term|], term)
  }

  /** `term` occurs somewhere in `text`, up to ASCII case. */
  predicate ContainsFold(text: string, term: string)
  {
    exists i: nat :: i <= |text| && OccursAt(text, term, i)
  }

  /** `%` alone matches every text. */
  lemma {:induction false} PercentMatchesAll(text: string)
    ensures Like("%", text)
  {
    if text != [] {
      PercentMatchesAll(text[1..]);
    }
  }

  /** A wildcard-free term followed by `%` matches exactly the texts that start with
      the term, up to case. */
  lemma {:induction false} LiteralPrefix(term: string, text: string)
    requires NoWildcards(term)
    ensures Like(term + "%", text) <==> OccursAt(text, term, 0)
  {
    if term == [] {
      assert term + "%" == "%";
      PercentMatchesAll(text);
    } else {
      assert (term + "%")[1..] == term[1..] + "%";
      if text != [] {
        LiteralPrefix(term[1..], text[1..]);
        if FoldChar(term[0]) == FoldChar(text[0]) {
          if OccursAt(text[1..], term[1..], 0) {
            assert text[..|term|] == [text[0]] + text[1..][..|term| - 1];
          }
          if OccursAt(text, term, 0) {
            assert text[1..][..|term| - 1] == text[..|term|][1..];
            forall i | 0 <= i < |term| - 1
              ensures FoldChar(text[1..][..|term| - 1][i]) == FoldChar(term[1..][i])
            {
              assert text[..|term|][i + 1] == text[1..][..|term| - 1][i];
            }
          }
        } else if |term| <= |text| {
          assert text[..|term|][0] == text[0];
        }
      }
    }
  }

  /** A leading `%` lets the rest of the pattern match any suffix of the text. */
  lemma {:induction false} LeadingPercent(rest: string, text: string)
    ensures Like("%" + rest, text) <==> exists i: nat :: i <= |text| && Like(rest, text[i..])
  {
    var pattern := "%" + rest;
    assert pattern[1..] == rest;
    if text == [] {
      assert text[0..] == text;
    } else {
      LeadingPercent(rest, text[1..]);
      if exists i: nat :: i <= |text| && Like(rest, text[i..]) {
        var i: nat :| i <= |text| && Like(rest, text[i..]);
        if i > 0 {
          assert text[1..][i - 1..] == text[i..];
        } else {
          assert text[0..] == text;
        }
      }
      if Like(pattern, text[1..]) {
        var i: nat :| i <= |text[1..]| && Like(rest, text[1..][i..]);
        assert text[1..][i..] == text[i + 1..];
      }
      if Like(rest, text) {
        assert text[0..] == text;
      }
    }
  }

  /** The search pattern `%term%` of a wildcard-free term matches exactly the texts
      that contain the term, up to ASCII case. */
  lemma SearchPatternMeansContains(term: string, text: string)
    requires NoWildcards(term)
    ensures Like("%" + term + "%", text) <==> ContainsFold(text, term)
  {
    assert "%" + term + "%" == "%" + (term + "%");
    LeadingPercent(term + "%", text);
    if Like("%" + term + "%", text) {
      var i: nat :| i <= |text| && Like(term + "%", text[i..]);
      LiteralPrefix(term, text[i..]);
      assert text[i..][..|term|] == text[i..i + |term|];
      assert OccursAt(text, term, i);
    }
    if ContainsFold(text, term) {
      var i: nat :| i <= |text| && OccursAt(text, term, i);
      assert text[i..][..|term|] == text[i..i + |term|];
      LiteralPrefix(term, text[i..]);
    }
  }
}
