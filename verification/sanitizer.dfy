/**
 * SanitizeColumnName: a fixed chain of single-character Replace calls that
 * turns a header text into a storage column name.
 */
module Sanitizer {

  /** string.Replace with a one-character pattern: every occurrence, left to right. */
  function Replace(s: string, pattern: char, replacement: string): (r: string)
    ensures pattern !in replacement ==> pattern !in r
    ensures |replacement| <= 1 ==> |r| <= |s|
  {
    if s == [] then []
    else (if s[0] == pattern then replacement else [s[0]]) + Replace(s[1..], pattern, replacement)
  }

  /** The Replace calls of SanitizeColumnName, in the order the chain applies them. */
  const Rules: seq<(char, string)> :=
    [(' ', "_"), ('-', "_"), ('.', ""), ('/', "_"), ('\\', "_"),
     ('(', ""), (')', ""), ('[', ""), (']', "")]

  /** Applies `rules` one after the other, each to the output of the previous one. */
  function ReplaceChain(s: string, rules: seq<(char, string)>): string
    decreases |rules|
  {
    if rules == [] then s else ReplaceChain(Replace(s, rules[0].0, rules[0].1), rules[1..])
  }

  /** The nine chained Replace calls; the result is the per-character reference map of the name. */
  function SanitizeColumnName(columnName: string): (r: string)
    ensures r == SanitizeEach(columnName)
  {
    SanitizePerChar(columnName);
    ReplaceChain(columnName, Rules)
  }

  /** The nine characters no sanitized name contains. */
  predicate IsForbidden(c: char)
  {
    c == ' ' || c == '-' || c == '.' || c == '/' || c == '\\' ||
    c == '(' || c == ')' || c == '[' || c == ']'
  }

  predicate IsSanitized(s: string)
  {
    forall i :: 0 <= i < |s| ==> !IsForbidden(s[i])
  }

  /**
   * What the chain does to one character on its own: space, hyphen and both
   * slashes become an underscore, the period, parentheses and brackets
   * vanish, and everything else stays.
   */
  function SanitizeChar(c: char): (r: string)
    ensures |r| <= 1
    ensures IsSanitized(r)
    ensures !IsForbidden(c) <==> r == [c]
  {
    if c == ' ' || c == '-' || c == '/' || c == '\\' then "_"
    else if c == '.' || c == '(' || c == ')' || c == '[' || c == ']' then ""
    else [c]
  }

  /** The reference definition: each character of `s` sanitized on its own, in order. */
  function SanitizeEach(s: string): string
  {
    if s == [] then [] else SanitizeChar(s[0]) + SanitizeEach(s[1..])
  }

  lemma {:induction false} ReplaceAppend(a: string, b: string, pattern: char, replacement: string)
    ensures Replace(a + b, pattern, replacement) == Replace(a, pattern, replacement) + Replace(b, pattern, replacement)
  {
    if a == [] {
      assert a + b == b;
    } else {
      assert (a + b)[0] == a[0] && (a + b)[1..] == a[1..] + b;
      ReplaceAppend(a[1..], b, pattern, replacement);
    }
  }

  /** Every rule replaces one character by text that no rule matches again. */
  lemma {:induction false} ReplaceChainAppend(a: string, b: string, rules: seq<(char, string)>)
    ensures ReplaceChain(a + b, rules) == ReplaceChain(a, rules) + ReplaceChain(b, rules)
    decreases |rules|
  {
    if rules != [] {
      ReplaceAppend(a, b, rules[0].0, rules[0].1);
      ReplaceChainAppend(Replace(a, rules[0].0, rules[0].1), Replace(b, rules[0].0, rules[0].1), rules[1..]);
    }
  }

  /** A chain none of whose patterns is an underscore leaves "" and "_" alone. */
  lemma {:induction false} ReplaceChainUnderscore(s: string, rules: seq<(char, string)>)
    requires s == "" || s == "_"
    requires forall k :: 0 <= k < |rules| ==> rules[k].0 != '_'
    ensures ReplaceChain(s, rules) == s
    decreases |rules|
  {
    if rules != [] {
      if s == "_" {
        assert Replace(s, rules[0].0, rules[0].1) == "_" + Replace([], rules[0].0, rules[0].1);
      }
      ReplaceChainUnderscore(s, rules[1..]);
    }
  }

  /** The first rule whose pattern is `c` decides what becomes of `c`. */
  function FirstRule(c: char, rules: seq<(char, string)>): string
  {
    if rules == [] then [c]
    else if rules[0].0 == c then rules[0].1
    else FirstRule(c, rules[1..])
  }

  lemma {:induction false} ReplaceChainOneChar(c: char, rules: seq<(char, string)>)
    requires forall k :: 0 <= k < |rules| ==> rules[k].0 != '_' && (rules[k].1 == "" || rules[k].1 == "_")
    ensures ReplaceChain([c], rules) == FirstRule(c, rules)
    decreases |rules|
  {
    if rules != [] {
      var step := Replace([c], rules[0].0, rules[0].1);
      assert step == (if c == rules[0].0 then rules[0].1 else [c]) + Replace([], rules[0].0, rules[0].1);
      if c == rules[0].0 {
        ReplaceChainUnderscore(step, rules[1..]);
      } else {
        ReplaceChainOneChar(c, rules[1..]);
      }
    }
  }

  /** The last four rules remove the parentheses and brackets. */
  lemma RulesDecideTail(c: char)
    ensures FirstRule(c, Rules[5..]) == if c == '(' || c == ')' || c == '[' || c == ']' then "" else [c]
  {
    var rs := Rules[5..];
    assert rs == [('(', ""), (')', ""), ('[', ""), (']', "")];
    assert FirstRule(c, rs) == if c == '(' then "" else FirstRule(c, rs[1..]);
    assert FirstRule(c, rs[1..]) == if c == ')' then "" else FirstRule(c, rs[2..]);
    assert FirstRule(c, rs[2..]) == if c == '[' then "" else FirstRule(c, rs[3..]);
    assert FirstRule(c, rs[3..]) == if c == ']' then "" else FirstRule(c, rs[4..]);
    assert FirstRule(c, rs[4..]) == [c];
  }

  /** Reading the rule table for one character gives SanitizeChar. */
  lemma RulesDecide(c: char)
    ensures FirstRule(c, Rules) == SanitizeChar(c)
  {
    var rs := Rules;
    assert FirstRule(c, rs) == if c == ' ' then "_" else FirstRule(c, rs[1..]);
    assert FirstRule(c, rs[1..]) == if c == '-' then "_" else FirstRule(c, rs[2..]);
    assert FirstRule(c, rs[2..]) == if c == '.' then "" else FirstRule(c, rs[3..]);
    assert FirstRule(c, rs[3..]) == if c == '/' then "_" else FirstRule(c, rs[4..]);
    assert FirstRule(c, rs[4..]) == if c == '\\' then "_" else FirstRule(c, rs[5..]);
    RulesDecideTail(c);
  }

  lemma SanitizeOneChar(c: char)
    ensures ReplaceChain([c], Rules) == SanitizeChar(c)
  {
    ReplaceChainOneChar(c, Rules);
    RulesDecide(c);
  }

  /**
   * The chain of Replace calls equals sanitizing each character on its own:
   * no rule's output is matched by a later rule.
   */
  lemma {:induction false} SanitizePerChar(s: string)
    ensures ReplaceChain(s, Rules) == SanitizeEach(s)
  {
    if s == [] {
      ReplaceChainUnderscore(s, Rules);
    } else {
      assert s == [s[0]] + s[1..];
      ReplaceChainAppend([s[0]], s[1..], Rules);
      SanitizeOneChar(s[0]);
      SanitizePerChar(s[1..]);
    }
  }

  lemma {:induction false} SanitizeEachAppend(a: string, b: string)
    ensures SanitizeEach(a + b) == SanitizeEach(a) + SanitizeEach(b)
  {
    if a == [] {
      assert a + b == b;
    } else {
      assert (a + b)[0] == a[0] && (a + b)[1..] == a[1..] + b;
      SanitizeEachAppend(a[1..], b);
    }
  }

  lemma {:induction false} SanitizeEachIsSanitized(s: string)
    ensures IsSanitized(SanitizeEach(s))
    ensures |SanitizeEach(s)| <= |s|
  {
    if s != [] {
      SanitizeEachIsSanitized(s[1..]);
      var r := SanitizeEach(s);
      assert r == SanitizeChar(s[0]) + SanitizeEach(s[1..]);
      forall i | 0 <= i < |r| ensures !IsForbidden(r[i]) {
        if i >= |SanitizeChar(s[0])| {
          assert r[i] == SanitizeEach(s[1..])[i - |SanitizeChar(s[0])|];
        }
      }
    }
  }

  lemma {:induction false} SanitizeEachFixes(s: string)
    ensures SanitizeEach(s) == s <==> IsSanitized(s)
  {
    if s != [] {
      SanitizeEachFixes(s[1..]);
      SanitizeEachIsSanitized(s[1..]);
      if IsSanitized(s) {
        assert IsSanitized(s[1..]) by {
          forall i | 0 <= i < |s[1..]| ensures !IsForbidden(s[1..][i]) { assert s[1..][i] == s[i + 1]; }
        }
        assert SanitizeChar(s[0]) == [s[0]];
      }
      if SanitizeEach(s) == s {
        SanitizeEachIsSanitized(s);
      }
    }
  }

  /** No sanitized name holds a space, hyphen, period, slash, backslash, parenthesis or bracket. */
  lemma SanitizeRemovesForbidden(s: string)
    ensures IsSanitized(SanitizeColumnName(s))
    ensures |SanitizeColumnName(s)| <= |s|
  {
    SanitizeEachIsSanitized(s);
  }

  /** A name is left unchanged exactly when it holds none of the nine characters. */
  lemma SanitizeFixedPoint(s: string)
    ensures SanitizeColumnName(s) == s <==> IsSanitized(s)
  {
    SanitizeEachFixes(s);
  }

  /** Sanitizing twice is sanitizing once. */
  lemma SanitizeIdempotent(s: string)
    ensures SanitizeColumnName(SanitizeColumnName(s)) == SanitizeColumnName(s)
  {
    SanitizeRemovesForbidden(s);
    SanitizeFixedPoint(SanitizeColumnName(s));
  }

  lemma SanitizeEachSingle(c: char)
    ensures SanitizeEach([c]) == SanitizeChar(c)
  {
    assert [c][1..] == [];
  }

  /** Sanitizing `a`, one character `c` and `b` in a row, where `a` and `b` are clean. */
  lemma SanitizeAround(a: string, c: char, b: string)
    requires IsSanitized(a) && IsSanitized(b)
    ensures SanitizeColumnName(a + [c] + b) == a + SanitizeChar(c) + b
  {
    var ac := a + [c];
    SanitizeEachAppend(ac, b);
    SanitizeEachAppend(a, [c]);
    SanitizeEachFixes(a);
    SanitizeEachFixes(b);
    SanitizeEachSingle(c);
  }

  /** Two clean names joined by a space, hyphen, slash or backslash come out joined by an underscore. */
  lemma SanitizeJoinsWithUnderscore(a: string, sep: char, b: string)
    requires IsSanitized(a) && IsSanitized(b)
    requires sep == ' ' || sep == '-' || sep == '/' || sep == '\\'
    ensures SanitizeColumnName(a + [sep] + b) == a + "_" + b
  {
    SanitizeAround(a, sep, b);
  }

  /** A period, parenthesis or bracket between two clean names disappears. */
  lemma SanitizeDropsPunctuation(a: string, p: char, b: string)
    requires IsSanitized(a) && IsSanitized(b)
    requires p == '.' || p == '(' || p == ')' || p == '[' || p == ']'
    ensures SanitizeColumnName(a + [p] + b) == a + b
  {
    SanitizeAround(a, p, b);
    var dropped := SanitizeChar(p);
    assert dropped == [];
    assert a + dropped == a;
  }
}
