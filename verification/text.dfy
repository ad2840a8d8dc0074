/** The .NET string primitives the service relies on: char.IsWhiteSpace, IsNullOrWhiteSpace, Trim. */
module Text {

  /**
   * char.IsWhiteSpace: the Unicode space, line and paragraph separators,
   * U+0009..U+000D and U+0085.
   */
  predicate IsWhiteSpace(c: char)
  {
    || c == ' '
    || ('\t' <= c <= '\r')
    || c as int == 0x85
    || c as int == 0xA0
    || c as int == 0x1680
    || (0x2000 <= c as int <= 0x200A)
    || c as int == 0x2028
    || c as int == 0x2029
    || c as int == 0x202F
    || c as int == 0x205F
    || c as int == 0x3000
  }

  /** string.IsNullOrWhiteSpace for a non-null string (a null one is an Option's None at the call site). */
  predicate IsNullOrWhiteSpace(s: string)
  {
    forall i :: 0 <= i < |s| ==> IsWhiteSpace(s[i])
  }

  /** The number of white-space characters at the front of `s`. */
  function Leading(s: string): (n: nat)
    ensures n <= |s|
    ensures forall i :: 0 <= i < n ==> IsWhiteSpace(s[i])
    ensures n < |s| ==> !IsWhiteSpace(s[n])
  {
    if s != [] && IsWhiteSpace(s[0]) then
      assert forall i :: 1 <= i < |s| ==> s[1..][i - 1] == s[i];
      1 + Leading(s[1..])
    else 0
  }

  /** The number of white-space characters at the end of `s`. */
  function Trailing(s: string): (n: nat)
    ensures n <= |s|
    ensures forall i :: |s| - n <= i < |s| ==> IsWhiteSpace(s[i])
    ensures n < |s| ==> !IsWhiteSpace(s[|s| - n - 1])
  {
    if s != [] && IsWhiteSpace(s[|s| - 1]) then 1 + Trailing(s[..|s| - 1]) else 0
  }

  /**
   * string.Trim: the infix of `s` left once the leading and the trailing
   * white space are dropped.
   */
  function Trim(s: string): (r: string)
    ensures Leading(s) + |r| <= |s| && r == s[Leading(s)..Leading(s) + |r|]
    ensures forall i :: Leading(s) + |r| <= i < |s| ==> IsWhiteSpace(s[i])
    ensures r == [] || (!IsWhiteSpace(r[0]) && !IsWhiteSpace(r[|r| - 1]))
  {
    var lead := Leading(s);
    var rest := s[lead..];
    var k := |rest| - Trailing(rest);
    InfixFacts(s, lead, k);
    s[lead..][..k]
  }

  /**
   * What Trim leaves, stated for any cut: dropping `lead` characters at the
   * front and keeping `k` of the rest.
   */
  lemma InfixFacts(s: string, lead: nat, k: nat)
    requires lead <= |s| && k <= |s| - lead
    requires forall i :: k <= i < |s| - lead ==> IsWhiteSpace(s[lead..][i])
    requires lead < |s| ==> !IsWhiteSpace(s[lead])
    requires k > 0 ==> !IsWhiteSpace(s[lead..][k - 1])
    ensures var r := s[lead..][..k];
            && r == s[lead..lead + |r|]
            && (forall i :: lead + |r| <= i < |s| ==> IsWhiteSpace(s[i]))
            && (r == [] || (!IsWhiteSpace(r[0]) && !IsWhiteSpace(r[|r| - 1])))
  {
    var rest := s[lead..];
    forall i | lead + k <= i < |s|
      ensures IsWhiteSpace(s[i])
    {
      assert s[i] == rest[i - lead];
    }
    if k > 0 {
      assert rest[..k][0] == s[lead];
    }
  }

  /**
   * Trim leaves nothing exactly when `s` is all white space, and what it
   * leaves is all white space only when it is nothing.
   */
  lemma TrimEmpty(s: string)
    ensures Trim(s) == [] <==> IsNullOrWhiteSpace(s)
    ensures IsNullOrWhiteSpace(Trim(s)) <==> IsNullOrWhiteSpace(s)
  {
    if IsNullOrWhiteSpace(s) {
      assert Leading(s) == |s|;
    }
    if Trim(s) != [] {
      assert !IsWhiteSpace(Trim(s)[0]);
    }
  }
}
