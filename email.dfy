/** The address check `isValidEmail`, whose regular expression is
    `^[^\s@]+@[^\s@]+\.[^\s@]+$`, written out as predicates over characters. */
module Email {
  import opened Text

  /** A character of the class `[^\s@]`. */
  predicate Plain(c: char) {
    !IsSpace(c) && c != '@'
  }

  /** The local part `[^\s@]+`. */
  predicate LocalPart(l: string) {
    |l| > 0 && forall k :: 0 <= k < |l| ==> Plain(l[k])
  }

  /** The domain part `[^\s@]+\.[^\s@]+`: plain characters with a dot strictly
      inside (the dot itself is a plain character, so backtracking may pick any
      inner dot). */
  predicate DomainPart(d: string) {
    (forall k :: 0 <= k < |d| ==> Plain(d[k])) &&
    exists k :: 0 < k < |d| - 1 && d[k] == '.'
  }

  /** `isValidEmail`: the string splits as local part, '@', domain part. */
  predicate IsValidEmail(s: string)
    ensures IsValidEmail(s) ==> |s| >= 5 && '@' in s && Plain(s[0]) && Plain(s[|s| - 1])
  {
    exists i :: 0 <= i < |s| && s[i] == '@' && LocalPart(s[..i]) && DomainPart(s[i + 1..])
  }

  /** Reference shape by positions: one '@' at `a` > 0, no white space and no
      other '@', and a '.' at `d` with at least one character between '@' and
      '.' and at least one after the '.'. */
  predicate EmailShape(s: string) {
    exists a, d :: 0 < a && a + 1 < d < |s| - 1 && s[a] == '@' && s[d] == '.' && PlainExcept(s, a)
  }

  /** Every character other than the one at `a` is plain. */
  predicate PlainExcept(s: string, a: int) {
    forall k :: 0 <= k < |s| && k != a ==> Plain(s[k])
  }

  /** The regular expression accepts exactly the strings of the reference shape. */
  lemma ValidEmailIff(s: string)
    ensures IsValidEmail(s) <==> EmailShape(s)
  {
    if IsValidEmail(s) {
      var i :| 0 <= i < |s| && s[i] == '@' && LocalPart(s[..i]) && DomainPart(s[i + 1..]);
      var dom := s[i + 1..];
      var k :| 0 < k < |dom| - 1 && dom[k] == '.';
      forall m | 0 <= m < |s| && m != i ensures Plain(s[m]) {
        if m < i { assert s[m] == s[..i][m]; } else { assert s[m] == dom[m - i - 1]; }
      }
      assert s[i + 1 + k] == '.';
    }
    if EmailShape(s) {
      var a, d :| 0 < a && a + 1 < d < |s| - 1 && s[a] == '@' && s[d] == '.' && PlainExcept(s, a);
      var dom := s[a + 1..];
      assert dom[d - a - 1] == '.';
      assert LocalPart(s[..a]);
      assert DomainPart(dom);
    }
  }

  /** Lower-casing neither makes nor breaks an address: the check is
      insensitive to the case of its input. */
  lemma ValidEmailLower(s: string)
    ensures IsValidEmail(ToLower(s)) <==> IsValidEmail(s)
  {
    var t := ToLower(s);
    LowerKeepsClasses(s);
    ValidEmailIff(s);
    ValidEmailIff(t);
    if EmailShape(s) {
      var a, d :| 0 < a && a + 1 < d < |s| - 1 && s[a] == '@' && s[d] == '.' && PlainExcept(s, a);
      assert t[a] == '@' && t[d] == '.' && PlainExcept(t, a);
    }
    if EmailShape(t) {
      var a, d :| 0 < a && a + 1 < d < |t| - 1 && t[a] == '@' && t[d] == '.' && PlainExcept(t, a);
      assert s[a] == '@' && s[d] == '.' && PlainExcept(s, a);
    }
  }

  /** A valid address has no white space at either end, so trimming it is the
      identity. */
  lemma ValidEmailTight(s: string)
    requires IsValidEmail(s)
    ensures Trim(s) == s
  {
    ValidEmailIff(s);
    var a, d :| 0 < a && a + 1 < d < |s| - 1 && s[a] == '@' && s[d] == '.' && PlainExcept(s, a);
    assert Plain(s[0]) && Plain(s[|s| - 1]);
    TrimTight(s);
  }
}
