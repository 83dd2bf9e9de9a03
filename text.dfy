/** ASCII model of the JavaScript string primitives the registry relies on:
    `String.prototype.trim`, `toLowerCase` and `toUpperCase`. */
module Text {

  /** White space as `trim` and the regex class `\s` see it, restricted to ASCII:
      tab, line feed, vertical tab, form feed, carriage return (9..13) and space. */
  predicate IsSpace(c: char) {
    c == ' ' || ('\t' <= c <= '\r')
  }

  /** Every character is white space (the empty string included). */
  predicate IsBlank(s: string) {
    forall k :: 0 <= k < |s| ==> IsSpace(s[k])
  }

  /** Neither end of `s` is white space. */
  predicate Tight(s: string) {
    s == [] || (!IsSpace(s[0]) && !IsSpace(s[|s| - 1]))
  }

  /** `s` with its leading white space removed. */
  function TrimStart(s: string): (r: string)
    ensures |r| <= |s| && r == s[|s| - |r|..]
    ensures forall k :: 0 <= k < |s| - |r| ==> IsSpace(s[k])
    ensures r == [] || !IsSpace(r[0])
    decreases |s|
  {
    if |s| > 0 && IsSpace(s[0]) then
      TrimStart(s[1..])
    else s
  }

  /** `s` with its trailing white space removed. */
  function TrimEnd(s: string): (r: string)
    ensures |r| <= |s| && r == s[..|r|]
    ensures forall k :: |r| <= k < |s| ==> IsSpace(s[k])
    ensures r == [] || !IsSpace(r[|r| - 1])
    decreases |s|
  {
    if |s| > 0 && IsSpace(s[|s| - 1]) then
      TrimEnd(s[..|s| - 1])
    else s
  }

  /** `String.prototype.trim`: white space removed from both ends. */
  function Trim(s: string): (r: string)
    ensures Tight(r)
    ensures r == [] <==> IsBlank(s)
  {
    var e := TrimEnd(s);
    var r := TrimStart(e);
    assert r == [] ==> s == e[..|e|] + s[|e|..];
    assert r != [] ==> r[|r| - 1] == e[|e| - 1];
    r
  }

  /** Trimming strips exactly the blank padding around a tight string: the
      characterisation of `trim` by what it removes and what it keeps. */
  lemma {:induction false} TrimPadded(p: string, t: string, q: string)
    requires IsBlank(p) && IsBlank(q) && Tight(t)
    ensures Trim(p + t + q) == t
  {
    var s := p + t + q;
    var e := TrimEnd(s);
    if t == [] {
      assert IsBlank(s) by {
        forall k | 0 <= k < |s| ensures IsSpace(s[k]) {
          if k < |p| { assert s[k] == p[k]; } else { assert s[k] == q[k - |p|]; }
        }
      }
    } else {
      // TrimEnd keeps the last character of t and drops all of q;
      // TrimStart then keeps the first character of t and drops all of p.
      assert s[|p| + |t| - 1] == t[|t| - 1];
      assert e == p + t;
      var r := TrimStart(e);
      assert e[|p|] == t[0];
      assert r == e[|p|..] == t;
    }
  }

  /** A string with no white space at either end is its own trim. */
  lemma TrimTight(t: string)
    requires Tight(t)
    ensures Trim(t) == t
  {
    assert TrimEnd(t) == t;
    assert TrimStart(t) == t;
  }

  /** Trimming twice is trimming once. */
  lemma TrimIdempotent(s: string)
    ensures Trim(Trim(s)) == Trim(s)
  {
    TrimTight(Trim(s));
  }

  /** `toLowerCase` on one ASCII character. */
  function LowerChar(c: char): char {
    if 'A' <= c <= 'Z' then (c as int + 32) as char else c
  }

  /** `toUpperCase` on one ASCII character. */
  function UpperChar(c: char): char {
    if 'a' <= c <= 'z' then (c as int - 32) as char else c
  }

  /** `String.prototype.toLowerCase` over ASCII: the string with the same
      letters up to case and no upper-case letter left. */
  function ToLower(s: string): (r: string)
    ensures |r| == |s|
    ensures forall k :: 0 <= k < |s| ==> !('A' <= r[k] <= 'Z') && UpperChar(r[k]) == UpperChar(s[k])
  {
    seq(|s|, k requires 0 <= k < |s| => LowerChar(s[k]))
  }

  /** `String.prototype.toUpperCase` over ASCII: the string with the same
      letters up to case and no lower-case letter left. */
  function ToUpper(s: string): (r: string)
    ensures |r| == |s|
    ensures forall k :: 0 <= k < |s| ==> !('a' <= r[k] <= 'z') && LowerChar(r[k]) == LowerChar(s[k])
  {
    seq(|s|, k requires 0 <= k < |s| => UpperChar(s[k]))
  }

  /** Lower-casing keeps the length, and keeps white space, '@' and '.'
      exactly where they were. */
  lemma LowerKeepsClasses(s: string)
    ensures |ToLower(s)| == |s|
    ensures forall k :: 0 <= k < |s| ==>
      (IsSpace(ToLower(s)[k]) <==> IsSpace(s[k])) &&
      (ToLower(s)[k] == '@' <==> s[k] == '@') &&
      (ToLower(s)[k] == '.' <==> s[k] == '.')
  {
  }

  /** Lower-casing an already lower-cased string changes nothing. */
  lemma LowerIdempotent(s: string)
    ensures ToLower(ToLower(s)) == ToLower(s)
  {
  }

  /** Upper-casing puts no white space at either end of a string. */
  lemma UpperKeepsTight(s: string)
    requires Tight(s)
    ensures Tight(ToUpper(s))
  {
    if s != [] {
      assert ToUpper(s)[0] == UpperChar(s[0]);
      assert ToUpper(s)[|s| - 1] == UpperChar(s[|s| - 1]);
    }
  }

  /** A string without lower-case letters is recovered by upper-casing its
      lower-cased form: the round trip behind case-insensitive code lookup. */
  lemma UpperOfLower(s: string)
    requires ToUpper(s) == s
    ensures ToUpper(ToLower(s)) == s
  {
    forall k | 0 <= k < |s| ensures ToUpper(ToLower(s))[k] == s[k] {
      assert UpperChar(s[k]) == s[k];
    }
  }
}
