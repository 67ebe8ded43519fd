/**
 * The two JavaScript string built-ins the page relies on for its decisions:
 * String.prototype.trim (edit keys) and String.prototype.toLowerCase (extensions).
 */
module Strings {

  /** The characters trim() removes: ECMAScript WhiteSpace and LineTerminator code points. */
  predicate IsTrimmable(c: char) {
    || c == '\t' || c == '\n' || c == '\U{000B}' || c == '\U{000C}' || c == '\r' || c == ' '
    || c == '\U{00A0}' || c == '\U{1680}' || ('\U{2000}' <= c <= '\U{200A}')
    || c == '\U{2028}' || c == '\U{2029}' || c == '\U{202F}' || c == '\U{205F}'
    || c == '\U{3000}' || c == '\U{FEFF}'
  }

  /** Neither end of s is a trimmable character. */
  predicate IsTrimmed(s: string) {
    s == [] || (!IsTrimmable(s[0]) && !IsTrimmable(s[|s| - 1]))
  }

  /**
   * String.prototype.trim: removes the trimmable characters at the start, then those at
   * the end, one at a time.
   */
  function Trim(s: string): (r: string)
    ensures IsTrimmed(r)
    ensures |r| <= |s|
  {
    if s != [] && IsTrimmable(s[0]) then Trim(s[1..])
    else if s != [] && IsTrimmable(s[|s| - 1]) then Trim(s[..|s| - 1])
    else s
  }

  /**
   * What trim() leaves is the slice s[a..b] between a run of trimmable characters at the
   * start and a run of trimmable characters at the end.
   */
  lemma {:induction false} TrimIsSlice(s: string) returns (a: nat, b: nat)
    ensures a <= b <= |s| && Trim(s) == s[a..b]
    ensures forall i :: 0 <= i < a ==> IsTrimmable(s[i])
    ensures forall i :: b <= i < |s| ==> IsTrimmable(s[i])
    decreases |s|
  {
    if s != [] && IsTrimmable(s[0]) {
      var t := s[1..];
      var a', b' := TrimIsSlice(t);
      a, b := a' + 1, b' + 1;
      assert t[a'..b'] == s[a..b];
      forall i | 0 < i < a ensures IsTrimmable(s[i]) { assert s[i] == t[i - 1]; }
      forall i | b <= i < |s| ensures IsTrimmable(s[i]) { assert s[i] == t[i - 1]; }
    } else if s != [] && IsTrimmable(s[|s| - 1]) {
      var p := s[..|s| - 1];
      a, b := TrimIsSlice(p);
      assert p[a..b] == s[a..b];
      forall i | b <= i < |s| ensures IsTrimmable(s[i]) {
        if i < |p| { assert s[i] == p[i]; }
      }
    } else {
      a, b := 0, |s|;
      assert s[a..b] == s;
    }
  }

  /** Trimming changes nothing exactly when neither end is trimmable. */
  lemma TrimFixedIff(s: string)
    ensures Trim(s) == s <==> IsTrimmed(s)
  {

  }

  /** Trimming a trimmed string changes nothing. */
  lemma TrimIdempotent(s: string)
    ensures Trim(Trim(s)) == Trim(s)
  {
    TrimFixedIff(Trim(s));
  }

  /** The ASCII part of toLowerCase: A-Z become a-z, every other character is kept. */
  function LowerChar(c: char): char {
    if 'A' <= c <= 'Z' then (c as int + 32) as char else c
  }

  /** toLowerCase, character by character (ASCII letters only; see README). */
  function ToLower(s: string): (r: string)
    ensures |r| == |s|
    ensures forall i :: 0 <= i < |s| ==> r[i] == LowerChar(s[i])
  {
    if s == [] then [] else [LowerChar(s[0])] + ToLower(s[1..])
  }

  /** Lower-casing commutes with taking a suffix. */
  lemma ToLowerSlice(s: string, i: nat)
    requires i <= |s|
    ensures ToLower(s[i..]) == ToLower(s)[i..]
  {
  }

  /** Lower-casing is idempotent. */
  lemma ToLowerIdempotent(s: string)
    ensures ToLower(ToLower(s)) == ToLower(s)
  {
  }
}
