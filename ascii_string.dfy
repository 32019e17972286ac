/** The two Arduino `String` operations the command dispatcher applies to its
    input: `toLowerCase` (C-locale `tolower` on every character) and `trim`
    (drop C-locale `isspace` characters at both ends). Both only look at ASCII
    characters, so applying them to Unicode characters, as here, gives the same
    result as applying them to the UTF-8 bytes of the same text. */
module AsciiString {

  /** C-locale `isspace`: space, tab, line feed, vertical tab, form feed, carriage return. */
  predicate IsSpace(c: char) {
    c == ' ' || c == '\t' || c == '\n' || c == '\U{0B}' || c == '\U{0C}' || c == '\r'
  }

  predicate IsUpper(c: char) {
    'A' <= c <= 'Z'
  }

  predicate AllSpace(s: string) {
    forall k :: 0 <= k < |s| ==> IsSpace(s[k])
  }

  predicate NoUpper(s: string) {
    forall k :: 0 <= k < |s| ==> !IsUpper(s[k])
  }

  /** C-locale `tolower` on one character. */
  function LowerChar(c: char): (d: char)
    ensures !IsUpper(d)
    ensures IsUpper(c) ==> d as int == c as int + 32
    ensures !IsUpper(c) ==> d == c
  {
    if IsUpper(c) then (c as int + 32) as char else c
  }

  /** `String::toLowerCase`: every character folded, length and order kept. */
  function ToLower(s: string): (r: string)
    ensures |r| == |s|
    ensures forall k :: 0 <= k < |s| ==> r[k] == LowerChar(s[k])
  {
    if s == [] then [] else [LowerChar(s[0])] + ToLower(s[1..])
  }

  /** The leading-whitespace half of `String::trim`: the longest suffix of `s`
      that does not start with whitespace. */
  function TrimLeft(s: string): (t: string)
    ensures |t| <= |s| && t == s[|s| - |t|..]
    ensures AllSpace(s[..|s| - |t|])
    ensures t == [] || !IsSpace(t[0])
  {
    if s != [] && IsSpace(s[0]) then TrimLeft(s[1..]) else s
  }

  /** The trailing-whitespace half of `String::trim`: the longest prefix of `s`
      that does not end with whitespace. */
  function TrimRight(s: string): (t: string)
    ensures |t| <= |s| && t == s[..|t|]
    ensures AllSpace(s[|t|..])
    ensures t == [] || !IsSpace(t[|t| - 1])
  {
    if s != [] && IsSpace(s[|s| - 1]) then TrimRight(s[..|s| - 1]) else s
  }

  /** `String::trim`: leading whitespace is skipped first, then trailing
      whitespace is cut from what is left. */
  function Trim(s: string): (t: string)
    ensures |t| <= |s|
    ensures t == [] || (!IsSpace(t[0]) && !IsSpace(t[|t| - 1]))
  {
    TrimRight(TrimLeft(s))
  }

  lemma {:induction false} ToLowerAppend(a: string, b: string)
    ensures ToLower(a + b) == ToLower(a) + ToLower(b)
    decreases |a|
  {
    if a == [] {
      assert a + b == b;
    } else {
      assert (a + b)[0] == a[0];
      assert (a + b)[1..] == a[1..] + b;
      ToLowerAppend(a[1..], b);
    }
  }

  /** Text without upper-case letters (in particular whitespace) is left as it is. */
  lemma ToLowerFixes(s: string)
    requires NoUpper(s)
    ensures ToLower(s) == s
  {
  }

  /** Folding cannot create upper-case letters, and trimming only cuts characters
      off the ends. */
  lemma TrimKeepsNoUpper(s: string)
    requires NoUpper(s)
    ensures NoUpper(TrimLeft(s)) && NoUpper(Trim(s))
  {
    var l := TrimLeft(s);
    NoUpperSlice(s, |s| - |l|, |s|);
    assert l == s[|s| - |l|..|s|];
    var t := TrimRight(l);
    NoUpperSlice(l, 0, |t|);
  }

  lemma NoUpperSlice(s: string, i: nat, j: nat)
    requires NoUpper(s) && i <= j <= |s|
    ensures NoUpper(s[i..j])
  {
    var u := s[i..j];
    forall k | 0 <= k < |u|
      ensures !IsUpper(u[k])
    {
      assert u[k] == s[i + k];
    }
  }

  /** Whitespace in front of the text is dropped entirely. */
  lemma {:induction false} TrimLeftSkipsSpaces(pre: string, s: string)
    requires AllSpace(pre)
    ensures TrimLeft(pre + s) == TrimLeft(s)
  {
    if pre != [] {
      assert (pre + s)[0] == pre[0];
      assert (pre + s)[1..] == pre[1..] + s;
      assert AllSpace(pre[1..]) by {
        forall k | 0 <= k < |pre[1..]| ensures IsSpace(pre[1..][k]) {
          assert pre[1..][k] == pre[k + 1];
        }
      }
      TrimLeftSkipsSpaces(pre[1..], s);
    } else {
      assert pre + s == s;
    }
  }

  /** Whitespace after the text is dropped entirely. */
  lemma {:induction false} TrimRightSkipsSpaces(s: string, post: string)
    requires AllSpace(post)
    ensures TrimRight(s + post) == TrimRight(s)
  {
    if post != [] {
      var p := post[..|post| - 1];
      assert (s + post)[|s + post| - 1] == post[|post| - 1];
      assert (s + post)[..|s + post| - 1] == s + p;
      assert AllSpace(p) by {
        forall k | 0 <= k < |p| ensures IsSpace(p[k]) {
          assert p[k] == post[k];
        }
      }
      TrimRightSkipsSpaces(s, p);
    } else {
      assert s + post == s;
    }
  }

  /** Skipping leading whitespace stops inside `s` unless `s` is all whitespace. */
  lemma {:induction false} TrimLeftAppend(s: string, u: string)
    ensures TrimLeft(s + u) == if AllSpace(s) then TrimLeft(u) else TrimLeft(s) + u
  {
    if s == [] {
      assert s + u == u;
    } else if IsSpace(s[0]) {
      assert (s + u)[0] == s[0];
      assert (s + u)[1..] == s[1..] + u;
      assert TrimLeft(s + u) == TrimLeft(s[1..] + u);
      assert TrimLeft(s) == TrimLeft(s[1..]);
      TrimLeftAppend(s[1..], u);
      AllSpaceCons(s);
    } else {
      assert (s + u)[0] == s[0];
      assert !AllSpace(s);
    }
  }

  lemma AllSpaceCons(s: string)
    requires s != [] && IsSpace(s[0])
    ensures AllSpace(s) <==> AllSpace(s[1..])
  {
    if AllSpace(s[1..]) {
      forall k | 0 <= k < |s| ensures IsSpace(s[k]) {
        if k > 0 { assert s[k] == s[1..][k - 1]; }
      }
    }
  }

  /** `trim` ignores any whitespace around the text. */
  lemma TrimIgnoresSurroundingSpace(pre: string, s: string, post: string)
    requires AllSpace(pre) && AllSpace(post)
    ensures Trim(pre + s + post) == Trim(s)
  {
    assert pre + s + post == pre + (s + post);
    TrimLeftSkipsSpaces(pre, s + post);
    TrimLeftAppend(s, post);
    if AllSpace(s) {
      AllSpaceTrimsAway(post);
      AllSpaceTrimsAway(s);
    } else {
      TrimRightSkipsSpaces(TrimLeft(s), post);
    }
  }

  lemma AllSpaceTrimsAway(s: string)
    requires AllSpace(s)
    ensures TrimLeft(s) == []
  {
    TrimLeftSkipsSpaces(s, []);
    assert s + [] == s;
  }

  /** Text that neither starts nor ends with whitespace is its own trim. */
  lemma TrimFixes(s: string)
    requires s == [] || (!IsSpace(s[0]) && !IsSpace(s[|s| - 1]))
    ensures Trim(s) == s
  {
    if s != [] {
      assert TrimLeft(s) == s;
      assert TrimRight(s) == s;
    }
  }
}
