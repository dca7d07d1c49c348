/** Character classes and whitespace trimming, as the C library's `isspace`
    and the assembler's `ltrim` and `rtrim` see them. */
module Text {

  /** `isspace` in the C locale: space, tab, newline, vertical tab, form feed
      and carriage return. */
  predicate IsSpace(c: char)
  {
    c == ' ' || c == '\t' || c == '\n' || c == '\U{B}' || c == '\U{C}' || c == '\r'
  }

  predicate AllSpace(s: string)
  {
    forall i | 0 <= i < |s| :: IsSpace(s[i])
  }

  /** `ltrim`: the string from its first non-space character on. */
  function TrimLeft(s: string): (t: string)
    ensures |t| <= |s|
    ensures |t| > 0 ==> !IsSpace(t[0]) && t[|t| - 1] == s[|s| - 1]
  {
    if |s| > 0 && IsSpace(s[0]) then TrimLeft(s[1..]) else s
  }

  /** What `ltrim` removes is white space, and what it keeps is the rest of
      the string. */
  lemma {:induction false} TrimLeftSuffix(s: string)
    ensures var t := TrimLeft(s); t == s[|s| - |t|..] && AllSpace(s[..|s| - |t|])
  {
    if |s| > 0 && IsSpace(s[0]) {
      TrimLeftSuffix(s[1..]);
      var t := TrimLeft(s);
      assert s[1..][|s| - 1 - |t|..] == s[|s| - |t|..];
      var k := |s| - |t|;
      forall i | 0 <= i < k ensures IsSpace(s[..k][i]) {
        if i > 0 {
          assert s[..k][i] == s[1..][..k - 1][i - 1];
        }
      }
    }
  }

  /** `rtrim`: the string up to its last non-space character. */
  function TrimRight(s: string): (t: string)
    ensures |t| <= |s| && t == s[..|t|]
    ensures AllSpace(s[|t|..])
    ensures |t| > 0 ==> !IsSpace(t[|t| - 1])
  {
    if |s| > 0 && IsSpace(s[|s| - 1]) then TrimRight(s[..|s| - 1]) else s
  }

  /** Leading spaces are all `ltrim` removes: the result is determined by the
      text after them. */
  lemma {:induction false} TrimLeftSkipsSpace(spaces: string, s: string)
    requires AllSpace(spaces)
    ensures TrimLeft(spaces + s) == TrimLeft(s)
  {
    if |spaces| > 0 {
      var t := spaces + s;
      assert t[0] == spaces[0] && IsSpace(t[0]);
      assert t[1..] == spaces[1..] + s;
      assert TrimLeft(t) == TrimLeft(t[1..]);
      assert AllSpace(spaces[1..]) by {
        forall i | 0 <= i < |spaces[1..]| ensures IsSpace(spaces[1..][i]) {
          assert spaces[1..][i] == spaces[i + 1];
        }
      }
      TrimLeftSkipsSpace(spaces[1..], s);
    } else {
      assert spaces + s == s;
    }
  }

  /** Trailing spaces are all `rtrim` removes. */
  lemma {:induction false} TrimRightSkipsSpace(s: string, spaces: string)
    requires AllSpace(spaces)
    ensures TrimRight(s + spaces) == TrimRight(s)
  {
    if |spaces| > 0 {
      var n := |spaces| - 1;
      var t := s + spaces;
      assert t[|t| - 1] == spaces[n] && IsSpace(t[|t| - 1]);
      assert t[..|t| - 1] == s + spaces[..n];
      assert TrimRight(t) == TrimRight(t[..|t| - 1]);
      assert AllSpace(spaces[..n]) by {
        forall i | 0 <= i < n ensures IsSpace(spaces[..n][i]) {
          assert spaces[..n][i] == spaces[i];
        }
      }
      TrimRightSkipsSpace(s, spaces[..n]);
    } else {
      assert s + spaces == s;
    }
  }

  /** No character of s is in the set. */
  predicate Avoids(s: string, cs: set<char>)
  {
    forall i | 0 <= i < |s| :: s[i] !in cs
  }

  /** `strcspn`: the length of the longest prefix of s with no character in
      the set (also how far a `%[^...]` conversion of `sscanf` reads). */
  function Strcspn(s: string, reject: set<char>): (n: nat)
    ensures n <= |s|
    ensures Avoids(s[..n], reject)
    ensures n < |s| ==> s[n] in reject
  {
    if |s| == 0 || s[0] in reject then 0
    else
      var n := 1 + Strcspn(s[1..], reject);
      assert forall i | 1 <= i < n :: s[..n][i] == s[1..][..n - 1][i - 1];
      n
  }

  /** The span is the first position holding a rejected character. */
  lemma StrcspnStops(s: string, reject: set<char>, n: nat)
    requires n <= |s| && Avoids(s[..n], reject) && (n < |s| ==> s[n] in reject)
    ensures Strcspn(s, reject) == n
  {
    var k := Strcspn(s, reject);
    if k < n {
      assert false;
    } else if k > n {
      assert false;
    }
  }

  /** `strncpy` into a buffer of n characters plus a terminator. */
  function Prefix(s: string, n: nat): (t: string)
    ensures |t| == if |s| < n then |s| else n
    ensures t == s[..|t|]
  {
    if |s| < n then s else s[..n]
  }
}
