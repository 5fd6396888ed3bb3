/** `String.prototype.trim`, which the task form applies to the title and the description. */
module Text {

  /** ECMAScript's WhiteSpace outside the block of space separators U+2000..U+200A: tab, vertical tab,
      form feed, space, no-break space, the byte order mark and the other space separators. */
  const WhiteSpace: set<char> :=
    {'\t', '\U{B}', '\U{C}', ' ', '\U{A0}', '\U{FEFF}', '\U{1680}', '\U{202F}', '\U{205F}', '\U{3000}'}

  /** ECMAScript's LineTerminators. */
  const LineTerminators: set<char> := {'\n', '\r', '\U{2028}', '\U{2029}'}

  /** The characters `trim` removes. */
  predicate IsTrimmable(c: char)
  {
    c in WhiteSpace || c in LineTerminators || '\U{2000}' <= c <= '\U{200A}'
  }

  /** How many trimmable characters `s` starts with. */
  function Leading(s: string): (n: nat)
    ensures n <= |s|
    ensures forall k :: 0 <= k < n ==> IsTrimmable(s[k])
    ensures n < |s| ==> !IsTrimmable(s[n])
  {
    if s != [] && IsTrimmable(s[0]) then 1 + Leading(s[1..]) else 0
  }

  /** Where the trailing run of trimmable characters of `s[lo..hi]` begins. */
  function TrailingFrom(s: string, lo: nat, hi: nat): (n: nat)
    requires lo <= hi <= |s|
    ensures lo <= n <= hi
    ensures forall k :: n <= k < hi ==> IsTrimmable(s[k])
    ensures lo < n ==> !IsTrimmable(s[n - 1])
    decreases hi
  {
    if lo < hi && IsTrimmable(s[hi - 1]) then TrailingFrom(s, lo, hi - 1) else hi
  }

  /** The middle of `s`: what is cut off on either side is all trimmable, and what is left
      neither starts nor ends with a trimmable character. It is empty exactly when `s` is all trimmable. */
  function Trim(s: string): (r: string)
    ensures var i := Leading(s);
      && i + |r| <= |s| && r == s[i..i + |r|]
      && (forall k :: 0 <= k < i ==> IsTrimmable(s[k]))
      && (forall k :: i + |r| <= k < |s| ==> IsTrimmable(s[k]))
    ensures r != [] ==> !IsTrimmable(r[0]) && !IsTrimmable(r[|r| - 1])
    ensures r == [] <==> forall k :: 0 <= k < |s| ==> IsTrimmable(s[k])
  {
    var i := Leading(s);
    var j := TrailingFrom(s, i, |s|);
    assert i < j ==> s[i..j][0] == s[i] && s[i..j][j - i - 1] == s[j - 1];
    s[i..j]
  }

  /** Trimming twice is trimming once. */
  lemma TrimIdempotent(s: string)
    ensures Trim(Trim(s)) == Trim(s)
  {
    var t := Trim(s);
    if t != [] {
      assert Leading(t) == 0;
      assert TrailingFrom(t, 0, |t|) == |t|;
      assert t[0..|t|] == t;
    }
  }
}
