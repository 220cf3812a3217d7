/**
 * PHP's `trim()` with its default character list, as applied to the submitted
 * passcode. PHP trims bytes; the stripped characters are all ASCII, so
 * trimming characters of a UTF-8 string gives the same result.
 */
module PhpText {

  /** Space, tab, line feed, carriage return, NUL and vertical tab. */
  predicate IsTrimChar(c: char) {
    c == ' ' || c == '\t' || c == '\n' || c == '\r' || c == '\0' || c == '\U{B}'
  }

  predicate AllTrimChars(s: string) {
    forall i :: 0 <= i < |s| ==> IsTrimChar(s[i])
  }

  /** `ltrim`: drops the leading trim characters and nothing else. */
  function TrimStart(s: string): (r: string)
    ensures |r| <= |s| && r == s[|s| - |r|..]
    ensures r == [] || !IsTrimChar(r[0])
    ensures forall k :: 0 <= k < |s| - |r| ==> IsTrimChar(s[k])
  {
    if s != [] && IsTrimChar(s[0]) then
      var r := TrimStart(s[1..]);
      assert s[1..][|s| - 1 - |r|..] == s[|s| - |r|..];
      r
    else
      s
  }

  /** `rtrim`: drops the trailing trim characters and nothing else. */
  function TrimEnd(s: string): (r: string)
    ensures |r| <= |s| && r == s[..|r|]
    ensures r == [] || !IsTrimChar(r[|r| - 1])
    ensures forall k :: |r| <= k < |s| ==> IsTrimChar(s[k])
  {
    if s != [] && IsTrimChar(s[|s| - 1]) then
      var r := TrimEnd(s[..|s| - 1]);
      assert s[..|s| - 1][..|r|] == s[..|r|];
      r
    else
      s
  }

  /** `trim`: the result neither starts nor ends with a trim character. */
  function Trim(s: string): (r: string)
    ensures |r| <= |s|
    ensures r == [] || (!IsTrimChar(r[0]) && !IsTrimChar(r[|r| - 1]))
  {
    TrimEnd(TrimStart(s))
  }

  /** Trimming keeps one contiguous slice of the input and strips only trim characters around it. */
  lemma TrimSpan(s: string) returns (i: nat, j: nat)
    ensures i <= j <= |s| && Trim(s) == s[i..j]
    ensures forall k :: 0 <= k < i ==> IsTrimChar(s[k])
    ensures forall k :: j <= k < |s| ==> IsTrimChar(s[k])
  {
    var t := TrimStart(s);
    i := |s| - |t|;
    j := i + |Trim(s)|;
    assert t == s[i..];
    assert Trim(s) == t[..|Trim(s)|];
    forall k | j <= k < |s| ensures IsTrimChar(s[k]) {
      assert s[k] == t[k - i];
    }
  }

  /** A string that already starts and ends with a kept character is its own trim. */
  lemma TrimKeeps(s: string)
    requires s == [] || (!IsTrimChar(s[0]) && !IsTrimChar(s[|s| - 1]))
    ensures Trim(s) == s
  {
  }

  lemma TrimIdempotent(s: string)
    ensures Trim(Trim(s)) == Trim(s)
  {
    TrimKeeps(Trim(s));
  }

  /** The trimmed input is empty exactly when the raw input held only trim characters. */
  lemma TrimEmptyIff(s: string)
    ensures Trim(s) == [] <==> AllTrimChars(s)
  {
    var i, j := TrimSpan(s);
    if Trim(s) != [] {
      assert Trim(s)[0] == s[i];
    }
  }

  lemma {:induction false} TrimStartSkips(pre: string, t: string)
    requires AllTrimChars(pre) && (t == [] || !IsTrimChar(t[0]))
    ensures TrimStart(pre + t) == t
    decreases |pre|
  {
    if pre == [] {
      assert pre + t == t;
    } else {
      assert (pre + t)[1..] == pre[1..] + t;
      TrimStartSkips(pre[1..], t);
    }
  }

  lemma {:induction false} TrimEndSkips(t: string, post: string)
    requires AllTrimChars(post) && (t == [] || !IsTrimChar(t[|t| - 1]))
    ensures TrimEnd(t + post) == t
    decreases |post|
  {
    if post == [] {
      assert t + post == t;
    } else {
      assert (t + post)[..|t + post| - 1] == t + post[..|post| - 1];
      TrimEndSkips(t, post[..|post| - 1]);
    }
  }

  /** Whitespace padding around a kept string is exactly what trimming removes. */
  lemma TrimStripsPadding(pre: string, s: string, post: string)
    requires AllTrimChars(pre) && AllTrimChars(post)
    requires s == [] || (!IsTrimChar(s[0]) && !IsTrimChar(s[|s| - 1]))
    ensures Trim(pre + s + post) == s
  {
    if s == [] {
      assert pre + s + post == pre + post;
      TrimEmptyIff(pre + post);
    } else {
      assert pre + s + post == pre + (s + post);
      TrimStartSkips(pre, s + post);
      TrimEndSkips(s, post);
    }
  }
}
