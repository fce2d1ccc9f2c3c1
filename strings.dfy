/**
 * Text helpers shared by the modules below: the handful of Python string
 * operations the source relies on (`startswith`, `strip`, `join`, `split`),
 * written out over `seq<char>`.
 */
module Strings {

  predicate StartsWith(s: string, prefix: string)
  {
    |prefix| <= |s| && s[..|prefix|] == prefix
  }

  /** Regrouping a concatenation of three sequences. */
  lemma ConcatAssoc<T>(x: seq<T>, y: seq<T>, z: seq<T>)
    ensures (x + y) + z == x + (y + z)
  {
  }

  predicate EndsWith(s: string, suffix: string)
  {
    |suffix| <= |s| && s[|s| - |suffix|..] == suffix
  }

  /** `pat` occurs somewhere in `s`. */
  predicate Contains(s: string, pat: string)
    decreases |s|
  {
    StartsWith(s, pat) || (s != [] && Contains(s[1..], pat))
  }

  /**
   * The ASCII whitespace characters of Python's `str.strip()` and `\s`: space,
   * tab, line feed, vertical tab, form feed, carriage return and the four
   * separators U+001C to U+001F.
   */
  predicate IsSpace(c: char)
  {
    c == ' ' || c == '\t' || c == '\n' || c == '\r' || c == '\U{000B}' || c == '\U{000C}'
      || ('\U{001C}' <= c <= '\U{001F}')
  }

  function LStrip(s: string): (r: string)
    ensures |r| <= |s| && r == s[|s| - |r|..]
    ensures r == [] || !IsSpace(r[0])
    ensures forall i :: 0 <= i < |s| - |r| ==> IsSpace(s[i])
  {
    if s != [] && IsSpace(s[0]) then LStrip(s[1..]) else s
  }

  function RStrip(s: string): (r: string)
    ensures |r| <= |s| && r == s[..|r|]
    ensures r == [] || !IsSpace(r[|r| - 1])
    ensures forall i :: |r| <= i < |s| ==> IsSpace(s[i])
  {
    if s != [] && IsSpace(s[|s| - 1]) then RStrip(s[..|s| - 1]) else s
  }

  /** Python's `s.strip()`. */
  function Strip(s: string): (r: string)
    ensures |r| <= |s|
  {
    RStrip(LStrip(s))
  }

  /** Text that begins and ends with a non-space character is its own strip. */
  lemma StripUnchanged(s: string)
    requires s == [] || (!IsSpace(s[0]) && !IsSpace(s[|s| - 1]))
    ensures Strip(s) == s
  {
  }

  /** Python's `sep.join(parts)`. */
  function Join(sep: string, parts: seq<string>): string
  {
    if |parts| == 0 then ""
    else if |parts| == 1 then parts[0]
    else parts[0] + sep + Join(sep, parts[1..])
  }

  /** Two or more parts are joined with the separator after the first. */
  lemma JoinSeveral(sep: string, parts: seq<string>)
    requires |parts| >= 2
    ensures Join(sep, parts) == parts[0] + sep + Join(sep, parts[1..])
    ensures |Join(sep, parts)| >= |sep|
  {
  }

  /** Joining one more part adds the separator and that part at the end. */
  lemma {:induction false} JoinAppend(sep: string, parts: seq<string>, p: string)
    ensures Join(sep, parts + [p]) == if parts == [] then p else Join(sep, parts) + sep + p
  {
    if |parts| == 1 {
      assert parts + [p] == [parts[0], p];
    } else if |parts| > 1 {
      assert (parts + [p])[1..] == parts[1..] + [p];
      JoinAppend(sep, parts[1..], p);
    }
  }

  /** Python's `"".join(parts)`. */
  function Concat(parts: seq<string>): string
  {
    if parts == [] then "" else parts[0] + Concat(parts[1..])
  }

  lemma {:induction false} ConcatAppend(a: seq<string>, b: seq<string>)
    ensures Concat(a + b) == Concat(a) + Concat(b)
  {
    if a != [] {
      assert (a + b)[1..] == a[1..] + b;
      ConcatAppend(a[1..], b);
    } else {
      assert a + b == b;
    }
  }

  /** Index of the first occurrence of `c` in `s`, or `|s|` when there is none. */
  function IndexOfChar(s: string, c: char): (i: nat)
    ensures i <= |s|
    ensures i < |s| ==> s[i] == c
    ensures c !in s[..i]
  {
    if s == [] then 0
    else if s[0] == c then 0
    else 1 + IndexOfChar(s[1..], c)
  }

  /** Python's `s.split(c)` for a one-character separator. */
  function SplitOn(s: string, c: char): (parts: seq<string>)
    ensures |parts| >= 1
    ensures forall p :: p in parts ==> |p| <= |s| && c !in p
    decreases |s|
  {
    var i := IndexOfChar(s, c);
    if i == |s| then [s] else [s[..i]] + SplitOn(s[i + 1..], c)
  }

  /** Joining the pieces of a split with the separator gives the text back. */
  lemma {:induction false} JoinSplitOn(s: string, c: char)
    ensures Join([c], SplitOn(s, c)) == s
    decreases |s|
  {
    var i := IndexOfChar(s, c);
    if i < |s| {
      var rest := SplitOn(s[i + 1..], c);
      calc {
        Join([c], SplitOn(s, c));
        { JoinSeveral([c], [s[..i]] + rest); assert ([s[..i]] + rest)[1..] == rest; }
        s[..i] + [c] + Join([c], rest);
        { JoinSplitOn(s[i + 1..], c); }
        s[..i] + [c] + s[i + 1..];
        s;
      }
    }
  }

  /** Splitting a join on a separator that occurs in no part gives the parts back. */
  lemma {:induction false} SplitOnJoin(parts: seq<string>, c: char)
    requires |parts| >= 1
    requires forall p :: p in parts ==> c !in p
    ensures SplitOn(Join([c], parts), c) == parts
  {
    if |parts| == 1 {
      NoCharIndex(parts[0], c);
    } else {
      var a, b := parts[0], Join([c], parts[1..]);
      assert c !in a by { assert a in parts; }
      assert forall p :: p in parts[1..] ==> p in parts;
      calc {
        SplitOn(Join([c], parts), c);
        { JoinSeveral([c], parts); }
        SplitOn(a + [c] + b, c);
        { SplitOnCons(a, c, b); }
        [a] + SplitOn(b, c);
        { SplitOnJoin(parts[1..], c); }
        [a] + parts[1..];
        parts;
      }
    }
  }

  lemma SplitOnCons(a: string, c: char, b: string)
    requires c !in a
    ensures SplitOn(a + [c] + b, c) == [a] + SplitOn(b, c)
  {
    var s := a + [c] + b;
    PrefixIndex(a, c, b);
    assert s[..|a|] == a;
    assert s[|a| + 1..] == b;
  }

  lemma {:induction false} NoCharIndex(s: string, c: char)
    requires c !in s
    ensures IndexOfChar(s, c) == |s|
  {
    if s != [] {
      NoCharIndex(s[1..], c);
    }
  }

  lemma {:induction false} PrefixIndex(a: string, c: char, b: string)
    requires c !in a
    ensures IndexOfChar(a + [c] + b, c) == |a|
  {
    if a != [] {
      assert (a + [c] + b)[1..] == a[1..] + [c] + b;
      PrefixIndex(a[1..], c, b);
    }
  }
}
