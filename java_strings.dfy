/**
  The few Java and Guava string operations the launcher and the build tasks
  rely on, written out so that their edge cases are explicit:
  `String.split` with a one-character literal separator, Guava's `Joiner`,
  `String.indexOf(char)`, `String.contains`, `String.equalsIgnoreCase`
  (ASCII letters only) and Guava's `Strings.isNullOrEmpty`.
 */
module JavaStrings {
  import opened Wrappers

  /** Every field between separators, empty ones included (`s.split(c, -1)`). */
  function RawSplit(s: string, c: char): (r: seq<string>)
    ensures |r| >= 1
  {
    if |s| == 0 then [""]
    else if s[0] == c then [""] + RawSplit(s[1..], c)
    else
      var t := RawSplit(s[1..], c);
      [[s[0]] + t[0]] + t[1..]
  }

  /** Drops the empty strings at the end of a sequence of fields. */
  function DropTrailingEmpty(parts: seq<string>): (r: seq<string>)
    ensures |r| <= |parts| && r == parts[..|r|]
    ensures r == [] || r[|r| - 1] != ""
    ensures forall i :: |r| <= i < |parts| ==> parts[i] == ""
  {
    if |parts| == 0 then []
    else if parts[|parts| - 1] == "" then DropTrailingEmpty(parts[..|parts| - 1])
    else parts
  }

  /**
    `s.split(c)` in Java, for a separator that is not a regular-expression
    metacharacter: when `c` does not occur the result is `[s]` (even for the
    empty string); otherwise it is the fields between separators with the
    trailing empty ones removed, so that "a," gives ["a"] and "," gives [].
   */
  function Split(s: string, c: char): (r: seq<string>)
  {
    if c !in s then [s] else DropTrailingEmpty(RawSplit(s, c))
  }

  /** Guava's `Joiner.on(c).join(parts)`. */
  function Join(parts: seq<string>, c: char): string
  {
    if |parts| == 0 then ""
    else if |parts| == 1 then parts[0]
    else parts[0] + [c] + Join(parts[1..], c)
  }

  /** The first position of `c` in `s`, or -1: `s.indexOf(c)`. */
  function IndexOf(s: string, c: char): (r: int)
    ensures -1 <= r < |s|
    ensures r == -1 <==> c !in s
    ensures r >= 0 ==> s[r] == c && c !in s[..r]
  {
    if |s| == 0 then -1
    else if s[0] == c then 0
    else
      var k := IndexOf(s[1..], c);
      if k == -1 then -1
      else
        assert s[..k + 1] == [s[0]] + s[1..][..k];
        k + 1
  }

  /** `sub` occurs in `s` starting at position `i`. */
  predicate OccursAt(s: string, sub: string, i: nat)
  {
    i + |sub| <= |s| && s[i..i + |sub|] == sub
  }

  /** `s.contains(sub)`. */
  function Contains(s: string, sub: string): (r: bool)
    ensures r <==> exists i: nat :: OccursAt(s, sub, i)
  {
    if |sub| <= |s| && s[..|sub|] == sub then
      assert OccursAt(s, sub, 0);
      true
    else if |s| == 0 then
      assert forall i: nat :: !OccursAt(s, sub, i);
      false
    else
      var r := Contains(s[1..], sub);
      assert forall i: nat :: OccursAt(s, sub, i + 1) <==> OccursAt(s[1..], sub, i);
      assert !OccursAt(s, sub, 0);
      assert forall i: nat :: OccursAt(s, sub, i) ==> i >= 1 && OccursAt(s[1..], sub, i - 1);
      r
  }

  /** `Character.toUpperCase` restricted to ASCII letters. */
  function ToUpperAscii(c: char): char
  {
    if 'a' <= c <= 'z' then (c as int - 32) as char else c
  }

  /** `String.equalsIgnoreCase`, folding the case of ASCII letters only. */
  predicate EqualsIgnoreCase(a: string, b: string)
  {
    |a| == |b| && forall i :: 0 <= i < |a| ==> ToUpperAscii(a[i]) == ToUpperAscii(b[i])
  }

  /** Guava's `Strings.isNullOrEmpty`. */
  predicate IsNullOrEmpty(s: Option<string>)
  {
    s.None? || s.value == ""
  }

  // ---------------------------------------------------------------------------
  // Properties

  /** Joining the raw fields with the separator gives back the string. */
  lemma {:induction false} JoinRawSplit(s: string, c: char)
    ensures Join(RawSplit(s, c), c) == s
  {
    if |s| == 0 {
    } else if s[0] == c {
      JoinRawSplit(s[1..], c);
      var t := RawSplit(s[1..], c);
      assert RawSplit(s, c) == [""] + t;
      assert ([""] + t)[1..] == t;
      assert s == [c] + s[1..];
    } else {
      JoinRawSplit(s[1..], c);
      var t := RawSplit(s[1..], c);
      var r := [[s[0]] + t[0]] + t[1..];
      assert RawSplit(s, c) == r;
      assert s == [s[0]] + s[1..];
      if |t| == 1 {
        assert Join(t, c) == t[0];
      } else {
        assert r[1..] == t[1..];
        assert Join(t, c) == t[0] + [c] + Join(t[1..], c);
      }
    }
  }

  /** No raw field contains the separator. */
  lemma {:induction false} RawSplitFieldsFree(s: string, c: char)
    ensures forall i :: 0 <= i < |RawSplit(s, c)| ==> c !in RawSplit(s, c)[i]
  {
    if |s| > 0 {
      RawSplitFieldsFree(s[1..], c);
    }
  }

  /**
    What `split` returns: a prefix of the raw fields, none of them holding the
    separator, and only empty fields are dropped after it.
   */
  lemma SplitFields(s: string, c: char)
    ensures c !in s ==> Split(s, c) == [s]
    ensures c in s ==> Split(s, c) == RawSplit(s, c)[..|Split(s, c)|]
    ensures c in s ==> forall i :: |Split(s, c)| <= i < |RawSplit(s, c)| ==> RawSplit(s, c)[i] == ""
    ensures c in s ==> Split(s, c) == [] || Split(s, c)[|Split(s, c)| - 1] != ""
    ensures forall i :: 0 <= i < |Split(s, c)| ==> c !in Split(s, c)[i]
  {
    RawSplitFieldsFree(s, c);
  }

  /** A string with no separator joins back from its split unchanged. */
  lemma {:induction false} SplitJoinNoSeparator(s: string, c: char, d: char)
    requires c !in s
    ensures Join(Split(s, c), d) == s
  {
  }
}
