/**
 * The JavaScript string operations the program depends on, for strings of characters:
 * `split` and `join` on a one-character separator, and the ASCII case folding
 * that a case-insensitive regular expression applies to letters.
 */
module Strings {

  /** `s.split(sep)`: the maximal runs of non-separator characters, empty runs included. */
  function Split(s: string, sep: char): (parts: seq<string>)
    ensures |parts| == multiset(s)[sep] + 1
    ensures forall i :: 0 <= i < |parts| ==> sep !in parts[i]
    decreases |s|
  {
    if s == [] then [[]]
    else
      var rest := Split(s[1..], sep);
      assert s == [s[0]] + s[1..];
      if s[0] == sep then [[]] + rest
      else [[s[0]] + rest[0]] + rest[1..]
  }

  /** `parts.join(sep)`: the empty list joins to the empty string. */
  function Join(parts: seq<string>, sep: char): string
    decreases |parts|
  {
    if |parts| == 0 then []
    else if |parts| == 1 then parts[0]
    else parts[0] + [sep] + Join(parts[1..], sep)
  }

  /** Joining is empty only when there is nothing to join or a single empty part. */
  lemma {:induction false} JoinEmptyIff(parts: seq<string>, sep: char)
    ensures Join(parts, sep) == [] <==> (|parts| == 0 || (|parts| == 1 && parts[0] == []))
  {
    if |parts| >= 2 {
      assert |Join(parts, sep)| >= 1;
    }
  }

  /** Splitting what was joined gives the parts back when none of them holds the separator. */
  lemma {:induction false} SplitJoin(parts: seq<string>, sep: char)
    requires |parts| >= 1
    requires forall i :: 0 <= i < |parts| ==> sep !in parts[i]
    ensures Split(Join(parts, sep), sep) == parts
  {
    if |parts| == 1 {
      SplitNoSeparator(parts[0], sep);
    } else {
      SplitJoin(parts[1..], sep);
      SplitFirstField(parts[0], Join(parts[1..], sep), sep);
      assert parts == [parts[0]] + parts[1..];
    }
  }

  /** A string without the separator splits into itself alone. */
  lemma {:induction false} SplitNoSeparator(s: string, sep: char)
    requires sep !in s
    ensures Split(s, sep) == [s]
    decreases |s|
  {
    if s != [] {
      SplitNoSeparator(s[1..], sep);
      assert s == [s[0]] + s[1..];
    }
  }

  /** The first field ends at the first separator. */
  lemma {:induction false} SplitFirstField(p: string, t: string, sep: char)
    requires sep !in p
    ensures Split(p + [sep] + t, sep) == [p] + Split(t, sep)
    decreases |p|
  {
    if p == [] {
      assert p + [sep] + t == [sep] + t;
      assert (p + [sep] + t)[1..] == t;
    } else {
      assert (p + [sep] + t)[1..] == p[1..] + [sep] + t;
      SplitFirstField(p[1..], t, sep);
      assert [p[0]] + p[1..] == p;
    }
  }

  /** Joining one more part in front of at least one other. */
  lemma JoinCons(a: string, rest: seq<string>, sep: char)
    requires |rest| >= 1
    ensures Join([a] + rest, sep) == a + [sep] + Join(rest, sep)
  {
    assert ([a] + rest)[0] == a && ([a] + rest)[1..] == rest;
  }

  /** The position of the first separator in a string that holds one. */
  lemma {:induction false} FirstSeparator(s: string, sep: char) returns (k: nat)
    requires sep in s
    ensures k < |s| && s[k] == sep && sep !in s[..k]
    decreases |s|
  {
    if s[0] == sep {
      k := 0;
    } else {
      assert s == [s[0]] + s[1..];
      var k' := FirstSeparator(s[1..], sep);
      k := k' + 1;
      assert s[..k] == [s[0]] + s[1..][..k'];
    }
  }

  /** Joining the fields of a split restores the string. */
  lemma {:induction false} JoinSplit(s: string, sep: char)
    ensures Join(Split(s, sep), sep) == s
    decreases |s|
  {
    if sep !in s {
      SplitNoSeparator(s, sep);
    } else {
      var k := FirstSeparator(s, sep);
      var p, t := s[..k], s[k + 1..];
      assert s == p + [sep] + t;
      SplitFirstField(p, t, sep);
      JoinSplit(t, sep);
      JoinCons(p, Split(t, sep), sep);
    }
  }

  /** The character ASCII case folding maps `ch` to: 'A'..'Z' become 'a'..'z'. */
  function LowerAscii(ch: char): (r: char)
    ensures 'A' <= ch <= 'Z' ==> 'a' <= r <= 'z' && r as int - ch as int == 32
    ensures !('A' <= ch <= 'Z') ==> r == ch
  {
    if 'A' <= ch <= 'Z' then (ch as int + 32) as char else ch
  }

  /** `s` equals the lower-case word `w` when case is ignored. */
  predicate EqualsIgnoringCase(s: string, w: string) {
    |s| == |w| && forall i :: 0 <= i < |s| ==> LowerAscii(s[i]) == w[i]
  }
}
