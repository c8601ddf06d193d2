/** The string helpers of the Go standard library that the modelled code relies on. */
module Strings {

  /** Splits at every occurrence of a one-character separator; the empty string yields one empty piece. */
  function Split(s: string, sep: char): (parts: seq<string>)
    ensures parts != []
    ensures forall i :: 0 <= i < |parts| ==> sep !in parts[i]
  {
    if s == "" then [""]
    else
      var rest := Split(s[1..], sep);
      if s[0] == sep then [""] + rest else [[s[0]] + rest[0]] + rest[1..]
  }

  /** A string without the separator in front of one does not get split itself. */
  lemma {:induction false} SplitPrefix(head: string, tail: string, sep: char)
    requires sep !in head
    ensures Split(head + [sep] + tail, sep) == [head] + Split(tail, sep)
  {
    var s := head + [sep] + tail;
    if head == "" {
      assert s[1..] == tail;
    } else {
      assert s[0] == head[0] && head[0] in head && s[1..] == head[1..] + [sep] + tail;
      SplitPrefix(head[1..], tail, sep);
      var rest := Split(s[1..], sep);
      assert rest[1..] == Split(tail, sep) && [s[0]] + rest[0] == head;
    }
  }

  lemma {:induction false} SplitWhole(s: string, sep: char)
    requires sep !in s
    ensures Split(s, sep) == [s]
  {
    if s != "" {
      assert s[0] in s;
      SplitWhole(s[1..], sep);
      assert [s[0]] + s[1..] == s;
    }
  }

  /** Replaces all leftmost, non-overlapping occurrences of a non-empty pattern. */
  function ReplaceAll(s: string, pattern: string, v: string): string
    requires pattern != ""
    decreases |s|
  {
    if s == "" then ""
    else if pattern <= s then v + ReplaceAll(s[|pattern|..], pattern, v)
    else [s[0]] + ReplaceAll(s[1..], pattern, v)
  }

  predicate Contains(s: string, sub: string) {
    exists i :: 0 <= i <= |s| - |sub| && sub <= s[i..]
  }

  lemma ContainedStarts(s: string, sub: string)
    requires sub != ""
    ensures Contains(s, sub) ==> sub[0] in s
  {
    if Contains(s, sub) {
      var i :| 0 <= i <= |s| - |sub| && sub <= s[i..];
      assert s[i..][0] == sub[0] && s[i] in s;
    }
  }

  /** A string contains another one when it can be cut into three pieces with that one in the middle. */
  lemma ContainsMeans(s: string, sub: string)
    ensures Contains(s, sub) <==> exists a: string, b: string :: s == a + sub + b
  {
    if Contains(s, sub) {
      var i :| 0 <= i <= |s| - |sub| && sub <= s[i..];
      assert s == s[..i] + sub + s[i..][|sub|..];
    }
    if a: string, b: string :| s == a + sub + b {
      assert sub <= s[|a|..];
    }
  }
}
