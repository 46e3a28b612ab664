/** The few Python string operations the cleaning helpers rely on:
    `s.split(sep)` with an explicit one-character separator, its inverse
    `sep.join(parts)`, and slicing with a non-negative bound, which Python
    clamps to the length of the string instead of failing. */
module PyStrings {

  /** `s.split(sep)` for a one-character `sep`: every occurrence of `sep`
      closes a part, empty parts are kept (`"".split(' ') == ['']`,
      `"a ".split(' ') == ['a', '']`), so the result is never empty. */
  function Split(s: string, sep: char): (parts: seq<string>)
    ensures |parts| >= 1
  {
    if s == [] then [[]]
    else
      var rest := Split(s[1..], sep);
      if s[0] == sep then [[]] + rest
      else [[s[0]] + rest[0]] + rest[1..]
  }

  /** `sep.join(parts)`: the parts with one `sep` between neighbours. */
  function Join(parts: seq<string>, sep: char): string
  {
    if |parts| == 0 then []
    else if |parts| == 1 then parts[0]
    else parts[0] + [sep] + Join(parts[1..], sep)
  }

  /** `s[:j]` for `j >= 0`. */
  function SliceTo(s: string, j: nat): (r: string)
    ensures r <= s && |r| == if j <= |s| then j else |s|
  {
    if j <= |s| then s[..j] else s
  }

  /** `s[i:]` for `i >= 0`. */
  function SliceFrom(s: string, i: nat): (r: string)
    ensures |r| == if i <= |s| then |s| - i else 0
    ensures r == s[|s| - |r|..]
  {
    if i <= |s| then s[i..] else []
  }

  /** There is one more part than there are separators in `s`. */
  lemma {:induction false} SplitCount(s: string, sep: char)
    ensures |Split(s, sep)| == multiset(s)[sep] + 1
  {
    if s != [] {
      SplitCount(s[1..], sep);
      assert s == [s[0]] + s[1..];
      assert multiset(s) == multiset([s[0]]) + multiset(s[1..]);
    }
  }

  /** The first part is the prefix of `s` up to (not including) the first
      separator, or all of `s` when it holds no separator. */
  lemma {:induction false} SplitFirst(s: string, sep: char)
    ensures var first := Split(s, sep)[0];
      && first <= s
      && sep !in first
      && (|first| < |s| ==> s[|first|] == sep)
  {
    if s != [] && s[0] != sep {
      SplitFirst(s[1..], sep);
    }
  }

  /** No part contains the separator. */
  lemma {:induction false} SplitPartsFree(s: string, sep: char)
    ensures forall i :: 0 <= i < |Split(s, sep)| ==> sep !in Split(s, sep)[i]
  {
    if s != [] {
      SplitPartsFree(s[1..], sep);
      var rest := Split(s[1..], sep);
      if s[0] != sep {
        var parts := Split(s, sep);
        forall i | 0 <= i < |parts|
          ensures sep !in parts[i]
        {
          if i == 0 {
            assert parts[0] == [s[0]] + rest[0];
          } else {
            assert parts[i] == rest[i];
          }
        }
      }
    }
  }

  /** Joining the parts back with the separator gives `s` again. */
  lemma {:induction false} JoinSplit(s: string, sep: char)
    ensures Join(Split(s, sep), sep) == s
  {
    if s != [] {
      var rest := Split(s[1..], sep);
      JoinSplit(s[1..], sep);
      if s[0] == sep {
        assert Split(s, sep)[1..] == rest;
        assert s == [sep] + s[1..];
      } else {
        var parts := Split(s, sep);
        assert parts[1..] == rest[1..];
        if |rest| == 1 {
          assert s == [s[0]] + rest[0];
        } else {
          assert Join(rest, sep) == rest[0] + [sep] + Join(rest[1..], sep);
          assert s == [s[0]] + rest[0] + [sep] + Join(rest[1..], sep);
        }
      }
    }
  }

  /** Splitting `p + t` where `p` has no separator glues `p` onto the first
      part of `t`. */
  lemma {:induction false} SplitGluesPrefix(p: string, t: string, sep: char)
    requires sep !in p
    ensures Split(p + t, sep) == [p + Split(t, sep)[0]] + Split(t, sep)[1..]
  {
    if p == [] {
      var s := Split(t, sep);
      assert p + t == t && p + s[0] == s[0];
      assert s == [s[0]] + s[1..];
    } else {
      SplitGluesPrefix(p[1..], t, sep);
      var s, rest := Split(t, sep), Split(p[1..] + t, sep);
      assert (p + t)[0] == p[0] && (p + t)[1..] == p[1..] + t;
      assert Split(p + t, sep) == [[p[0]] + rest[0]] + rest[1..];
      assert rest[0] == p[1..] + s[0] && rest[1..] == s[1..];
      assert [p[0]] + (p[1..] + s[0]) == p + s[0];
    }
  }

  /** Splitting a join of separator-free parts gives those parts back. */
  lemma {:induction false} SplitJoin(parts: seq<string>, sep: char)
    requires |parts| >= 1
    requires forall i :: 0 <= i < |parts| ==> sep !in parts[i]
    ensures Split(Join(parts, sep), sep) == parts
  {
    if |parts| == 1 {
      SplitGluesPrefix(parts[0], [], sep);
      assert parts[0] + [] == parts[0];
    } else {
      var tail := Join(parts[1..], sep);
      SplitJoin(parts[1..], sep);
      SplitGluesPrefix(parts[0], [sep] + tail, sep);
      assert Join(parts, sep) == parts[0] + ([sep] + tail);
      assert Split([sep] + tail, sep) == [[]] + Split(tail, sep);
      assert parts[0] + [] == parts[0];
      assert parts == [parts[0]] + parts[1..];
    }
  }
}
