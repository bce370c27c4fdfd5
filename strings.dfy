/** String operations the filter compiler relies on: PHP's explode, implode,
    str_replace and strtolower, PHP string truthiness and Laravel's filled(),
    all on strings as sequences of characters. */
module Strings {

  /** Str::startsWith / str_starts_with. */
  predicate StartsWith(s: string, p: string)
  {
    |p| <= |s| && s[..|p|] == p
  }

  /** Str::endsWith / str_ends_with. */
  predicate EndsWith(s: string, p: string)
  {
    |p| <= |s| && s[|s| - |p|..] == p
  }

  /** t occurs somewhere inside s (str_contains). */
  predicate Contains(s: string, t: string)
    decreases |s|
  {
    StartsWith(s, t) || (s != [] && Contains(s[1..], t))
  }

  /** explode(sep, s): the pieces of s between the occurrences of sep, found
      left to right without overlap. */
  function Split(s: string, sep: string): (parts: seq<string>)
    requires sep != []
    ensures |parts| >= 1
    ensures |parts| == 1 ==> parts[0] == s
    decreases |s|
  {
    if |s| < |sep| then [s]
    else if s[..|sep|] == sep then [[]] + Split(s[|sep|..], sep)
    else
      var rest := Split(s[1..], sep);
      [[s[0]] + rest[0]] + rest[1..]
  }

  /** implode(sep, parts). */
  function Join(parts: seq<string>, sep: string): string
    requires |parts| >= 1
    decreases |parts|
  {
    if |parts| == 1 then parts[0] else parts[0] + sep + Join(parts[1..], sep)
  }

  /** str_replace(from, to, s): every occurrence of from, found left to right
      without overlap, replaced by to; an empty from leaves s unchanged. */
  function ReplaceAll(s: string, from: string, to: string): string
    decreases |s|
  {
    if from == [] || |s| < |from| then s
    else if s[..|from|] == from then to + ReplaceAll(s[|from|..], from, to)
    else [s[0]] + ReplaceAll(s[1..], from, to)
  }

  /** strtolower, which since PHP 8.2 maps only the ASCII letters. */
  function LowerChar(c: char): char
  {
    if 'A' <= c <= 'Z' then (c as int + 32) as char else c
  }

  function Lower(s: string): (r: string)
    ensures |r| == |s|
    ensures forall i :: 0 <= i < |s| ==> r[i] == LowerChar(s[i])
  {
    seq(|s|, i requires 0 <= i < |s| => LowerChar(s[i]))
  }

  /** A PHP string is falsy exactly when it is "" or "0". */
  predicate Truthy(s: string)
  {
    s != "" && s != "0"
  }

  /** The characters PHP's trim() removes by default. */
  predicate IsTrimmed(c: char)
  {
    c == ' ' || c == '\t' || c == '\n' || c == '\r' || c == '\0' || c == '\U{000B}'
  }

  /** Laravel's filled() on a string: something is left after trim(). */
  predicate Filled(s: string)
  {
    exists i :: 0 <= i < |s| && !IsTrimmed(s[i])
  }

  // ---------------------------------------------------------------------
  // explode and implode

  /** Prepending a character to the first piece prepends it to the joined string. */
  lemma JoinCons(c: char, parts: seq<string>, sep: string)
    requires |parts| >= 1
    ensures Join([[c] + parts[0]] + parts[1..], sep) == [c] + Join(parts, sep)
  {
    var moved := [[c] + parts[0]] + parts[1..];
    assert moved[1..] == parts[1..];
  }

  /** implode(sep, explode(sep, s)) gives back s. */
  lemma {:induction false} SplitJoin(s: string, sep: string)
    requires sep != []
    ensures Join(Split(s, sep), sep) == s
    decreases |s|
  {
    if |s| < |sep| {
    } else if s[..|sep|] == sep {
      var tail := Split(s[|sep|..], sep);
      var parts := [[]] + tail;
      assert Split(s, sep) == parts;
      SplitJoin(s[|sep|..], sep);
      assert parts[0] == [] && parts[1..] == tail;
      assert Join(parts, sep) == [] + sep + Join(tail, sep);
      assert s == sep + s[|sep|..];
    } else {
      var rest := Split(s[1..], sep);
      assert Split(s, sep) == [[s[0]] + rest[0]] + rest[1..];
      SplitJoin(s[1..], sep);
      JoinCons(s[0], rest, sep);
      assert s == [s[0]] + s[1..];
    }
  }

  /** The first piece of explode is a prefix of the string. */
  lemma {:induction false} SplitHeadPrefix(s: string, sep: string)
    requires sep != []
    ensures |Split(s, sep)[0]| <= |s| && s[..|Split(s, sep)[0]|] == Split(s, sep)[0]
    decreases |s|
  {
    if |s| >= |sep| && s[..|sep|] != sep {
      var rest := Split(s[1..], sep);
      SplitHeadPrefix(s[1..], sep);
      assert Split(s, sep)[0] == [s[0]] + rest[0];
      assert s[..|rest[0]| + 1] == [s[0]] + s[1..][..|rest[0]|];
    }
  }

  /** No piece of explode holds the separator: it cuts at every occurrence. */
  lemma {:induction false} SplitPiecesFree(s: string, sep: string)
    requires sep != []
    ensures forall i :: 0 <= i < |Split(s, sep)| ==> !Contains(Split(s, sep)[i], sep)
    decreases |s|
  {
    var parts := Split(s, sep);
    if |s| < |sep| {
      ShortNotContains(s, sep);
    } else if s[..|sep|] == sep {
      var tail := Split(s[|sep|..], sep);
      SplitPiecesFree(s[|sep|..], sep);
      ShortNotContains([], sep);
      assert parts == [[]] + tail;
      forall i | 0 <= i < |parts|
        ensures !Contains(parts[i], sep)
      {
        if i > 0 {
          assert parts[i] == tail[i - 1];
        }
      }
    } else {
      var rest := Split(s[1..], sep);
      SplitPiecesFree(s[1..], sep);
      SplitHeadPrefix(s[1..], sep);
      var head := [s[0]] + rest[0];
      assert parts == [head] + rest[1..];
      assert head[1..] == rest[0];
      assert s[..|head|] == head by {
        assert s[..|head|] == [s[0]] + s[1..][..|rest[0]|];
      }
      assert !StartsWith(head, sep);
      assert !Contains(rest[0], sep);
      assert !Contains(head, sep);
      forall i | 0 <= i < |parts|
        ensures !Contains(parts[i], sep)
      {
        if i > 0 {
          assert parts[i] == rest[i];
        }
      }
    }
  }

  /** A string shorter than sep does not contain it. */
  lemma {:induction false} ShortNotContains(s: string, t: string)
    requires |s| < |t|
    ensures !Contains(s, t)
    decreases |s|
  {
    if s != [] {
      ShortNotContains(s[1..], t);
    }
  }

  /** explode yields more than one piece exactly when sep occurs in s. */
  lemma {:induction false} SplitMany(s: string, sep: string)
    requires sep != []
    ensures |Split(s, sep)| >= 2 <==> Contains(s, sep)
    decreases |s|
  {
    if |s| < |sep| {
      ShortNotContains(s, sep);
    } else if s[..|sep|] == sep {
      assert StartsWith(s, sep);
    } else {
      SplitMany(s[1..], sep);
      assert !StartsWith(s, sep);
    }
  }

  /** Splitting a whole string of two pieces: its one separator sits between them. */
  lemma SplitTwo(s: string, sep: string)
    requires sep != [] && |Split(s, sep)| == 2
    ensures s == Split(s, sep)[0] + sep + Split(s, sep)[1]
  {
    var parts := Split(s, sep);
    SplitJoin(s, sep);
    assert Join(parts, sep) == parts[0] + sep + Join(parts[1..], sep);
    assert parts[1..] == [parts[1]];
  }

  /** A one-character separator occurs exactly where its character does. */
  lemma {:induction false} ContainsChar(s: string, c: char)
    ensures Contains(s, [c]) <==> c in s
    decreases |s|
  {
    if s != [] {
      ContainsChar(s[1..], c);
      assert s == [s[0]] + s[1..];
    }
  }

  /** The first two pieces of explode: s is the first, sep, the second, and
      then either nothing or sep and the rest. */
  lemma SplitHead(s: string, sep: string)
    requires sep != [] && |Split(s, sep)| >= 2
    ensures var parts := Split(s, sep);
            s == parts[0] + sep + parts[1] || StartsWith(s, parts[0] + sep + parts[1] + sep)
  {
    var parts := Split(s, sep);
    SplitJoin(s, sep);
    assert s == parts[0] + sep + Join(parts[1..], sep);
    if |parts| > 2 {
      assert Join(parts[1..], sep) == parts[1] + sep + Join(parts[2..], sep);
      assert s == (parts[0] + sep + parts[1] + sep) + Join(parts[2..], sep);
    }
  }

  /** Cutting at the first occurrence of a one-character separator. */
  lemma {:induction false} SplitAtChar(a: string, c: char, b: string)
    requires c !in a
    ensures Split(a + [c] + b, [c]) == [a] + Split(b, [c])
    decreases |a|
  {
    var s := a + [c] + b;
    if a == [] {
      assert s[..1] == [c] && s[1..] == b;
    } else {
      assert s[0] == a[0] && a[0] in a;
      assert s[..1] != [c];
      assert s[1..] == a[1..] + [c] + b;
      SplitAtChar(a[1..], c, b);
      assert [s[0]] + a[1..] == a;
    }
  }

  // ---------------------------------------------------------------------
  // str_replace

  /** str_replace is implode(to, explode(from, s)). */
  lemma {:induction false} ReplaceAllIsSplitJoin(s: string, from: string, to: string)
    requires from != []
    ensures ReplaceAll(s, from, to) == Join(Split(s, from), to)
    decreases |s|
  {
    if |s| < |from| {
    } else if s[..|from|] == from {
      var tail := Split(s[|from|..], from);
      var parts := [[]] + tail;
      assert Split(s, from) == parts;
      ReplaceAllIsSplitJoin(s[|from|..], from, to);
      assert parts[0] == [] && parts[1..] == tail;
      assert Join(parts, to) == [] + to + Join(tail, to);
      assert ReplaceAll(s, from, to) == to + ReplaceAll(s[|from|..], from, to);
    } else {
      var rest := Split(s[1..], from);
      assert Split(s, from) == [[s[0]] + rest[0]] + rest[1..];
      ReplaceAllIsSplitJoin(s[1..], from, to);
      JoinCons(s[0], rest, to);
      assert ReplaceAll(s, from, to) == [s[0]] + ReplaceAll(s[1..], from, to);
    }
  }

  /** str_replace leaves a string without an occurrence of from unchanged. */
  lemma {:induction false} ReplaceAllAbsent(s: string, from: string, to: string)
    requires !Contains(s, from)
    ensures ReplaceAll(s, from, to) == s
    decreases |s|
  {
    if from == [] || |s| < |from| {
    } else {
      assert !StartsWith(s, from);
      ReplaceAllAbsent(s[1..], from, to);
      assert s == [s[0]] + s[1..];
    }
  }

  /** Replacing a single character: every character of the result is either
      one of the replacement or a character of s other than the one replaced. */
  lemma {:induction false} ReplaceCharOrigin(s: string, c: char, to: string, x: char)
    requires x in ReplaceAll(s, [c], to)
    ensures x in to || (x in s && x != c)
    decreases |s|
  {
    if |s| < 1 {
    } else if s[..1] == [c] {
      assert s[0] == c;
      var rest := ReplaceAll(s[1..], [c], to);
      if x !in to {
        assert x in rest;
        ReplaceCharOrigin(s[1..], c, to, x);
        assert s == [s[0]] + s[1..];
      }
    } else {
      var rest := ReplaceAll(s[1..], [c], to);
      assert s[0] != c;
      if x != s[0] {
        assert x in rest;
        ReplaceCharOrigin(s[1..], c, to, x);
        assert s == [s[0]] + s[1..];
      }
    }
  }

}
