/**
 * The string operations the table-name handling relies on: Python's `str.replace`,
 * `str.lstrip`, `str.lower`, `str.split(sep)[0]`, `str.capitalize` and the `in` substring
 * test, together with the lexicographic order that sorting a string column uses.
 * Case mapping is restricted to ASCII letters (the configured table names are ASCII).
 */
module Strings {

  /* ---------------------------------------------------------------------------------
   * Lexicographic order on strings (code point by code point, a proper prefix first).
   * ------------------------------------------------------------------------------ */

  /** `a` sorts strictly before `b`. */
  predicate Less(a: string, b: string)
    decreases |a|
  {
    if |a| == 0 then |b| > 0
    else if |b| == 0 then false
    else if a[0] != b[0] then a[0] < b[0]
    else Less(a[1..], b[1..])
  }

  lemma {:induction false} LessIrreflexive(a: string)
    ensures !Less(a, a)
    decreases |a|
  {
    if |a| > 0 {
      LessIrreflexive(a[1..]);
    }
  }

  lemma {:induction false} LessTransitive(a: string, b: string, c: string)
    requires Less(a, b) && Less(b, c)
    ensures Less(a, c)
    decreases |a|
  {
    if |a| > 0 && |b| > 0 && |c| > 0 && a[0] == b[0] && b[0] == c[0] {
      LessTransitive(a[1..], b[1..], c[1..]);
    }
  }

  /** Any two different strings are ordered one way or the other. */
  lemma {:induction false} LessTotal(a: string, b: string)
    requires a != b
    ensures Less(a, b) || Less(b, a)
    decreases |a|
  {
    if |a| > 0 && |b| > 0 && a[0] == b[0] {
      assert a == [a[0]] + a[1..] && b == [b[0]] + b[1..];
      LessTotal(a[1..], b[1..]);
    }
  }

  /* ---------------------------------------------------------------------------------
   * Python string methods.
   * ------------------------------------------------------------------------------ */

  /** An occurrence of `pattern` starts at index `i` of `s`. */
  predicate StartsAt(s: string, pattern: string, i: int)
  {
    0 <= i && i + |pattern| <= |s| && s[i..i + |pattern|] == pattern
  }

  /** Python's `pattern in s`: `pattern` occurs somewhere in `s`. */
  predicate Contains(s: string, pattern: string)
  {
    exists i :: 0 <= i <= |s| && StartsAt(s, pattern, i)
  }

  /**
   * Python's `s.replace(pattern, replacement)`: every non-overlapping occurrence of
   * `pattern`, scanned from the left, is replaced by `replacement`.
   */
  function Replace(s: string, pattern: string, replacement: string): (r: string)
    requires |pattern| > 0
    ensures |replacement| <= |pattern| ==> |r| <= |s|
    decreases |s|
  {
    if |s| < |pattern| then s
    else if s[..|pattern|] == pattern then replacement + Replace(s[|pattern|..], pattern, replacement)
    else [s[0]] + Replace(s[1..], pattern, replacement)
  }

  /**
   * A cheap witness that no occurrence of `pattern` starts at index `i` of `s`: the
   * occurrence would run past the end, or one of its first two characters differs.
   */
  predicate NoMatchAt(s: string, pattern: string, i: int)
    requires |pattern| > 0
  {
    i < 0 || i + |pattern| > |s| || s[i] != pattern[0] || (|pattern| > 1 && s[i + 1] != pattern[1])
  }

  lemma NoMatchAtNotStartsAt(s: string, pattern: string, i: int)
    requires |pattern| > 0 && NoMatchAt(s, pattern, i)
    ensures !StartsAt(s, pattern, i)
  {
  }

  /** The witness at every index below `n` rules out an occurrence starting below `n`. */
  lemma NoMatchesBelow(s: string, pattern: string, n: int)
    requires |pattern| > 0
    requires forall i :: 0 <= i < n ==> NoMatchAt(s, pattern, i)
    ensures forall i :: 0 <= i < n ==> !StartsAt(s, pattern, i)
  {
    forall i | 0 <= i < n
      ensures !StartsAt(s, pattern, i)
    {
      NoMatchAtNotStartsAt(s, pattern, i);
    }
  }

  /** An occurrence in the tail of `s` is an occurrence in `s`, one index further. */
  lemma StartsAtTail(s: string, pattern: string, i: int)
    requires |s| > 0 && 0 <= i
    ensures StartsAt(s[1..], pattern, i) <==> StartsAt(s, pattern, i + 1)
  {
    if i + |pattern| <= |s| - 1 {
      assert s[1..][i..i + |pattern|] == s[i + 1..i + 1 + |pattern|];
    }
  }

  /** A prefix `a` in which no occurrence starts is copied unchanged. */
  lemma {:induction false} ReplaceUnmatchedPrefix(a: string, b: string, pattern: string, replacement: string)
    requires |pattern| > 0
    requires forall i :: 0 <= i < |a| ==> !StartsAt(a + b, pattern, i)
    ensures Replace(a + b, pattern, replacement) == a + Replace(b, pattern, replacement)
    decreases |a|
  {
    if |a| > 0 {
      var s := a + b;
      assert s[1..] == a[1..] + b;
      forall i | 0 <= i < |a[1..]|
        ensures !StartsAt(a[1..] + b, pattern, i)
      {
        StartsAtTail(s, pattern, i);
      }
      ReplaceUnmatchedPrefix(a[1..], b, pattern, replacement);
      if |s| >= |pattern| {
        assert !StartsAt(s, pattern, 0);
        assert s[..|pattern|] != pattern;
        calc {
          Replace(s, pattern, replacement);
          [s[0]] + Replace(s[1..], pattern, replacement);
          [a[0]] + (a[1..] + Replace(b, pattern, replacement));
          { assert a == [a[0]] + a[1..]; }
          a + Replace(b, pattern, replacement);
        }
      } else {
        assert |b| < |pattern|;
      }
    } else {
      assert a + b == b;
    }
  }

  /** An occurrence at the front is replaced and the scan resumes after it. */
  lemma ReplaceMatchedPrefix(b: string, pattern: string, replacement: string)
    requires |pattern| > 0
    ensures Replace(pattern + b, pattern, replacement) == replacement + Replace(b, pattern, replacement)
  {
    var s := pattern + b;
    assert s[..|pattern|] == pattern;
    assert s[|pattern|..] == b;
  }

  /** A string with no occurrence of `pattern` is left unchanged. */
  lemma ReplaceNone(s: string, pattern: string, replacement: string)
    requires |pattern| > 0
    requires forall i :: 0 <= i < |s| ==> !StartsAt(s, pattern, i)
    ensures Replace(s, pattern, replacement) == s
  {
    var e: string := [];
    assert s + e == s;
    ReplaceUnmatchedPrefix(s, e, pattern, replacement);
  }

  /** `s` holds exactly one occurrence of `pattern`, between `a` and `b`. */
  lemma ReplaceOnce(a: string, b: string, pattern: string, replacement: string)
    requires |pattern| > 0
    requires forall i :: 0 <= i < |a| ==> !StartsAt(a + pattern + b, pattern, i)
    requires forall i :: 0 <= i < |b| ==> !StartsAt(b, pattern, i)
    ensures Replace(a + pattern + b, pattern, replacement) == a + replacement + b
  {
    var tail := pattern + b;
    assert a + pattern + b == a + tail;
    calc {
      Replace(a + tail, pattern, replacement);
    == { ReplaceUnmatchedPrefix(a, tail, pattern, replacement); }
      a + Replace(tail, pattern, replacement);
    == { ReplaceMatchedPrefix(b, pattern, replacement); }
      a + (replacement + Replace(b, pattern, replacement));
    == { ReplaceNone(b, pattern, replacement); }
      a + (replacement + b);
    }
    assert a + (replacement + b) == a + replacement + b;
  }

  /** Removing the one occurrence of `pattern` in `a + pattern + b`. */
  lemma RemoveOnce(a: string, b: string, pattern: string)
    requires |pattern| > 0
    requires forall i :: 0 <= i < |a| ==> !StartsAt(a + pattern + b, pattern, i)
    requires forall i :: 0 <= i < |b| ==> !StartsAt(b, pattern, i)
    ensures Replace(a + pattern + b, pattern, "") == a + b
  {
    calc {
      Replace(a + pattern + b, pattern, "");
    == { ReplaceOnce(a, b, pattern, ""); }
      a + "" + b;
    == { assert a + "" == a; }
      a + b;
    }
  }

  /** Replacing a single character is a character-by-character substitution. */
  lemma {:induction false} ReplaceChar(s: string, c: char, d: char)
    ensures Replace(s, [c], [d]) == seq(|s|, i requires 0 <= i < |s| => if s[i] == c then d else s[i])
    decreases |s|
  {
    if |s| > 0 {
      ReplaceChar(s[1..], c, d);
      assert s[..1] == [s[0]];
      assert s[1..] == s[|[c]|..];
    }
  }

  /** Replacing never brings in a character that neither the string nor the replacement holds. */
  lemma {:induction false} ReplaceKeepsOut(s: string, pattern: string, replacement: string, c: char)
    requires |pattern| > 0
    requires c !in s && c !in replacement
    ensures c !in Replace(s, pattern, replacement)
    decreases |s|
  {
    if |s| >= |pattern| {
      if s[..|pattern|] == pattern {
        assert forall i :: 0 <= i < |s| - |pattern| ==> s[|pattern|..][i] == s[i + |pattern|];
        ReplaceKeepsOut(s[|pattern|..], pattern, replacement, c);
      } else {
        assert forall i :: 0 <= i < |s| - 1 ==> s[1..][i] == s[i + 1];
        ReplaceKeepsOut(s[1..], pattern, replacement, c);
      }
    }
  }

  /** Python's `s.lstrip(c)` for a single character `c`. */
  function LStrip(s: string, c: char): (r: string)
    ensures |r| <= |s| && r == s[|s| - |r|..]
    ensures |r| == 0 || r[0] != c
    ensures forall i :: 0 <= i < |s| - |r| ==> s[i] == c
    decreases |s|
  {
    if |s| > 0 && s[0] == c then LStrip(s[1..], c) else s
  }

  function LowerChar(c: char): char
  {
    if 'A' <= c <= 'Z' then (c as int - 'A' as int + 'a' as int) as char else c
  }

  function UpperChar(c: char): char
  {
    if 'a' <= c <= 'z' then (c as int - 'a' as int + 'A' as int) as char else c
  }

  /** Python's `s.lower()` on ASCII letters. */
  function Lower(s: string): (r: string)
    ensures |r| == |s|
    ensures forall i :: 0 <= i < |s| ==> r[i] == LowerChar(s[i])
  {
    seq(|s|, i requires 0 <= i < |s| => LowerChar(s[i]))
  }

  /** Python's `s.capitalize()` on ASCII letters: first character upper case, the rest lower. */
  function Capitalize(s: string): (r: string)
    ensures |r| == |s|
    ensures |s| > 0 ==> r[0] == UpperChar(s[0]) && r[1..] == Lower(s[1..])
  {
    if |s| == 0 then s else [UpperChar(s[0])] + Lower(s[1..])
  }

  /** Python's `s.split(sep)[0]`: everything before the first `sep`, or all of `s`. */
  function FirstField(s: string, sep: char): (r: string)
    ensures |r| <= |s| && r == s[..|r|]
    ensures sep !in r
    ensures |r| < |s| ==> s[|r|] == sep
    decreases |s|
  {
    if |s| == 0 || s[0] == sep then "" else [s[0]] + FirstField(s[1..], sep)
  }

  /** The first field of `head + [sep] + tail` is `head` when `head` holds no separator. */
  lemma {:induction false} FirstFieldOf(head: string, sep: char, tail: string)
    requires sep !in head
    ensures FirstField(head + [sep] + tail, sep) == head
    decreases |head|
  {
    var s := head + [sep] + tail;
    if |head| > 0 {
      assert s[1..] == head[1..] + [sep] + tail;
      FirstFieldOf(head[1..], sep, tail);
      assert head == [head[0]] + head[1..];
    }
  }

  /** Python's `s.split(sep)`: the fields between the separators, in order, at least one. */
  function Split(s: string, sep: char): (r: seq<string>)
    ensures |r| > 0 && r[0] == FirstField(s, sep)
    ensures forall i :: 0 <= i < |r| ==> sep !in r[i]
    decreases |s|
  {
    var head := FirstField(s, sep);
    if |head| == |s| then [s] else [head] + Split(s[|head| + 1..], sep)
  }

  /** Python's `sep.join(parts)`, the inverse of `Split`. */
  function Join(parts: seq<string>, sep: char): string
    requires |parts| > 0
  {
    if |parts| == 1 then parts[0] else parts[0] + [sep] + Join(parts[1..], sep)
  }

  /** Joining the fields again gives back the split string. */
  lemma {:induction false} SplitJoin(s: string, sep: char)
    ensures Join(Split(s, sep), sep) == s
    decreases |s|
  {
    var head := FirstField(s, sep);
    if |head| < |s| {
      var rest := s[|head| + 1..];
      SplitJoin(rest, sep);
      assert s == head + [sep] + rest;
    }
  }

  /** Splitting a join of separator-free fields gives back those fields. */
  lemma {:induction false} JoinSplit(parts: seq<string>, sep: char)
    requires |parts| > 0
    requires forall i :: 0 <= i < |parts| ==> sep !in parts[i]
    ensures Split(Join(parts, sep), sep) == parts
    decreases |parts|
  {
    var s := Join(parts, sep);
    if |parts| == 1 {
      assert FirstField(s, sep) == s;
    } else {
      var rest := Join(parts[1..], sep);
      FirstFieldOf(parts[0], sep, rest);
      assert s[|parts[0]| + 1..] == rest;
      JoinSplit(parts[1..], sep);
    }
  }
}
