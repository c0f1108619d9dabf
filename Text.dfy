/**
 * The handful of Python `str` operations the converter relies on:
 * `sep.join(parts)`, `s.split(c)` with a one-character separator,
 * `s.replace("\n", " | ")` and `s.strip()`.
 */
module Text {

  /** `sep.join(parts)`. */
  function Join(parts: seq<string>, sep: string): string
  {
    if |parts| == 0 then ""
    else if |parts| == 1 then parts[0]
    else parts[0] + sep + Join(parts[1..], sep)
  }

  /** `s.split(c)`: the pieces between occurrences of `c`; there is always one more piece than separators. */
  function Split(s: string, c: char): (parts: seq<string>)
    ensures |parts| >= 1
    decreases |s|
  {
    if |s| == 0 then [""]
    else
      var rest := Split(s[1..], c);
      if s[0] == c then [""] + rest
      else [[s[0]] + rest[0]] + rest[1..]
  }

  /** `s.replace("\n", " | ")`, written one character at a time. */
  function ReplaceNewlines(s: string): string
  {
    if |s| == 0 then ""
    else (if s[0] == '\n' then " | " else [s[0]]) + ReplaceNewlines(s[1..])
  }

  /** Python's `str.isspace()` for one character (the characters `str.strip()` removes). */
  predicate IsSpace(c: char)
  {
    var n := c as int;
    (9 <= n <= 13) || (28 <= n <= 32) || n == 0x85 || n == 0xA0 || n == 0x1680
    || (0x2000 <= n <= 0x200A) || n == 0x2028 || n == 0x2029 || n == 0x202F
    || n == 0x205F || n == 0x3000
  }

  function StripLeft(s: string): string
  {
    if |s| > 0 && IsSpace(s[0]) then StripLeft(s[1..]) else s
  }

  function StripRight(s: string): string
  {
    if |s| > 0 && IsSpace(s[|s| - 1]) then StripRight(s[..|s| - 1]) else s
  }

  /** `s.strip()`. */
  function Strip(s: string): string
  {
    StripRight(StripLeft(s))
  }

  /** Characters of `s` that equal `c`. */
  function Count(s: string, c: char): nat
  {
    if |s| == 0 then 0 else (if s[0] == c then 1 else 0) + Count(s[1..], c)
  }

  // ---------------------------------------------------------------------
  // Properties of strip
  // ---------------------------------------------------------------------

  /** The stripped text is a slice of the input with only whitespace cut
      from either end, and it neither starts nor ends with whitespace. */
  lemma {:induction false} StripIsTrimmedSlice(s: string)
    ensures exists i, j ::
              && 0 <= i <= j <= |s| && Strip(s) == s[i..j]
              && (forall k :: 0 <= k < i ==> IsSpace(s[k]))
              && (forall k :: j <= k < |s| ==> IsSpace(s[k]))
    ensures |Strip(s)| > 0 ==> !IsSpace(Strip(s)[0]) && !IsSpace(Strip(s)[|Strip(s)| - 1])
  {
    var l := StripLeft(s);
    var i := |s| - |l|;
    StripLeftCuts(s);
    var r := StripRight(l);
    StripRightCuts(l);
    var j := i + |r|;
    assert Strip(s) == s[i..j];
    forall k | j <= k < |s| ensures IsSpace(s[k]) {
      assert s[k] == l[k - i];
    }
    if |r| > 0 {
      assert r[0] == l[0];
    }
  }

  /** strip-left removes a run of leading whitespace and stops at a non-blank. */
  lemma {:induction false} StripLeftCuts(s: string)
    ensures |StripLeft(s)| <= |s| && StripLeft(s) == s[|s| - |StripLeft(s)|..]
    ensures |StripLeft(s)| > 0 ==> !IsSpace(StripLeft(s)[0])
    ensures forall k :: 0 <= k < |s| - |StripLeft(s)| ==> IsSpace(s[k])
    decreases |s|
  {
    if |s| > 0 && IsSpace(s[0]) {
      StripLeftCuts(s[1..]);
      assert s[1..][|s[1..]| - |StripLeft(s)|..] == s[|s| - |StripLeft(s)|..];
      forall k | 0 < k < |s| - |StripLeft(s)| ensures IsSpace(s[k]) {
        assert s[k] == s[1..][k - 1];
      }
    }
  }

  /** strip-right removes a run of trailing whitespace and stops at a non-blank. */
  lemma {:induction false} StripRightCuts(s: string)
    ensures |StripRight(s)| <= |s| && StripRight(s) == s[..|StripRight(s)|]
    ensures |StripRight(s)| > 0 ==> !IsSpace(StripRight(s)[|StripRight(s)| - 1])
    ensures forall k :: |StripRight(s)| <= k < |s| ==> IsSpace(s[k])
    decreases |s|
  {
    if |s| > 0 && IsSpace(s[|s| - 1]) {
      StripRightCuts(s[..|s| - 1]);
      assert s[..|s| - 1][..|StripRight(s)|] == s[..|StripRight(s)|];
    }
  }

  /** Stripping twice changes nothing further. */
  lemma StripIdempotent(s: string)
    ensures Strip(Strip(s)) == Strip(s)
  {
    StripIsTrimmedSlice(s);
    var t := Strip(s);
    if |t| > 0 {
      assert StripLeft(t) == t;
      assert StripRight(t) == t;
    } else {
      assert t == "";
    }
  }

  /** A leading blank is removed by strip. */
  lemma StripLeadingSpace(k: string)
    ensures Strip(" " + k) == Strip(k)
  {
    assert (" " + k)[1..] == k;
  }

  // ---------------------------------------------------------------------
  // split and join are inverse to each other
  // ---------------------------------------------------------------------

  /** Joining the pieces of a split with the separator gives back the text. */
  lemma {:induction false} JoinSplit(s: string, c: char)
    ensures Join(Split(s, c), [c]) == s
    decreases |s|
  {
    if |s| > 0 {
      var rest := Split(s[1..], c);
      JoinSplit(s[1..], c);
      if s[0] == c {
        assert Join(Split(s, c), [c]) == "" + [c] + Join(rest, [c]);
      } else {
        JoinConsHead([s[0]], rest, [c]);
      }
      assert s == [s[0]] + s[1..];
    }
  }

  /** Gluing text onto the first part glues it onto the joined text. */
  lemma {:induction false} JoinConsHead(a: string, parts: seq<string>, sep: string)
    requires |parts| >= 1
    ensures Join([a + parts[0]] + parts[1..], sep) == a + Join(parts, sep)
  {
    var p := [a + parts[0]] + parts[1..];
    assert p[1..] == parts[1..];
    if |parts| > 1 {
      assert Join(p, sep) == (a + parts[0]) + sep + Join(parts[1..], sep);
    }
  }

  /** Splitting the join of separator-free pieces gives back the pieces. */
  lemma {:induction false} SplitJoin(parts: seq<string>, c: char)
    requires |parts| >= 1
    requires forall i :: 0 <= i < |parts| ==> c !in parts[i]
    ensures Split(Join(parts, [c]), c) == parts
    decreases parts
  {
    if |parts| == 1 {
      SplitFree(parts[0], c);
    } else {
      var tail := Join(parts[1..], [c]);
      SplitJoin(parts[1..], c);
      SplitAfterFree(parts[0], tail, c);
      assert Join(parts, [c]) == parts[0] + ([c] + tail);
      assert [parts[0]] + parts[1..] == parts;
    }
  }

  /** Text without the separator splits into itself. */
  lemma {:induction false} SplitFree(s: string, c: char)
    requires c !in s
    ensures Split(s, c) == [s]
    decreases |s|
  {
    if |s| > 0 {
      assert c !in s[1..] by {
        forall k | 0 <= k < |s[1..]| ensures s[1..][k] != c { assert s[1..][k] == s[k + 1]; }
      }
      SplitFree(s[1..], c);
      assert [s[0]] + s[1..] == s;
    }
  }

  /** A separator-free prefix followed by the separator becomes its own piece. */
  lemma {:induction false} SplitAfterFree(p: string, t: string, c: char)
    requires c !in p
    ensures Split(p + ([c] + t), c) == [p] + Split(t, c)
    decreases |p|
  {
    var s := p + ([c] + t);
    if |p| == 0 {
      assert s == [c] + t;
      assert s[1..] == t;
    } else {
      assert s[1..] == p[1..] + ([c] + t);
      assert c !in p[1..] by {
        forall k | 0 <= k < |p[1..]| ensures p[1..][k] != c { assert p[1..][k] == p[k + 1]; }
      }
      SplitAfterFree(p[1..], t, c);
      assert [p[0]] + p[1..] == p;
    }
  }

  /** No piece of a split contains the separator. */
  lemma {:induction false} SplitPiecesFree(s: string, c: char)
    ensures forall i :: 0 <= i < |Split(s, c)| ==> c !in Split(s, c)[i]
    decreases |s|
  {
    if |s| > 0 {
      SplitPiecesFree(s[1..], c);
      var rest := Split(s[1..], c);
      if s[0] != c {
        assert c !in [s[0]] + rest[0];
      }
    }
  }

  /** A split yields one piece more than there are separators. */
  lemma {:induction false} SplitCount(s: string, c: char)
    ensures |Split(s, c)| == Count(s, c) + 1
    decreases |s|
  {
    if |s| > 0 {
      SplitCount(s[1..], c);
    }
  }

  // ---------------------------------------------------------------------
  // replace("\n", " | ")
  // ---------------------------------------------------------------------

  /** `s.replace("\n", " | ")` agrees with Python's own definition of
      replace: split on the old text, join with the new one. */
  lemma {:induction false} ReplaceIsSplitJoin(s: string)
    ensures ReplaceNewlines(s) == Join(Split(s, '\n'), " | ")
    decreases |s|
  {
    if |s| > 0 {
      ReplaceIsSplitJoin(s[1..]);
      var rest := Split(s[1..], '\n');
      if s[0] == '\n' {
        assert Join(Split(s, '\n'), " | ") == "" + " | " + Join(rest, " | ");
      } else {
        JoinConsHead([s[0]], rest, " | ");
      }
    }
  }

  /** After the replacement no newline is left. */
  lemma {:induction false} ReplaceLeavesNoNewline(s: string)
    ensures '\n' !in ReplaceNewlines(s)
    decreases |s|
  {
    if |s| > 0 {
      ReplaceLeavesNoNewline(s[1..]);
    }
  }

  /** Each newline grows by two characters; nothing else changes length. */
  lemma {:induction false} ReplaceLength(s: string)
    ensures |ReplaceNewlines(s)| == |s| + 2 * Count(s, '\n')
    decreases |s|
  {
    if |s| > 0 {
      ReplaceLength(s[1..]);
    }
  }

  /** Text without newlines is left as it is. */
  lemma {:induction false} ReplaceKeepsPlainText(s: string)
    requires '\n' !in s
    ensures ReplaceNewlines(s) == s
    decreases |s|
  {
    if |s| > 0 {
      assert '\n' !in s[1..] by {
        forall k | 0 <= k < |s[1..]| ensures s[1..][k] != '\n' { assert s[1..][k] == s[k + 1]; }
      }
      ReplaceKeepsPlainText(s[1..]);
      assert [s[0]] + s[1..] == s;
    }
  }
}
