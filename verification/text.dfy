/** The string operations of Python's `str` that the render-farm code relies
    on: `strip`, `split(sep)`, `endswith` and `replace` of one character. */
module Text {

  /** `str.isspace()` for one character: the characters Python treats as
      whitespace when stripping a string or parsing an integer. */
  predicate IsSpace(c: char)
  {
    var n := c as int;
    || (0x09 <= n <= 0x0D) || (0x1C <= n <= 0x20)
    || n == 0x85 || n == 0xA0 || n == 0x1680
    || (0x2000 <= n <= 0x200A)
    || n == 0x2028 || n == 0x2029 || n == 0x202F || n == 0x205F || n == 0x3000
  }

  /** No leading and no trailing whitespace. */
  predicate Trimmed(s: string)
  {
    |s| == 0 || (!IsSpace(s[0]) && !IsSpace(s[|s| - 1]))
  }

  function StripLeft(s: string): (r: string)
    ensures |r| <= |s| && r == s[|s| - |r|..]
    ensures forall i :: 0 <= i < |s| - |r| ==> IsSpace(s[i])
    ensures |r| == 0 || !IsSpace(r[0])
  {
    if |s| > 0 && IsSpace(s[0]) then StripLeft(s[1..]) else s
  }

  function StripRight(s: string): (r: string)
    ensures |r| <= |s| && r == s[..|r|]
    ensures forall i :: |r| <= i < |s| ==> IsSpace(s[i])
    ensures |r| == 0 || !IsSpace(r[|r| - 1])
  {
    if |s| > 0 && IsSpace(s[|s| - 1]) then StripRight(s[..|s| - 1]) else s
  }

  /** `r` is the slice of `s` starting at `i` with only whitespace around
      it. */
  predicate InnerAt(s: string, r: string, i: int)
  {
    && 0 <= i <= |s| - |r|
    && s[i..i + |r|] == r
    && (forall k :: 0 <= k < i ==> IsSpace(s[k]))
    && (forall k :: i + |r| <= k < |s| ==> IsSpace(s[k]))
  }

  /** `s.strip()`: `s` with its leading and trailing whitespace removed and
      nothing else, so the result has no whitespace at either end, and an
      already trimmed string is left as it is. */
  function Strip(s: string): (r: string)
    ensures Trimmed(r)
    ensures |r| <= |s|
    ensures exists i :: InnerAt(s, r, i)
    ensures Trimmed(s) ==> r == s
  {
    var left := StripLeft(s);
    StripInner(s, left, StripRight(left));
    StripRight(left)
  }

  /** Stripping the right end after the left leaves the slice of `s` that
      starts where the leading whitespace ends, with no whitespace at
      either end; a string with none there is left whole. */
  lemma StripInner(s: string, left: string, r: string)
    requires |left| <= |s| && left == s[|s| - |left|..]
    requires forall k :: 0 <= k < |s| - |left| ==> IsSpace(s[k])
    requires |left| == 0 || !IsSpace(left[0])
    requires |r| <= |left| && r == left[..|r|]
    requires forall k :: |r| <= k < |left| ==> IsSpace(left[k])
    requires |r| == 0 || !IsSpace(r[|r| - 1])
    ensures InnerAt(s, r, |s| - |left|)
    ensures Trimmed(r)
    ensures Trimmed(s) ==> r == s
  {
    var i := |s| - |left|;
    assert s[i..i + |r|] == r by {
      forall k | 0 <= k < |r|
        ensures s[i..i + |r|][k] == r[k]
      {
        assert r[k] == left[k] == s[i + k];
      }
    }
    forall k | i + |r| <= k < |s|
      ensures IsSpace(s[k])
    {
      assert s[k] == left[k - i];
    }
    if |r| > 0 {
      assert r[0] == left[0];
    }
    if Trimmed(s) && |s| > 0 {
      assert IsSpace(s[0]) || i == 0;
      assert left == s;
      assert IsSpace(left[|left| - 1]) || |r| == |left|;
    }
  }

  /** `s.split(sep)`: the pieces between occurrences of `sep`, in order.
      There is always at least one piece, and no piece contains `sep`. */
  function Split(s: string, sep: char): (parts: seq<string>)
    ensures |parts| > 0
    ensures forall i :: 0 <= i < |parts| ==> sep !in parts[i]
    decreases |s|
  {
    if |s| == 0 then [""]
    else
      var rest := Split(s[1..], sep);
      if s[0] == sep then [""] + rest
      else [[s[0]] + rest[0]] + rest[1..]
  }

  /** `sep.join(parts)`, the inverse of `Split`. */
  function Join(parts: seq<string>, sep: char): string
    requires |parts| > 0
  {
    if |parts| == 1 then parts[0] else parts[0] + [sep] + Join(parts[1..], sep)
  }

  /** Number of occurrences of `c` in `s`. */
  function Count(s: string, c: char): nat
  {
    if |s| == 0 then 0 else (if s[0] == c then 1 else 0) + Count(s[1..], c)
  }

  function Last<T>(s: seq<T>): T
    requires |s| > 0
  {
    s[|s| - 1]
  }

  function Init<T>(s: seq<T>): seq<T>
    requires |s| > 0
  {
    s[..|s| - 1]
  }

  /** Splitting and joining again gives back the original string. */
  lemma {:induction false} SplitJoin(s: string, sep: char)
    ensures Join(Split(s, sep), sep) == s
    decreases |s|
  {
    if |s| > 0 {
      var rest := Split(s[1..], sep);
      SplitJoin(s[1..], sep);
      if s[0] == sep {
        assert Split(s, sep) == [""] + rest;
        assert Split(s, sep)[1..] == rest;
      } else if |rest| == 1 {
        assert Join(rest, sep) == rest[0];
      } else {
        var parts := Split(s, sep);
        assert parts[1..] == rest[1..];
        calc {
          Join(parts, sep);
          parts[0] + [sep] + Join(rest[1..], sep);
          [s[0]] + (rest[0] + [sep] + Join(rest[1..], sep));
          [s[0]] + Join(rest, sep);
        }
      }
    }
  }

  /** There is one more piece than there are separators. */
  lemma {:induction false} SplitCount(s: string, sep: char)
    ensures |Split(s, sep)| == Count(s, sep) + 1
    decreases |s|
  {
    if |s| > 0 {
      SplitCount(s[1..], sep);
    }
  }

  /** A string without the separator is one piece. */
  lemma {:induction false} SplitNoSep(s: string, sep: char)
    requires sep !in s
    ensures Split(s, sep) == [s]
    decreases |s|
  {
    if |s| > 0 {
      assert sep !in s[1..];
      SplitNoSep(s[1..], sep);
      assert [s[0]] + s[1..] == s;
    }
  }

  /** Cutting at the first separator: the part before it is the first piece
      and the pieces of the part after it follow. */
  lemma {:induction false} SplitAtFirst(x: string, y: string, sep: char)
    requires sep !in x
    ensures Split(x + [sep] + y, sep) == [x] + Split(y, sep)
    decreases |x|
  {
    if |x| == 0 {
      assert x + [sep] + y == [sep] + y;
      assert ([sep] + y)[1..] == y;
    } else {
      var s := x + [sep] + y;
      assert s[0] == x[0];
      assert s[1..] == x[1..] + [sep] + y;
      assert sep !in x[1..];
      SplitAtFirst(x[1..], y, sep);
      assert [x[0]] + x[1..] == x;
    }
  }

  /** Prepending a character that is not the separator extends the first
      piece. */
  lemma SplitCons(c: char, t: string, sep: char)
    requires c != sep
    ensures Split([c] + t, sep) == [[c] + Split(t, sep)[0]] + Split(t, sep)[1..]
  {
    assert ([c] + t)[1..] == t;
  }

  /** Prepending the separator starts a new, empty first piece. */
  lemma SplitConsSep(t: string, sep: char)
    ensures Split([sep] + t, sep) == [""] + Split(t, sep)
  {
    assert ([sep] + t)[1..] == t;
  }

  /** Splitting a concatenation: every complete piece of `a` stays as it is,
      and its unterminated tail is continued by `b`. */
  lemma {:induction false} SplitAppend(a: string, b: string, sep: char)
    ensures Split(a + b, sep) == Init(Split(a, sep)) + Split(Last(Split(a, sep)) + b, sep)
    decreases |a|
  {
    if |a| == 0 {
      assert a + b == b;
    } else {
      var a' := a[1..];
      assert a == [a[0]] + a';
      assert a + b == [a[0]] + (a' + b);
      SplitAppend(a', b, sep);
      SplitAppendStep(a[0], a', b, sep);
    }
  }

  /** One step of `SplitAppend`: from the pieces of `a' + b` to those of
      `[c] + a' + b`. */
  lemma SplitAppendStep(c: char, a': string, b: string, sep: char)
    requires Split(a' + b, sep) == Init(Split(a', sep)) + Split(Last(Split(a', sep)) + b, sep)
    ensures Split([c] + (a' + b), sep) == Init(Split([c] + a', sep)) + Split(Last(Split([c] + a', sep)) + b, sep)
  {
    if c == sep {
      SplitAppendSepStep(a', b, sep);
    } else {
      SplitAppendCharStep(c, a', b, sep);
    }
  }

  lemma SplitAppendSepStep(a': string, b: string, sep: char)
    requires Split(a' + b, sep) == Init(Split(a', sep)) + Split(Last(Split(a', sep)) + b, sep)
    ensures Split([sep] + (a' + b), sep) == Init(Split([sep] + a', sep)) + Split(Last(Split([sep] + a', sep)) + b, sep)
  {
    var S' := Split(a', sep);
    var T := Split(Last(S') + b, sep);
    assert Split([sep] + a', sep) == [""] + S' by {
      SplitConsSep(a', sep);
    }
    assert Split([sep] + (a' + b), sep) == [""] + (Init(S') + T) by {
      SplitConsSep(a' + b, sep);
    }
    InitCons("", S');
    Assoc([""], Init(S'), T);
  }

  lemma InitCons<T>(x: T, s: seq<T>)
    requires |s| > 0
    ensures Init([x] + s) == [x] + Init(s) && Last([x] + s) == Last(s)
  {
  }

  lemma Assoc<T>(a: seq<T>, b: seq<T>, c: seq<T>)
    ensures a + (b + c) == (a + b) + c
  {
  }

  lemma SplitAppendCharStep(c: char, a': string, b: string, sep: char)
    requires c != sep
    requires Split(a' + b, sep) == Init(Split(a', sep)) + Split(Last(Split(a', sep)) + b, sep)
    ensures Split([c] + (a' + b), sep) == Init(Split([c] + a', sep)) + Split(Last(Split([c] + a', sep)) + b, sep)
  {
    var S' := Split(a', sep);
    var T := Split(Last(S') + b, sep);
    SplitCons(c, a', sep);
    SplitCons(c, a' + b, sep);
    assert [c] + Last(S') + b == [c] + (Last(S') + b);
    SplitCons(c, Last(S') + b, sep);
    SplitAppendCons(c, S', T);
  }

  /** The sequence bookkeeping behind `SplitAppend` when the first character
      `c` is not the separator: `S'` are the pieces of the rest of `a`, `T`
      the pieces of its tail continued by `b`. */
  lemma SplitAppendCons(c: char, S': seq<string>, T: seq<string>)
    requires |S'| > 0 && |T| > 0
    ensures var S := [[c] + S'[0]] + S'[1..];
            |S'| == 1 ==> Init(S) == [] && Last(S) == [c] + Last(S') && Init(S') + T == T
    ensures var S := [[c] + S'[0]] + S'[1..];
            var R := Init(S') + T;
            |S'| > 1 ==> [[c] + R[0]] + R[1..] == Init(S) + T && Last(S) == Last(S')
  {
    if |S'| > 1 {
      var R := Init(S') + T;
      var S := [[c] + S'[0]] + S'[1..];
      assert R[0] == S'[0];
      assert R[1..] == Init(S')[1..] + T;
      assert Init(S) == [[c] + S'[0]] + Init(S')[1..];
    }
  }

  /** `s.endswith(suffix)` */
  predicate EndsWith(s: string, suffix: string)
  {
    |suffix| <= |s| && s[|s| - |suffix|..] == suffix
  }

  lemma EndsWithTrans(a: string, b: string, c: string)
    requires EndsWith(a, b) && EndsWith(b, c)
    ensures EndsWith(a, c)
  {
    assert a[|a| - |c|..] == b[|b| - |c|..];
  }

  /** `s.replace(a, b)` for single characters: every `a` becomes `b`, every
      other character is kept, in place. */
  function ReplaceChar(s: string, a: char, b: char): (r: string)
    ensures |r| == |s|
    ensures forall i :: 0 <= i < |s| ==> r[i] == (if s[i] == a then b else s[i])
    ensures a != b ==> a !in r
  {
    if |s| == 0 then ""
    else [if s[0] == a then b else s[0]] + ReplaceChar(s[1..], a, b)
  }

  lemma ReplaceCharAppend(s: string, t: string, a: char, b: char)
    ensures ReplaceChar(s + t, a, b) == ReplaceChar(s, a, b) + ReplaceChar(t, a, b)
  {
  }

  lemma ReplaceCharAbsent(s: string, a: char, b: char)
    requires a !in s
    ensures ReplaceChar(s, a, b) == s
  {
  }

  /** Replacing the separator of a join gives the join with the new
      separator, when no part contains the old one. */
  lemma {:induction false} ReplaceCharJoin(parts: seq<string>, a: char, b: char)
    requires |parts| > 0
    requires forall i :: 0 <= i < |parts| ==> a !in parts[i]
    ensures ReplaceChar(Join(parts, a), a, b) == Join(parts, b)
    decreases |parts|
  {
    ReplaceCharAbsent(parts[0], a, b);
    if |parts| > 1 {
      ReplaceCharJoin(parts[1..], a, b);
      ReplaceCharAppend(parts[0] + [a], Join(parts[1..], a), a, b);
      ReplaceCharAppend(parts[0], [a], a, b);
    }
  }
}
