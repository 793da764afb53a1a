/** Windows path handling as Python's `ntpath` does it (`os.path` on the
    director's Windows host, Python 3.12): `splitroot`, `split`/`dirname`,
    and `join` of a path with further plain names. Both `\` and `/` are
    separators. */
module NtPath {
  import Text

  predicate IsSep(c: char)
  {
    c == '\\' || c == '/'
  }

  predicate NoSep(s: string)
  {
    '\\' !in s && '/' !in s
  }

  /** The first separator at or after `from`, if any. */
  function FindSep(p: string, from: nat): (r: int)
    ensures r == -1 || (from <= r < |p| && IsSep(p[r]))
    ensures r == -1 ==> forall i :: from <= i < |p| ==> !IsSep(p[i])
    ensures r != -1 ==> forall i :: from <= i < r ==> !IsSep(p[i])
    decreases |p| - from
  {
    if from >= |p| then -1
    else if IsSep(p[from]) then from
    else FindSep(p, from + 1)
  }

  predicate UpperIs(c: char, upper: char)
  {
    c == upper || c as int == upper as int + 32
  }

  /** `\\?\UNC\` in either separator and any case of `UNC`. */
  predicate UncPrefix(p: string)
  {
    && |p| >= 8 && IsSep(p[0]) && IsSep(p[1]) && p[2] == '?' && IsSep(p[3])
    && UpperIs(p[4], 'U') && UpperIs(p[5], 'N') && UpperIs(p[6], 'C') && IsSep(p[7])
  }

  datatype Root = Root(drive: string, root: string, path: string)

  /** A path in three consecutive pieces with at most one separator as the
      root. */
  predicate Pieces(p: string, r: Root)
  {
    r.drive + r.root + r.path == p && |r.root| <= 1 && (|r.root| == 1 ==> IsSep(r.root[0]))
  }

  /** `\\server\share\rest`: the drive runs to the separator after the
      share name, which is the root; without it the whole path is the
      drive. */
  function UncSplit(p: string): (r: Root)
    requires |p| >= 2 && IsSep(p[0]) && IsSep(p[1])
    ensures Pieces(p, r)
  {
    var start := if UncPrefix(p) then 8 else 2;
    var index := FindSep(p, start);
    if index == -1 then Root(p, "", "")
    else
      var index2 := FindSep(p, index + 1);
      if index2 == -1 then Root(p, "", "")
      else
        assert p[..index2] + p[index2..index2 + 1] + p[index2 + 1..] == p;
        Root(p[..index2], p[index2..index2 + 1], p[index2 + 1..])
  }

  /** `X:\rest` or `X:rest` */
  function DriveSplit(p: string): (r: Root)
    requires |p| >= 2 && p[1] == ':'
    ensures Pieces(p, r) && r.drive == p[..2]
  {
    if |p| >= 3 && IsSep(p[2]) then
      assert p[..2] + p[2..3] + p[3..] == p;
      Root(p[..2], p[2..3], p[3..])
    else
      assert p[..2] + p[2..] == p;
      Root(p[..2], "", p[2..])
  }

  /** `ntpath.splitroot(p)`: a drive (`C:` or a UNC `\\server\share`), a
      root separator, and the rest. */
  function SplitRoot(p: string): (r: Root)
    ensures Pieces(p, r)
    ensures (|p| == 0 || !IsSep(p[0])) && (|p| < 2 || p[1] != ':') ==> r == Root("", "", p)
    ensures |r.root| == 0 && |r.drive| > 0 && |r.path| > 0 ==> r.drive[|r.drive| - 1] == ':'
  {
    if |p| >= 1 && IsSep(p[0]) then
      if |p| >= 2 && IsSep(p[1]) then UncSplit(p)
      else
        assert p[..1] + p[1..] == p;
        Root("", p[..1], p[1..])
    else if |p| >= 2 && p[1] == ':' then DriveSplit(p)
    else Root("", "", p)
  }

  /** `s.rstrip('\\/')` */
  function RStripSeps(s: string): (r: string)
    ensures |r| <= |s| && r == s[..|r|]
    ensures forall i :: |r| <= i < |s| ==> IsSep(s[i])
    ensures |r| == 0 || !IsSep(r[|r| - 1])
  {
    if |s| > 0 && IsSep(s[|s| - 1]) then RStripSeps(s[..|s| - 1]) else s
  }

  /** Length of the longest prefix of `s` that ends in a separator (0 when
      there is none). */
  function LastSepEnd(s: string): (i: nat)
    ensures i <= |s|
    ensures i > 0 ==> IsSep(s[i - 1])
    ensures NoSep(s[i..])
  {
    if |s| == 0 || IsSep(s[|s| - 1]) then |s|
    else
      var i := LastSepEnd(s[..|s| - 1]);
      assert s[i..] == s[..|s| - 1][i..] + [s[|s| - 1]];
      i
  }

  /** `ntpath.split(p)`: the last component, and everything before it with
      trailing separators removed (but never the drive or root). */
  function Split(p: string): (r: (string, string))
  {
    var parts := SplitRoot(p);
    SplitAfter(parts.drive + parts.root, parts.path)
  }

  /** The split of the part after the drive and root `front`. */
  function SplitAfter(front: string, path: string): (r: (string, string))
  {
    var i := LastSepEnd(path);
    (front + RStripSeps(path[..i]), path[i..])
  }

  /** `ntpath.dirname(p)` */
  function DirName(p: string): (r: string)
  {
    Split(p).0
  }

  /** What `split` promises: the tail is the final run without separators,
      the head is a prefix of `p`, and only separators lie between them,
      with the head ending in a separator only when it is the drive and
      root alone. */
  lemma SplitParts(p: string)
    ensures var (head, tail) := Split(p);
            && NoSep(tail)
            && |head| + |tail| <= |p|
            && p[|p| - |tail|..] == tail
            && p[..|head|] == head
            && (forall i :: |head| <= i < |p| - |tail| ==> IsSep(p[i]))
            && (|head| == 0 || !IsSep(head[|head| - 1]) || head == SplitRoot(p).drive + SplitRoot(p).root)
  {
    var parts := SplitRoot(p);
    var front := parts.drive + parts.root;
    assert p == front + parts.path;
    var (head, tail) := SplitAfter(front, parts.path);
    assert Split(p) == (head, tail);
    SplitEnds(front, parts.path);
    SplitGap(front, parts.path);
    assert NoSep(tail);
  }

  /** The head of a split is a prefix of the path and the tail a suffix. */
  lemma SplitEnds(front: string, path: string)
    ensures var (head, tail) := SplitAfter(front, path);
            var p := front + path;
            && |head| + |tail| <= |p|
            && p[|p| - |tail|..] == tail
            && p[..|head|] == head
  {
    var i := LastSepEnd(path);
    var stripped := RStripSeps(path[..i]);
    var p := front + path;
    assert path[..i] + path[i..] == path;
    assert p[|front|..] == path;
    assert stripped == path[..|stripped|];
    assert p[..|front| + |stripped|] == front + stripped;
  }

  /** Only separators lie between the head and the tail, and the head ends
      in one only when it is the drive and root alone. */
  lemma SplitGap(front: string, path: string)
    ensures var (head, tail) := SplitAfter(front, path);
            var p := front + path;
            && (forall j :: |head| <= j < |p| - |tail| ==> IsSep(p[j]))
            && (|head| == 0 || !IsSep(head[|head| - 1]) || head == front)
  {
    var i := LastSepEnd(path);
    var stripped := RStripSeps(path[..i]);
    var p := front + path;
    forall j | |front| + |stripped| <= j < |p| - |path[i..]|
      ensures IsSep(p[j])
    {
      assert p[j] == path[..i][j - |front|];
    }
    if |stripped| > 0 {
      assert (front + stripped)[|front + stripped| - 1] == stripped[|stripped| - 1];
    }
  }

  /** `X:\dir\file`: the directory keeps its drive and root and loses only
      the last component and the separator before it. */
  lemma DirNameOfFile(dir: string, name: string)
    requires |dir| > 0 && !IsSep(dir[|dir| - 1]) && !IsSep(dir[0]) && NoSep(name) && |name| > 0
    requires |dir| < 2 || dir[1] != ':'
    ensures DirName(dir + "\\" + name) == dir
  {
    var p := dir + "\\" + name;
    FileShape(dir, name);
    RelativeDirName(p);
    StripOneSep(dir);
  }

  /** Where `dir\name` is cut: after the separator that joins them. */
  lemma FileShape(dir: string, name: string)
    requires |dir| > 0 && !IsSep(dir[0]) && NoSep(name)
    requires |dir| < 2 || dir[1] != ':'
    ensures var p := dir + "\\" + name;
            && |p| > 0 && !IsSep(p[0]) && (|p| < 2 || p[1] != ':')
            && LastSepEnd(p) == |dir| + 1
            && p[..LastSepEnd(p)] == dir + "\\"
  {
    var p := dir + "\\" + name;
    AroundSep(dir, name);
    LastSepEndAfter(p, |dir|);
  }

  lemma AroundSep(dir: string, name: string)
    ensures var p := dir + "\\" + name;
            && p[|dir|] == '\\' && p[..|dir| + 1] == dir + "\\" && p[|dir| + 1..] == name
            && (|dir| > 0 ==> p[0] == dir[0])
            && (|dir| > 1 ==> p[1] == dir[1])
  {
  }

  /** A path with no drive and no root splits at its last separator. */
  lemma RelativeSplit(p: string)
    requires |p| > 0 && !IsSep(p[0]) && (|p| < 2 || p[1] != ':')
    ensures Split(p) == (RStripSeps(p[..LastSepEnd(p)]), p[LastSepEnd(p)..])
  {
    assert SplitRoot(p) == Root("", "", p);
    assert Split(p) == SplitAfter("", p) by {
      assert "" + "" == "";
    }
    NoFront(p);
  }

  lemma NoFront(path: string)
    ensures SplitAfter("", path) == (RStripSeps(path[..LastSepEnd(path)]), path[LastSepEnd(path)..])
  {
    var i := LastSepEnd(path);
    assert "" + RStripSeps(path[..i]) == RStripSeps(path[..i]);
  }

  lemma RelativeDirName(p: string)
    requires |p| > 0 && !IsSep(p[0]) && (|p| < 2 || p[1] != ':')
    ensures DirName(p) == RStripSeps(p[..LastSepEnd(p)])
  {
    RelativeSplit(p);
  }

  lemma StripOneSep(dir: string)
    requires |dir| > 0 && !IsSep(dir[|dir| - 1])
    ensures RStripSeps(dir + "\\") == dir
  {
    assert (dir + "\\")[..|dir|] == dir;
  }

  lemma LastSepEndAfter(s: string, k: nat)
    requires k < |s| && IsSep(s[k]) && NoSep(s[k + 1..])
    ensures LastSepEnd(s) == k + 1
    decreases |s|
  {
    if k + 1 < |s| {
      assert !IsSep(s[|s| - 1]) by { assert s[|s| - 1] == s[k + 1..][|s| - k - 2]; }
      assert s[..|s| - 1][k + 1..] == s[k + 1..|s| - 1];
      LastSepEndAfter(s[..|s| - 1], k);
    }
  }

  /** A name `join` treats as relative with no drive: it does not start with
      a separator and has no drive colon. */
  predicate Plain(name: string)
  {
    SplitRoot(name) == Root("", "", name)
  }

  /** Appending one plain name to the path part: a `\` goes between them
      unless the path part is empty or already ends in a separator. */
  function AppendName(path: string, name: string): (r: string)
    ensures |path| > 0 && !IsSep(path[|path| - 1]) ==> r == path + "\\" + name
    ensures |path| == 0 || IsSep(path[|path| - 1]) ==> r == path + name
  {
    if |path| > 0 && !IsSep(path[|path| - 1]) then path + "\\" + name else path + name
  }

  function AppendNames(path: string, names: seq<string>): string
    decreases |names|
  {
    if |names| == 0 then path else AppendNames(AppendName(path, names[0]), names[1..])
  }

  /** `ntpath.join(p, *names)` for plain names. A UNC drive with nothing
      after it gets a `\` before the joined names. */
  function Join(p: string, names: seq<string>): (r: string)
    requires forall i :: 0 <= i < |names| ==> Plain(names[i])
  {
    var parts := SplitRoot(p);
    Rejoin(parts, AppendNames(parts.path, names))
  }

  /** The drive and root put back in front of the joined path. */
  function Rejoin(parts: Root, path: string): (r: string)
    ensures Text.EndsWith(r, path)
  {
    var front :=
      if |path| > 0 && |parts.root| == 0 && |parts.drive| > 0
         && !(parts.drive[|parts.drive| - 1] == ':' || IsSep(parts.drive[|parts.drive| - 1]))
      then parts.drive + "\\"
      else parts.drive + parts.root;
    assert (front + path)[|front|..] == path;
    front + path
  }

  /** A single path component: not empty, no separator and no drive colon. */
  predicate Name(s: string)
  {
    |s| > 0 && NoSep(s) && ':' !in s
  }

  /** Components are plain names and may follow one another in a join. */
  lemma NamesArePlain(names: seq<string>)
    requires forall i :: 0 <= i < |names| ==> Name(names[i])
    ensures forall i :: 0 <= i < |names| ==> Plain(names[i])
    ensures Components(names)
  {
    forall i | 0 <= i < |names|
      ensures Plain(names[i]) && !IsSep(names[i][|names[i]| - 1])
    {
      var n := names[i];
      assert n[0] in n && n[|n| - 1] in n;
      assert |n| >= 2 ==> n[1] in n;
    }
  }

  /** Non-empty names that do not end in a separator, as the director
      joins. */
  predicate Components(names: seq<string>)
  {
    forall i :: 0 <= i < |names| ==> |names[i]| > 0 && !IsSep(names[i][|names[i]| - 1])
  }

  /** After a path that does not end in a separator, each name is added
      behind one `\`. */
  lemma {:induction false} AppendNamesAfter(path: string, names: seq<string>)
    requires |path| > 0 && !IsSep(path[|path| - 1])
    requires |names| > 0 && Components(names)
    ensures AppendNames(path, names) == path + "\\" + Text.Join(names, '\\')
    decreases |names|
  {
    var first := path + "\\" + names[0];
    assert AppendName(path, names[0]) == first;
    if |names| == 1 {
      assert AppendNames(first, names[1..]) == first;
    } else {
      assert first[|first| - 1] == names[0][|names[0]| - 1];
      assert Components(names[1..]) by {
        forall i | 0 <= i < |names[1..]|
          ensures |names[1..][i]| > 0 && !IsSep(names[1..][i][|names[1..][i]| - 1])
        {
          assert names[1..][i] == names[i + 1];
        }
      }
      AppendNamesAfter(first, names[1..]);
      assert first + "\\" + Text.Join(names[1..], '\\') == path + "\\" + (names[0] + "\\" + Text.Join(names[1..], '\\'));
    }
  }

  /** Whatever the path, the appended names come last. */
  lemma AppendNamesEnds(path: string, names: seq<string>)
    requires |names| > 0 && Components(names)
    ensures Text.EndsWith(AppendNames(path, names), Text.Join(names, '\\'))
  {
    var first := AppendName(path, names[0]);
    var prefix := first[..|first| - |names[0]|];
    var joined := Text.Join(names, '\\');
    assert first == prefix + names[0];
    assert AppendNames(path, names) == prefix + joined by {
      if |names| == 1 {
        assert AppendNames(first, names[1..]) == first;
      } else {
        assert first[|first| - 1] == names[0][|names[0]| - 1];
        assert Components(names[1..]) by {
          forall i | 0 <= i < |names[1..]|
            ensures |names[1..][i]| > 0 && !IsSep(names[1..][i][|names[1..][i]| - 1])
          {
            assert names[1..][i] == names[i + 1];
          }
        }
        AppendNamesAfter(first, names[1..]);
        Regroup(prefix, names[0], Text.Join(names[1..], '\\'));
      }
    }
    assert (prefix + joined)[|prefix|..] == joined;
  }

  /** `join` always ends with the names it appended. */
  lemma JoinEnds(p: string, names: seq<string>)
    requires forall i :: 0 <= i < |names| ==> Plain(names[i])
    requires |names| > 0 && Components(names)
    ensures Text.EndsWith(Join(p, names), Text.Join(names, '\\'))
  {
    var parts := SplitRoot(p);
    var path := AppendNames(parts.path, names);
    AppendNamesEnds(parts.path, names);
    Text.EndsWithTrans(Join(p, names), path, Text.Join(names, '\\'));
  }

  lemma Regroup(front: string, path: string, tail: string)
    ensures front + (path + "\\" + tail) == front + path + "\\" + tail
  {
  }

  /** A directory whose part after the drive and root is not empty and does
      not end in a separator gets the names after one `\`. */
  lemma JoinAfterDirectory(p: string, names: seq<string>)
    requires forall i :: 0 <= i < |names| ==> Plain(names[i])
    requires |names| > 0 && Components(names)
    requires |SplitRoot(p).path| > 0 && !IsSep(p[|p| - 1])
    ensures Join(p, names) == p + "\\" + Text.Join(names, '\\')
  {
    var parts := SplitRoot(p);
    var B := Text.Join(names, '\\');
    assert parts.path[|parts.path| - 1] == p[|p| - 1];
    AppendNamesAfter(parts.path, names);
    var path := AppendNames(parts.path, names);
    assert path == parts.path + "\\" + B;
    assert |parts.root| == 0 && |parts.drive| > 0 ==> parts.drive[|parts.drive| - 1] == ':';
    assert Join(p, names) == parts.drive + parts.root + path;
    var front := parts.drive + parts.root;
    Regroup(front, parts.path, B);
    assert front + parts.path == p;
  }
}
