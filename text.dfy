/**
 * The few string operations of the .NET base library that the template rules
 * rely on: invariant lower-casing, substring search, splitting on a separator
 * character and `Path.GetExtension`.
 */
module Text {

  /** Lower-cases one character; only the ASCII letters A-Z are mapped. */
  function LowerChar(c: char): char
  {
    if 'A' <= c <= 'Z' then (c as int + 32) as char else c
  }

  /** `String.ToLowerInvariant`, restricted to the ASCII letters. */
  function Lower(s: string): (r: string)
    ensures |r| == |s|
    ensures forall i :: 0 <= i < |s| ==> r[i] == LowerChar(s[i])
  {
    if s == [] then [] else [LowerChar(s[0])] + Lower(s[1..])
  }

  lemma LowerConcat(a: string, b: string)
    ensures Lower(a + b) == Lower(a) + Lower(b)
  {
  }

  /** `sub` occurs in `s` starting at position `i`. */
  predicate OccursAt(s: string, sub: string, i: int)
  {
    0 <= i && i + |sub| <= |s| && s[i..i + |sub|] == sub
  }

  /** `String.Contains`: `sub` occurs somewhere in `s`. */
  predicate Contains(s: string, sub: string)
  {
    exists i | 0 <= i <= |s| - |sub| :: OccursAt(s, sub, i)
  }

  /** An occurrence in either half of a concatenation is an occurrence in the whole. */
  lemma ContainsInConcat(a: string, b: string, sub: string)
    ensures Contains(a, sub) ==> Contains(a + b, sub)
    ensures Contains(b, sub) ==> Contains(a + b, sub)
  {
    if Contains(a, sub) {
      var i :| 0 <= i <= |a| - |sub| && OccursAt(a, sub, i);
      assert (a + b)[i..i + |sub|] == a[i..i + |sub|];
      assert OccursAt(a + b, sub, i);
    }
    if Contains(b, sub) {
      var k :| 0 <= k <= |b| - |sub| && OccursAt(b, sub, k);
      assert (a + b)[|a| + k..|a| + k + |sub|] == b[k..k + |sub|];
      assert OccursAt(a + b, sub, |a| + k);
    }
  }

  /** Number of occurrences of the character `c` in `s`. */
  function Count(s: string, c: char): nat
  {
    if s == [] then 0 else (if s[0] == c then 1 else 0) + Count(s[1..], c)
  }

  /** Occurrences in a concatenation are those of its two halves. */
  lemma {:induction false} CountConcat(a: string, b: string, c: char)
    ensures Count(a + b, c) == Count(a, c) + Count(b, c)
  {
    if a != [] {
      assert (a + b)[0] == a[0] && (a + b)[1..] == a[1..] + b;
      CountConcat(a[1..], b, c);
    } else {
      assert a + b == b;
    }
  }

  /** A character occurs in a string iff it is counted there. */
  lemma {:induction false} CountPositive(s: string, c: char)
    ensures c in s <==> Count(s, c) > 0
  {
    if s != [] {
      CountPositive(s[1..], c);
      assert s == [s[0]] + s[1..];
    }
  }

  /**
   * `String.Split(sep)`: the maximal `sep`-free pieces of `s`, in order; there is
   * always one piece more than there are separators.
   */
  function Split(s: string, sep: char): (parts: seq<string>)
    ensures |parts| == Count(s, sep) + 1
    ensures forall i :: 0 <= i < |parts| ==> sep !in parts[i]
  {
    if s == [] then [""]
    else
      var rest := Split(s[1..], sep);
      if s[0] == sep then [""] + rest
      else [[s[0]] + rest[0]] + rest[1..]
  }

  /** `String.Join(sep, parts)`; the inverse of Split. */
  function Join(parts: seq<string>, sep: char): string
  {
    if parts == [] then ""
    else if |parts| == 1 then parts[0]
    else parts[0] + [sep] + Join(parts[1..], sep)
  }

  /** Joining the pieces of a split gives back the original string. */
  lemma {:induction false} JoinSplit(s: string, sep: char)
    ensures Join(Split(s, sep), sep) == s
  {
    if s != [] {
      var rest := Split(s[1..], sep);
      JoinSplit(s[1..], sep);
      if s[0] == sep {
        assert s == [sep] + s[1..];
      } else if |rest| == 1 {
        assert s == [s[0]] + s[1..];
      } else {
        assert Join(rest, sep) == rest[0] + [sep] + Join(rest[1..], sep);
        assert s == [s[0]] + s[1..];
      }
    }
  }

  /** Splitting a string that starts with a separator-free piece `a`. */
  lemma {:induction false} SplitAfterPiece(a: string, t: string, sep: char)
    requires sep !in a
    ensures Split(a + t, sep) == [a + Split(t, sep)[0]] + Split(t, sep)[1..]
  {
    if a != [] {
      var st := Split(t, sep);
      SplitAfterPiece(a[1..], t, sep);
      assert (a + t)[0] == a[0] && (a + t)[1..] == a[1..] + t;
      var rest := Split(a[1..] + t, sep);
      assert rest[0] == a[1..] + st[0] && rest[1..] == st[1..];
      assert Split(a + t, sep) == [[a[0]] + rest[0]] + rest[1..];
      assert [a[0]] + (a[1..] + st[0]) == a + st[0];
    } else {
      assert a + t == t && a + Split(t, sep)[0] == Split(t, sep)[0];
      assert [a + Split(t, sep)[0]] + Split(t, sep)[1..] == Split(t, sep);
    }
  }

  /** Splitting the join of separator-free pieces gives back those pieces. */
  lemma {:induction false} SplitJoin(parts: seq<string>, sep: char)
    requires |parts| >= 1
    requires forall i :: 0 <= i < |parts| ==> sep !in parts[i]
    ensures Split(Join(parts, sep), sep) == parts
  {
    if |parts| == 1 {
      SplitAfterPiece(parts[0], "", sep);
      assert parts[0] + "" == parts[0];
    } else {
      var tail := Join(parts[1..], sep);
      SplitJoin(parts[1..], sep);
      assert Join(parts, sep) == parts[0] + ([sep] + tail);
      SplitAfterPiece(parts[0], [sep] + tail, sep);
      assert ([sep] + tail)[0] == sep && ([sep] + tail)[1..] == tail;
      assert Split([sep] + tail, sep) == [""] + parts[1..];
      assert parts[0] + "" == parts[0];
      assert parts == [parts[0]] + parts[1..];
    }
  }

  /** The characters at which `Path.GetExtension` stops scanning backwards. */
  predicate IsMark(c: char)
  {
    c == '.' || c == '\\' || c == '/' || c == ':'
  }

  /** Index of the last `.` or path separator in `s`, or -1 if there is none. */
  function LastMark(s: string): (r: int)
    ensures -1 <= r < |s|
    ensures r >= 0 ==> IsMark(s[r])
    ensures forall j :: r < j < |s| ==> !IsMark(s[j])
  {
    if s == [] then -1
    else if IsMark(s[|s| - 1]) then |s| - 1
    else LastMark(s[..|s| - 1])
  }

  /**
   * `Path.GetExtension`: the suffix starting at the last `.`, provided that dot
   * comes after every directory or volume separator and is not the final
   * character; otherwise the empty string.
   */
  function GetExtension(path: string): (ext: string)
    ensures ext == [] || (2 <= |ext| <= |path| && ext[0] == '.' && path == path[..|path| - |ext|] + ext)
    ensures forall j :: 1 <= j < |ext| ==> !IsMark(ext[j])
  {
    var i := LastMark(path);
    if 0 <= i < |path| - 1 && path[i] == '.' then path[i..] else ""
  }

  /** A well-formed extension: a dot followed by at least one character that is no dot or separator. */
  predicate IsExtension(ext: string)
  {
    |ext| >= 2 && ext[0] == '.' && forall j :: 1 <= j < |ext| ==> !IsMark(ext[j])
  }

  /** The extension of `base + ext` is `ext`, whatever `base` is. */
  lemma ExtensionOfName(base: string, ext: string)
    requires IsExtension(ext)
    ensures GetExtension(base + ext) == ext
  {
    var path := base + ext;
    var i := LastMark(path);
    assert path[|base|] == '.';
    assert forall j :: |base| < j < |path| ==> path[j] == ext[j - |base|];
    assert i == |base|;
    assert path[i..] == ext;
  }
}
