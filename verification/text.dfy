/**
 Python `str` operations the handlers rely on: `strip`, `split`, `join` and an
 ASCII `upper`, over Dafny strings (sequences of Unicode scalar values).
 */
module Text {

  /** True for a character of the 7-bit ASCII range. */
  predicate IsAscii(c: char) {
    c as int < 128
  }

  predicate AllAscii(s: string) {
    forall i :: 0 <= i < |s| ==> IsAscii(s[i])
  }

  /** The character removed by `strip('\x00')`. */
  predicate IsNul(c: char) {
    c == '\0'
  }

  /** The characters `str.isspace()` accepts, which `str.strip()` removes. */
  predicate IsSpace(c: char) {
    var n := c as int;
    || 0x09 <= n <= 0x0D
    || 0x1C <= n <= 0x20
    || n == 0x85 || n == 0xA0 || n == 0x1680
    || 0x2000 <= n <= 0x200A
    || n == 0x2028 || n == 0x2029 || n == 0x202F || n == 0x205F || n == 0x3000
  }

  /** The two sets of characters the handlers strip: NULs (`strip('\x00')`) and whitespace (`strip()`). */
  datatype Stripped = Nuls | Spaces

  /** True when `strip` of kind `k` removes `c`. */
  predicate Drops(k: Stripped, c: char) {
    match k
    case Nuls => IsNul(c)
    case Spaces => IsSpace(c)
  }

  /** `s` without its longest prefix of characters that kind `p` drops. */
  function TrimStart(s: string, p: Stripped): (r: string)
    ensures |r| <= |s| && r == s[|s| - |r|..]
    ensures forall i :: 0 <= i < |s| - |r| ==> Drops(p, s[i])
    ensures r != [] ==> !Drops(p, r[0])
    decreases |s|
  {
    if |s| > 0 && Drops(p, s[0]) then TrimStart(s[1..], p) else s
  }

  /** `s` without its longest suffix of characters that kind `p` drops. */
  function TrimEnd(s: string, p: Stripped): (r: string)
    ensures |r| <= |s| && r == s[..|r|]
    ensures forall i :: |r| <= i < |s| ==> Drops(p, s[i])
    ensures r != [] ==> !Drops(p, r[|r| - 1])
    decreases |s|
  {
    if |s| > 0 && Drops(p, s[|s| - 1]) then TrimEnd(s[..|s| - 1], p) else s
  }

  /** `r` is the slice of `s` starting at `i`, and kind `p` drops every character of `s` around it. */
  predicate TrimmedAt(s: string, r: string, p: Stripped, i: int) {
    && 0 <= i <= |s| - |r|
    && r == s[i..i + |r|]
    && (forall k :: 0 <= k < i ==> Drops(p, s[k]))
    && (forall k :: i + |r| <= k < |s| ==> Drops(p, s[k]))
  }

  /**
   Python's `strip`: the slice of `s` left after dropping every leading and every trailing
   character that kind `p` drops; its own ends are kept characters.
   */
  function Trim(s: string, p: Stripped): (r: string)
    ensures |r| <= |s|
    ensures exists i :: TrimmedAt(s, r, p, i)
    ensures r != [] ==> !Drops(p, r[0]) && !Drops(p, r[|r| - 1])
    ensures r == [] <==> forall i :: 0 <= i < |s| ==> Drops(p, s[i])
  {
    var e := TrimEnd(s, p);
    var r := TrimStart(e, p);
    assert r != [] ==> r[|r| - 1] == e[|e| - 1];
    assert TrimmedAt(s, r, p, |e| - |r|) by {
      assert forall k :: 0 <= k < |e| ==> e[k] == s[k];
      assert r == s[|e| - |r|..|e|];
    }
    r
  }

  /** Stripping ASCII text leaves ASCII text. */
  lemma TrimAscii(s: string, p: Stripped)
    requires AllAscii(s)
    ensures AllAscii(Trim(s, p))
  {
    var r := Trim(s, p);
    var i :| TrimmedAt(s, r, p, i);
    assert forall k :: 0 <= k < |r| ==> r[k] == s[i + k];
  }

  /** The slice with kept ends and dropped surroundings is unique: it is what `Trim` returns. */
  lemma TrimIsTheSlice(s: string, r: string, p: Stripped, i: int)
    requires TrimmedAt(s, r, p, i)
    requires r != [] ==> !Drops(p, r[0]) && !Drops(p, r[|r| - 1])
    ensures Trim(s, p) == r
  {
    var t := Trim(s, p);
    var j :| TrimmedAt(s, t, p, j);
    if r == [] {
      assert forall k :: 0 <= k < |s| ==> Drops(p, s[k]) by {
        forall k | 0 <= k < |s| ensures Drops(p, s[k]) {
          assert k < i || i + |r| <= k;
        }
      }
    } else {
      assert r[0] == s[i];
      assert t != [];
      assert t[0] == s[j];
      assert i == j;
      assert r[|r| - 1] == s[i + |r| - 1] && t[|t| - 1] == s[j + |t| - 1];
      assert |r| == |t|;
    }
  }

  /** `s.strip('\x00')` */
  function StripNul(s: string): string {
    Trim(s, Nuls)
  }

  /** `s.strip()` */
  function StripSpace(s: string): string {
    Trim(s, Spaces)
  }

  /** A string whose ends kind `p` does not drop is its own strip. */
  lemma TrimUntouched(s: string, p: Stripped)
    requires s != [] ==> !Drops(p, s[0]) && !Drops(p, s[|s| - 1])
    ensures Trim(s, p) == s
  {
  }

  /** Droppable characters appended to `s` disappear again under `Trim`. */
  lemma {:induction false} TrimIgnoresTail(s: string, tail: string, p: Stripped)
    requires forall i :: 0 <= i < |tail| ==> Drops(p, tail[i])
    ensures Trim(s + tail, p) == Trim(s, p)
    decreases |tail|
  {
    if tail == [] {
      assert s + tail == s;
    } else {
      var front := tail[..|tail| - 1];
      assert (s + tail)[..|s + tail| - 1] == s + front;
      assert Drops(p, (s + tail)[|s + tail| - 1]);
      assert TrimEnd(s + tail, p) == TrimEnd(s + front, p);
      TrimIgnoresTail(s, front, p);
    }
  }

  /** Python's `sep.join(parts)`. */
  function Join(parts: seq<string>, sep: string): string
    decreases |parts|
  {
    if |parts| == 0 then ""
    else if |parts| == 1 then parts[0]
    else parts[0] + sep + Join(parts[1..], sep)
  }

  /** A join starts with its first part. */
  lemma JoinStartsWithFirst(parts: seq<string>, sep: string)
    requires parts != []
    ensures parts[0] <= Join(parts, sep)
  {
    if |parts| > 1 {
      assert Join(parts, sep) == parts[0] + (sep + Join(parts[1..], sep));
    }
  }

  /** Python's `s.split(sep)` for a one-character separator: never empty, and empty pieces are kept. */
  function Split(s: string, sep: char): (parts: seq<string>)
    ensures |parts| >= 1
    ensures forall i :: 0 <= i < |parts| ==> sep !in parts[i]
    ensures Join(parts, [sep]) == s
    decreases |s|
  {
    if |s| == 0 then [""]
    else
      var rest := Split(s[1..], sep);
      if s[0] == sep then
        assert Join([""] + rest, [sep]) == [sep] + Join(rest, [sep]) by {
          assert ([""] + rest)[1..] == rest;
        }
        [""] + rest
      else
        var parts := [[s[0]] + rest[0]] + rest[1..];
        assert parts[1..] == rest[1..];
        assert Join(parts, [sep]) == [s[0]] + Join(rest, [sep]);
        parts
  }

  /** Splitting undoes joining when no piece holds the separator. */
  lemma {:induction false} SplitJoin(parts: seq<string>, sep: char)
    requires |parts| >= 1
    requires forall i :: 0 <= i < |parts| ==> sep !in parts[i]
    ensures Split(Join(parts, [sep]), sep) == parts
    decreases |parts|
  {
    if |parts| == 1 {
      SplitNoSeparator(parts[0], sep);
    } else {
      SplitJoin(parts[1..], sep);
      SplitAfterPiece(parts[0], Join(parts[1..], [sep]), sep);
      assert parts == [parts[0]] + parts[1..];
    }
  }

  lemma {:induction false} SplitNoSeparator(s: string, sep: char)
    requires sep !in s
    ensures Split(s, sep) == [s]
    decreases |s|
  {
    if s != [] {
      SplitNoSeparator(s[1..], sep);
    }
  }

  lemma {:induction false} SplitAfterPiece(piece: string, rest: string, sep: char)
    requires sep !in piece
    ensures Split(piece + [sep] + rest, sep) == [piece] + Split(rest, sep)
    decreases |piece|
  {
    var s := piece + [sep] + rest;
    if piece == [] {
      assert s[1..] == rest;
    } else {
      assert s[1..] == piece[1..] + [sep] + rest;
      SplitAfterPiece(piece[1..], rest, sep);
      assert [s[0]] + piece[1..] == piece;
    }
  }

  /** Python's `c.upper()` restricted to ASCII letters. */
  function UpperChar(c: char): char {
    if 'a' <= c <= 'z' then (c as int - 32) as char else c
  }

  /** Python's `s.upper()` restricted to ASCII letters: same length, letters raised one by one. */
  function Upper(s: string): (r: string)
    ensures |r| == |s|
    ensures forall i :: 0 <= i < |s| ==> r[i] == UpperChar(s[i])
  {
    seq(|s|, i requires 0 <= i < |s| => UpperChar(s[i]))
  }
}
