/** The parts of Python's `str` that the scanner uses, restricted to ASCII:
    `isspace`, `lower`, `strip`, `split("\n")`, `startswith` and the substring
    test `k in s`. */
module Text {

  /** `c.isspace()` for an ASCII character: tab, line feed, vertical tab, form
      feed, carriage return, the four information separators and space. */
  predicate IsSpace(c: char) {
    9 <= c as int <= 13 || 28 <= c as int <= 32
  }

  /** `c.lower()` for an ASCII character. */
  function LowerChar(c: char): (r: char)
    ensures 'A' <= c <= 'Z' ==> r as int == c as int + 32
    ensures !('A' <= c <= 'Z') ==> r == c
  {
    if 'A' <= c <= 'Z' then (c as int + 32) as char else c
  }

  /** `s.lower()` */
  function Lower(s: string): (r: string)
    ensures |r| == |s|
    ensures forall i :: 0 <= i < |s| ==> r[i] == LowerChar(s[i])
  {
    seq(|s|, i requires 0 <= i < |s| => LowerChar(s[i]))
  }

  /** `s.lstrip()` (`TrimStartDropsSpaces` says what it drops). */
  function TrimStart(s: string): (r: string)
    ensures |r| <= |s|
  {
    if |s| > 0 && IsSpace(s[0]) then TrimStart(s[1..]) else s
  }

  /** `s.rstrip()` (`TrimEndDropsSpaces` says what it drops). */
  function TrimEnd(s: string): (r: string)
    ensures |r| <= |s|
  {
    if |s| > 0 && IsSpace(s[|s| - 1]) then TrimEnd(s[..|s| - 1]) else s
  }

  /** `s.lstrip()` cuts a run of whitespace from the front and stops at the
      first other character. */
  lemma {:induction false} TrimStartDropsSpaces(s: string)
    ensures var r := TrimStart(s);
      && |r| <= |s| && r == s[|s| - |r|..]
      && (forall i :: 0 <= i < |s| - |r| ==> IsSpace(s[i]))
      && (|r| > 0 ==> !IsSpace(r[0]))
  {
    if |s| > 0 && IsSpace(s[0]) {
      var t := s[1..];
      TrimStartDropsSpaces(t);
      assert forall i :: 1 <= i < |s| ==> s[i] == t[i - 1];
    }
  }

  /** `s.rstrip()` cuts a run of whitespace from the back and stops at the
      last other character. */
  lemma {:induction false} TrimEndDropsSpaces(s: string)
    ensures var r := TrimEnd(s);
      && |r| <= |s| && r == s[..|r|]
      && (forall i :: |r| <= i < |s| ==> IsSpace(s[i]))
      && (|r| > 0 ==> !IsSpace(r[|r| - 1]))
  {
    if |s| > 0 && IsSpace(s[|s| - 1]) {
      var t := s[..|s| - 1];
      TrimEndDropsSpaces(t);
      assert forall i :: 0 <= i < |t| ==> s[i] == t[i];
    }
  }

  /** `r` is the slice of `s` at offset `i`, with only whitespace around it. */
  predicate SliceBetweenSpaces(s: string, i: int, r: string) {
    && 0 <= i <= i + |r| <= |s| && r == s[i..i + |r|]
    && (forall k :: 0 <= k < i ==> IsSpace(s[k]))
    && (forall k :: i + |r| <= k < |s| ==> IsSpace(s[k]))
  }

  /** `s.strip()` */
  function Strip(s: string): (r: string)
    ensures |r| <= |s|
  {
    TrimEnd(TrimStart(s))
  }

  /** The stripped text is a slice of `s` with only whitespace cut on either
      side, and it neither starts nor ends with whitespace. */
  lemma StripIsSlice(s: string)
    ensures exists i :: SliceBetweenSpaces(s, i, Strip(s))
    ensures |Strip(s)| > 0 ==> !IsSpace(Strip(s)[0]) && !IsSpace(Strip(s)[|Strip(s)| - 1])
  {
    var t := TrimStart(s);
    var r := TrimEnd(t);
    TrimStartDropsSpaces(s);
    TrimEndDropsSpaces(t);
    var off := |s| - |t|;
    assert r == t[..|r|] == s[off..off + |r|];
    assert forall k :: off + |r| <= k < |s| ==> s[k] == t[k - off];
    assert r == Strip(s);
    assert SliceBetweenSpaces(s, off, r);
    if |r| > 0 {
      assert r[0] == t[0];
    }
  }

  /** Stripping keeps only characters of the text. */
  lemma StripKeepsCharacters(s: string)
    ensures forall c :: c in Strip(s) ==> c in s
  {
    StripIsSlice(s);
    var i :| SliceBetweenSpaces(s, i, Strip(s));
    forall c | c in Strip(s)
      ensures c in s
    {
      var k :| 0 <= k < |Strip(s)| && Strip(s)[k] == c;
      assert s[i + k] == c;
    }
  }

  /** `s.startswith(p)` */
  predicate StartsWith(s: string, p: string) {
    |p| <= |s| && s[..|p|] == p
  }

  /** `k in s`: `k` occurs in `s` at some position. */
  predicate Contains(s: string, k: string)
    decreases |s|
  {
    StartsWith(s, k) || (|s| > 0 && Contains(s[1..], k))
  }

  /** `k` is the slice of `s` at offset `i`. */
  predicate OccursAt(s: string, k: string, i: int) {
    0 <= i <= |s| - |k| && s[i..i + |k|] == k
  }

  /** `k in s` holds exactly when `k` is the slice of `s` at some offset. */
  lemma {:induction false} ContainsAt(s: string, k: string)
    ensures Contains(s, k) <==> exists i :: OccursAt(s, k, i)
    decreases |s|
  {
    if StartsWith(s, k) {
      assert OccursAt(s, k, 0);
    } else if |s| > 0 {
      var t := s[1..];
      ContainsAt(t, k);
      if exists i :: OccursAt(t, k, i) {
        var i :| OccursAt(t, k, i);
        assert s[i + 1..i + 1 + |k|] == t[i..i + |k|];
        assert OccursAt(s, k, i + 1);
      }
      if exists i :: OccursAt(s, k, i) {
        var i :| OccursAt(s, k, i);
        assert i != 0;
        assert t[i - 1..i - 1 + |k|] == s[i..i + |k|];
        assert OccursAt(t, k, i - 1);
      }
    } else {
      assert forall i :: !OccursAt(s, k, i);
    }
  }

  /** `s.split("\n")`: the pieces between the line feeds, in order; there is
      always at least one piece, and "" splits into [""]. */
  function Split(s: string): (r: seq<string>)
    ensures |r| >= 1
  {
    if |s| == 0 then [""]
    else
      var rest := Split(s[1..]);
      if s[0] == '\n' then [""] + rest
      else [[s[0]] + rest[0]] + rest[1..]
  }

  /** `"\n".join(lines)` */
  function JoinLines(lines: seq<string>): string
    requires |lines| >= 1
  {
    if |lines| == 1 then lines[0] else lines[0] + "\n" + JoinLines(lines[1..])
  }

  /** No piece of a split contains a line feed. */
  lemma {:induction false} SplitHasNoNewline(s: string)
    ensures forall i :: 0 <= i < |Split(s)| ==> '\n' !in Split(s)[i]
  {
    if |s| > 0 {
      SplitHasNoNewline(s[1..]);
    }
  }

  /** Joining the pieces with line feeds gives back the text. */
  lemma {:induction false} JoinSplit(s: string)
    ensures JoinLines(Split(s)) == s
  {
    if |s| > 0 {
      var rest := Split(s[1..]);
      JoinSplit(s[1..]);
      if s[0] == '\n' {
        assert Split(s) == [""] + rest;
        assert Split(s)[1..] == rest;
      } else {
        if |rest| == 1 {
          assert JoinLines(Split(s)) == [s[0]] + rest[0];
        } else {
          assert Split(s)[1..] == rest[1..];
          assert JoinLines(Split(s)) == [s[0]] + (rest[0] + "\n" + JoinLines(rest[1..]));
        }
        assert [s[0]] + s[1..] == s;
      }
    }
  }

  /** A text without line feeds is a single piece. */
  lemma {:induction false} SplitSingleLine(s: string)
    requires '\n' !in s
    ensures Split(s) == [s]
  {
    if |s| > 0 {
      assert '\n' !in s[1..];
      SplitSingleLine(s[1..]);
      assert [s[0]] + s[1..] == s;
    }
  }

  /** The first piece is a prefix of the text. */
  lemma {:induction false} FirstPieceIsPrefix(s: string)
    ensures StartsWith(s, Split(s)[0])
  {
    if |s| > 0 && s[0] != '\n' {
      FirstPieceIsPrefix(s[1..]);
    }
  }

  /** A prefix free of line feeds lies within the first piece. */
  lemma {:induction false} PrefixInFirstPiece(s: string, p: string)
    requires StartsWith(s, p) && '\n' !in p
    ensures StartsWith(Split(s)[0], p)
  {
    if |p| > 0 {
      assert p[0] == s[0];
      assert StartsWith(s[1..], p[1..]) && '\n' !in p[1..];
      PrefixInFirstPiece(s[1..], p[1..]);
      assert [s[0]] + Split(s[1..])[0] == Split(s)[0];
      assert p == [p[0]] + p[1..];
    }
  }

  lemma ContainsAfterPrefix(c: char, s: string, k: string)
    requires Contains(s, k)
    ensures Contains([c] + s, k)
  {
    assert ([c] + s)[1..] == s;
  }

  /** Lower-casing commutes with splitting at line feeds. */
  lemma {:induction false} SplitLower(s: string)
    ensures Split(Lower(s)) == seq(|Split(s)|, i requires 0 <= i < |Split(s)| => Lower(Split(s)[i]))
  {
    if |s| > 0 {
      assert Lower(s)[1..] == Lower(s[1..]);
      SplitLower(s[1..]);
      var rest := Split(s[1..]);
      if s[0] != '\n' {
        assert Lower([s[0]] + rest[0]) == [LowerChar(s[0])] + Lower(rest[0]);
      }
    }
  }

  /** For a key without line feeds, occurring in the text and occurring in one
      of its lines are the same thing. */
  lemma {:induction false} ContainsIffSomeLine(s: string, k: string)
    requires '\n' !in k
    ensures Contains(s, k) <==> exists i :: 0 <= i < |Split(s)| && Contains(Split(s)[i], k)
  {
    if Contains(s, k) {
      ContainsSomeLine(s, k);
    }
    if exists i :: 0 <= i < |Split(s)| && Contains(Split(s)[i], k) {
      var i :| 0 <= i < |Split(s)| && Contains(Split(s)[i], k);
      SomeLineContains(s, k, i);
    }
  }

  lemma {:induction false} ContainsSomeLine(s: string, k: string)
    requires '\n' !in k && Contains(s, k)
    ensures exists i :: 0 <= i < |Split(s)| && Contains(Split(s)[i], k)
    decreases |s|
  {
    if StartsWith(s, k) {
      PrefixInFirstPiece(s, k);
      assert Contains(Split(s)[0], k);
    } else {
      var rest := Split(s[1..]);
      ContainsSomeLine(s[1..], k);
      var j :| 0 <= j < |rest| && Contains(rest[j], k);
      if s[0] == '\n' {
        assert Split(s)[j + 1] == rest[j];
      } else if j == 0 {
        ContainsAfterPrefix(s[0], rest[0], k);
        assert Split(s)[0] == [s[0]] + rest[0];
      } else {
        assert Split(s)[j] == rest[j];
      }
    }
  }

  lemma {:induction false} SomeLineContains(s: string, k: string, i: int)
    requires 0 <= i < |Split(s)| && Contains(Split(s)[i], k)
    ensures Contains(s, k)
    decreases |s|
  {
    if |s| == 0 {
      assert Split(s)[i] == s;
    } else {
      var rest := Split(s[1..]);
      if s[0] == '\n' {
        if i == 0 {
          assert Split(s)[0] == "";
          assert k == [] && StartsWith(s, k);
        } else {
          assert Split(s)[i] == rest[i - 1];
          SomeLineContains(s[1..], k, i - 1);
        }
      } else if i == 0 {
        var line := [s[0]] + rest[0];
        assert Split(s)[0] == line && line[1..] == rest[0];
        if StartsWith(line, k) {
          FirstPieceIsPrefix(s[1..]);
          assert s[..|line|] == line;
        } else {
          SomeLineContains(s[1..], k, 0);
        }
      } else {
        assert Split(s)[i] == rest[i];
        SomeLineContains(s[1..], k, i);
      }
    }
  }
}
