/** The few operations on Python `str` values that the two FASTA utilities rely on:
    `str.isspace` (per character), `str.strip()` with no argument, and `str.startswith`. */
module Text {

  /** The header marker that opens a FASTA record line. */
  const HeaderMarker: string := ">"

  /** The characters for which Python's `str.isspace` holds: the ASCII controls
      TAB, LF, VT, FF, CR, the four information separators 0x1C-0x1F, SPACE,
      and the Unicode white-space code points (NEL, NBSP, OGHAM SPACE MARK,
      the EN QUAD..HAIR SPACE block, LINE/PARAGRAPH SEPARATOR, NNBSP, MMSP,
      IDEOGRAPHIC SPACE). These are the characters `str.strip()` removes. */
  predicate IsSpace(c: char) {
    ('\t' <= c <= '\r') || ('\U{1C}' <= c <= '\U{1F}') || c == ' '
    || c == '\U{85}' || c == '\U{A0}' || c == '\U{1680}'
    || ('\U{2000}' <= c <= '\U{200A}') || c == '\U{2028}' || c == '\U{2029}'
    || c == '\U{202F}' || c == '\U{205F}' || c == '\U{3000}'
  }

  /** Every character of `s` is white space (vacuously so for ""). */
  predicate AllSpace(s: string) {
    forall i :: 0 <= i < |s| ==> IsSpace(s[i])
  }

  /** Python's `s.startswith(prefix)`: `s` is at least as long as `prefix` and
      agrees with it character by character. */
  predicate StartsWith(s: string, prefix: string)
    ensures StartsWith(s, prefix) <==>
            |prefix| <= |s| && forall i :: 0 <= i < |prefix| ==> s[i] == prefix[i]
  {
    |prefix| <= |s| && s[..|prefix|] == prefix
  }

  /** `s.lstrip()`: drop white space from the front. StripLeftSpec says what is left. */
  function StripLeft(s: string): (r: string)
    ensures |r| <= |s|
  {
    if |s| > 0 && IsSpace(s[0]) then StripLeft(s[1..]) else s
  }

  /** `s.rstrip()`: drop white space from the back. StripRightSpec says what is left. */
  function StripRight(s: string): (r: string)
    ensures |r| <= |s|
  {
    if |s| > 0 && IsSpace(s[|s| - 1]) then StripRight(s[..|s| - 1]) else s
  }

  /** `s.strip()`: `rstrip` after `lstrip`. StripIsTrimmedSlice says which slice
      of `s` it is. */
  function Strip(s: string): (r: string)
    ensures |r| <= |s|
  {
    StripRight(StripLeft(s))
  }

  /** `AllSpace` unfolded at the front of a non-empty string. */
  lemma AllSpaceFront(s: string)
    requires s != []
    ensures AllSpace(s) <==> IsSpace(s[0]) && AllSpace(s[1..])
  {
    if IsSpace(s[0]) && AllSpace(s[1..]) {
      forall i | 0 <= i < |s| ensures IsSpace(s[i]) {
        if i > 0 { assert s[i] == s[1..][i - 1]; }
      }
    }
  }

  /** Every slice of an all-white-space string is all white space. */
  lemma AllSpaceSlice(s: string, i: nat, j: nat)
    requires AllSpace(s) && i <= j <= |s|
    ensures AllSpace(s[i..j])
  {
    forall n | 0 <= n < j - i ensures IsSpace(s[i..j][n]) {
      assert s[i..j][n] == s[i + n];
    }
  }

  /** `lstrip` leaves a suffix that does not start with white space, and what it
      removes is white space only. */
  lemma {:induction false} StripLeftSpec(s: string)
    ensures var r := StripLeft(s);
            r == s[|s| - |r|..] && AllSpace(s[..|s| - |r|]) && (r != [] ==> !IsSpace(r[0]))
  {
    if |s| > 0 && IsSpace(s[0]) {
      StripLeftSpec(s[1..]);
      var n := |s| - |StripLeft(s)|;
      assert s[1..][n - 1..] == s[n..];
      forall i | 0 <= i < n ensures IsSpace(s[..n][i]) {
        if i > 0 { assert s[..n][i] == s[1..][..n - 1][i - 1]; }
      }
    }
  }

  /** `rstrip` leaves a prefix that does not end with white space, and what it
      removes is white space only. */
  lemma {:induction false} StripRightSpec(s: string)
    ensures var r := StripRight(s);
            r == s[..|r|] && AllSpace(s[|r|..]) && (r != [] ==> !IsSpace(r[|r| - 1]))
  {
    if |s| > 0 && IsSpace(s[|s| - 1]) {
      var init := s[..|s| - 1];
      StripRightSpec(init);
      var n := |StripRight(s)|;
      assert init[..n] == s[..n];
      forall i | 0 <= i < |s| - n ensures IsSpace(s[n..][i]) {
        if i < |s| - 1 - n { assert s[n..][i] == init[n..][i]; }
      }
    }
  }

  /** `s.strip()` is the slice of `s` left between its leading and its trailing
      white space, and it neither starts nor ends with white space. */
  lemma StripIsTrimmedSlice(s: string)
    ensures var r := Strip(s);
            (exists i :: 0 <= i <= |s| - |r| && r == s[i..i + |r|]
                         && AllSpace(s[..i]) && AllSpace(s[i + |r|..]))
            && (r != [] ==> !IsSpace(r[0]) && !IsSpace(r[|r| - 1]))
  {
    var left := StripLeft(s);
    var r := StripRight(left);
    var i := |s| - |left|;
    StripLeftSpec(s);
    StripRightSpec(left);
    assert left == s[i..];
    assert AllSpace(s[..i]);
    assert r == s[i..i + |r|];
    assert s[i + |r|..] == left[|r|..];
    assert AllSpace(s[i + |r|..]);
    assert 0 <= i <= |s| - |r| && r == s[i..i + |r|] && AllSpace(s[..i]) && AllSpace(s[i + |r|..]);
    if r != [] {
      assert r[0] == left[0];
    }
  }

  /** A string made only of white space strips to "". */
  lemma {:induction false} StripLeftAllSpace(s: string)
    requires AllSpace(s)
    ensures StripLeft(s) == ""
  {
    if s != [] {
      AllSpaceFront(s);
      StripLeftAllSpace(s[1..]);
    }
  }

  /** White space in front of a string is lost to `lstrip`. */
  lemma {:induction false} StripLeftSkipsSpace(a: string, t: string)
    requires AllSpace(a)
    ensures StripLeft(a + t) == StripLeft(t)
  {
    if a != [] {
      AllSpaceFront(a);
      assert (a + t)[0] == a[0];
      assert (a + t)[1..] == a[1..] + t;
      StripLeftSkipsSpace(a[1..], t);
    } else {
      assert a + t == t;
    }
  }

  /** White space behind a string is lost to `rstrip`. */
  lemma {:induction false} StripRightSkipsSpace(t: string, b: string)
    requires AllSpace(b)
    ensures StripRight(t + b) == StripRight(t)
  {
    if b != [] {
      assert (t + b)[|t + b| - 1] == b[|b| - 1];
      assert (t + b)[..|t + b| - 1] == t + b[..|b| - 1];
      AllSpaceSlice(b, 0, |b| - 1);
      StripRightSkipsSpace(t, b[..|b| - 1]);
    } else {
      assert t + b == t;
    }
  }

  /** `lstrip` of `t + b`: either everything goes, or only the part `lstrip(t)` removes. */
  lemma {:induction false} StripLeftAppend(t: string, b: string)
    requires AllSpace(b)
    ensures StripLeft(t + b) == if AllSpace(t) then "" else StripLeft(t) + b
  {
    if t == [] {
      assert t + b == b;
      StripLeftAllSpace(b);
    } else {
      AllSpaceFront(t);
      assert (t + b)[0] == t[0];
      if IsSpace(t[0]) {
        assert (t + b)[1..] == t[1..] + b;
        StripLeftAppend(t[1..], b);
      }
    }
  }

  /** Stripping ignores white space padding on either side: a line read with its
      indentation and its line terminator strips the same as the bare text. */
  lemma StripIgnoresPadding(a: string, t: string, b: string)
    requires AllSpace(a) && AllSpace(b)
    ensures Strip(a + t + b) == Strip(t)
  {
    var tb := t + b;
    assert a + t + b == a + tb;
    StripLeftSkipsSpace(a, tb);
    StripLeftAppend(t, b);
    if AllSpace(t) {
      StripLeftAllSpace(t);
    } else {
      StripRightSkipsSpace(StripLeft(t), b);
    }
  }

  /** A string whose first character is not white space keeps that first character. */
  lemma StripKeepsFirst(t: string)
    requires t != [] && !IsSpace(t[0])
    ensures Strip(t) != [] && Strip(t)[0] == t[0]
  {
    assert StripLeft(t) == t;
    StripRightSpec(t);
    var r := StripRight(t);
    assert !AllSpace(t);
    assert t[|r|..] != t;
  }

  /** A string that begins with the header marker after any amount of white space
      strips to a string that begins with the header marker. */
  lemma IndentedHeaderStripsToHeader(ws: string, rest: string)
    requires AllSpace(ws)
    ensures StartsWith(Strip(ws + HeaderMarker + rest), HeaderMarker)
  {
    var t := HeaderMarker + rest;
    var empty: string := [];
    assert AllSpace(empty);
    StripIgnoresPadding(ws, t, empty);
    assert ws + t + empty == ws + HeaderMarker + rest;
    assert t[0] == '>';
    StripKeepsFirst(t);
  }

  /** Stripping twice strips nothing more. */
  lemma StripIsIdempotent(s: string)
    ensures Strip(Strip(s)) == Strip(s)
  {
    var t := Strip(s);
    StripIsTrimmedSlice(s);
    if t != [] {
      assert StripLeft(t) == t;
      assert StripRight(t) == t;
    }
  }
}
