/**
 * The PHP string built-ins the module relies on: trim(), empty(), explode()
 * with a one-character delimiter, and the byte-wise order ksort() applies to
 * string keys that are not numeric.
 */
module PhpStrings {
  import opened Wrappers

  // ---------------------------------------------------------------- trim()

  /** The characters trim() strips by default: space, tab, newline, carriage return, NUL and vertical tab. */
  predicate IsTrimChar(c: char) {
    c == ' ' || c == '\t' || c == '\n' || c == '\r' || c as int == 0 || c as int == 11
  }

  ghost predicate AllTrimChars(s: string) {
    forall i :: 0 <= i < |s| ==> IsTrimChar(s[i])
  }

  /** ltrim(): drops the leading run of trim characters. */
  function TrimLeft(s: string): string
  {
    if s != [] && IsTrimChar(s[0]) then TrimLeft(s[1..]) else s
  }

  /** rtrim(): drops the trailing run of trim characters. */
  function TrimRight(s: string): string
  {
    if s != [] && IsTrimChar(s[|s| - 1]) then TrimRight(s[..|s| - 1]) else s
  }

  /** ltrim() keeps a suffix of s, drops only trim characters, and stops at the first other one. */
  lemma {:induction false} TrimLeftSuffix(s: string)
    ensures var r := TrimLeft(s);
      && |r| <= |s| && r == s[|s| - |r|..]
      && AllTrimChars(s[..|s| - |r|])
      && (r == [] || !IsTrimChar(r[0]))
  {
    if s != [] && IsTrimChar(s[0]) {
      TrimLeftSuffix(s[1..]);
      var r := TrimLeft(s);
      assert s[..|s| - |r|] == [s[0]] + s[1..][..|s| - 1 - |r|];
    }
  }

  /** rtrim() keeps a prefix of s, drops only trim characters, and stops at the last other one. */
  lemma {:induction false} TrimRightPrefix(s: string)
    ensures var r := TrimRight(s);
      && |r| <= |s| && r == s[..|r|]
      && AllTrimChars(s[|r|..])
      && (r == [] || !IsTrimChar(r[|r| - 1]))
  {
    if s != [] && IsTrimChar(s[|s| - 1]) {
      TrimRightPrefix(s[..|s| - 1]);
      var r := TrimRight(s);
      assert s[|r|..] == s[..|s| - 1][|r|..] + [s[|s| - 1]];
    }
  }

  /** trim(): both runs of trim characters dropped; what is left neither starts nor ends with one. */
  function Trim(s: string): (r: string)
    ensures r == [] || (!IsTrimChar(r[0]) && !IsTrimChar(r[|r| - 1]))
  {
    TrimLeftSuffix(s);
    TrimRightPrefix(TrimLeft(s));
    TrimRight(TrimLeft(s))
  }

  /** trim() keeps a contiguous middle of s and drops only trim characters around it. */
  lemma TrimKeepsMiddle(s: string) returns (i: int)
    ensures 0 <= i <= |s| - |Trim(s)|
    ensures Trim(s) == s[i..i + |Trim(s)|]
    ensures AllTrimChars(s[..i]) && AllTrimChars(s[i + |Trim(s)|..])
  {
    var l := TrimLeft(s);
    var r := TrimRight(l);
    TrimLeftSuffix(s);
    TrimRightPrefix(l);
    i := |s| - |l|;
    assert r == s[i..i + |r|];
    assert s[i + |r|..] == l[|r|..];
  }

  /** trim() leaves an already trimmed string alone. */
  lemma TrimIdempotent(s: string)
    ensures Trim(Trim(s)) == Trim(s)
  {
    var t := Trim(s);
    assert TrimLeft(t) == t;
    TrimRightPrefix(t);
    assert TrimRight(t) == t;
  }

  /** A string made only of trim characters trims to "". */
  lemma TrimAllTrimChars(s: string)
    requires AllTrimChars(s)
    ensures Trim(s) == ""
  {
    TrimLeftSuffix(s);
  }

  // --------------------------------------------------------------- empty()

  /**
   * empty() on a submitted form value: true for a missing value (NULL, here
   * also standing for FALSE), for "" and for "0".
   */
  predicate IsEmpty(v: Option<string>) {
    v.None? || v.value == "" || v.value == "0"
  }

  // ------------------------------------------------- explode() / implode()

  /** explode(d, s) without a limit: the pieces of s between occurrences of d. */
  function Explode(d: char, s: string): (pieces: seq<string>)
    ensures |pieces| >= 1
    ensures forall i :: 0 <= i < |pieces| ==> d !in pieces[i]
  {
    if s == [] then [[]]
    else
      var rest := Explode(d, s[1..]);
      if s[0] == d then [[]] + rest
      else [[s[0]] + rest[0]] + rest[1..]
  }

  /** explode() splits s into more than one piece exactly when s holds the delimiter. */
  lemma {:induction false} ExplodeSplits(d: char, s: string)
    ensures (|Explode(d, s)| > 1) == (d in s)
  {
    if s != [] {
      ExplodeSplits(d, s[1..]);
      assert d in s <==> s[0] == d || d in s[1..];
    }
  }

  /** implode(d, pieces): the pieces joined with d between them. */
  function Implode(d: char, pieces: seq<string>): string
    requires |pieces| >= 1
  {
    if |pieces| == 1 then pieces[0] else pieces[0] + [d] + Implode(d, pieces[1..])
  }

  /** Joining the pieces of explode() gives the original string back. */
  lemma {:induction false} ImplodeExplode(d: char, s: string)
    ensures Implode(d, Explode(d, s)) == s
  {
    if s != [] {
      var rest := Explode(d, s[1..]);
      var pieces := Explode(d, s);
      ImplodeExplode(d, s[1..]);
      if s[0] == d {
        assert pieces == [[]] + rest && pieces[1..] == rest;
        assert Implode(d, pieces) == [] + [d] + Implode(d, rest);
      } else {
        assert pieces == [[s[0]] + rest[0]] + rest[1..];
        if |rest| == 1 {
          assert Implode(d, pieces) == [s[0]] + rest[0];
        } else {
          assert pieces[1..] == rest[1..];
          assert Implode(d, rest) == rest[0] + [d] + Implode(d, rest[1..]);
          assert Implode(d, pieces) == ([s[0]] + rest[0]) + [d] + Implode(d, rest[1..]);
        }
      }
      assert s == [s[0]] + s[1..];
    }
  }

  /** Exploding a string that starts with a delimiter-free piece a. */
  lemma {:induction false} ExplodeAfterPiece(d: char, a: string, tail: string)
    requires d !in a
    ensures Explode(d, a + tail) == [a + Explode(d, tail)[0]] + Explode(d, tail)[1..]
  {
    if a == [] {
      var pieces := Explode(d, tail);
      assert a + tail == tail && a + pieces[0] == pieces[0];
      assert [pieces[0]] + pieces[1..] == pieces;
    } else {
      var pieces := Explode(d, tail);
      var rest := Explode(d, a[1..] + tail);
      ExplodeAfterPiece(d, a[1..], tail);
      assert (a + tail)[0] == a[0] && (a + tail)[1..] == a[1..] + tail;
      assert Explode(d, a + tail) == [[a[0]] + rest[0]] + rest[1..];
      assert rest[0] == a[1..] + pieces[0] && rest[1..] == pieces[1..];
      ConsConcat(a, pieces[0]);
    }
  }

  lemma ConsConcat(a: string, b: string)
    requires a != []
    ensures [a[0]] + (a[1..] + b) == a + b
  {
    assert a == [a[0]] + a[1..];
  }

  /** Exploding joined delimiter-free pieces gives the pieces back. */
  lemma {:induction false} ExplodeImplode(d: char, pieces: seq<string>)
    requires |pieces| >= 1
    requires forall i :: 0 <= i < |pieces| ==> d !in pieces[i]
    ensures Explode(d, Implode(d, pieces)) == pieces
  {
    if |pieces| == 1 {
      ExplodeAfterPiece(d, pieces[0], []);
      assert pieces[0] + [] == pieces[0];
    } else {
      var tail := Implode(d, pieces[1..]);
      ExplodeImplode(d, pieces[1..]);
      ExplodeAfterPiece(d, pieces[0], [d] + tail);
      assert ([d] + tail)[1..] == tail;
      assert Explode(d, [d] + tail) == [[]] + pieces[1..];
      assert pieces[0] + [d] + tail == pieces[0] + ([d] + tail);
      assert pieces[0] + [] == pieces[0];
    }
  }

  // ------------------------------------------------- ksort() on string keys

  /**
   * The order ksort() puts non-numeric string keys in: byte-wise comparison,
   * a proper prefix first. Characters stand for their code points, whose
   * order is that of their UTF-8 bytes.
   */
  predicate Less(a: string, b: string) {
    if a == [] then b != []
    else b != [] && (if a[0] == b[0] then Less(a[1..], b[1..]) else a[0] < b[0])
  }

  lemma {:induction false} LessIrreflexive(a: string)
    ensures !Less(a, a)
  {
    if a != [] {
      LessIrreflexive(a[1..]);
    }
  }

  lemma {:induction false} LessAsymmetric(a: string, b: string)
    requires Less(a, b)
    ensures !Less(b, a)
  {
    if a != [] && b != [] && a[0] == b[0] {
      LessAsymmetric(a[1..], b[1..]);
    }
  }

  lemma {:induction false} LessTransitive(a: string, b: string, c: string)
    requires Less(a, b) && Less(b, c)
    ensures Less(a, c)
  {
    if a != [] && a[0] == b[0] && b[0] == c[0] {
      LessTransitive(a[1..], b[1..], c[1..]);
    }
  }

  lemma {:induction false} LessTotal(a: string, b: string)
    requires a != b
    ensures Less(a, b) || Less(b, a)
  {
    if a != [] && b != [] && a[0] == b[0] {
      assert a == [a[0]] + a[1..] && b == [b[0]] + b[1..];
      LessTotal(a[1..], b[1..]);
    }
  }
}
