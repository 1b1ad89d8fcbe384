/**
 * The few pieces of Python string behaviour the pipeline relies on:
 * the whitespace class shared by `str.isspace`, `str.strip` and the `\s`
 * escape of `re` on str patterns, `str.strip` itself, `' '.join`, and
 * concatenation of a list of strings.
 *
 * Strings are sequences of Unicode scalar values, so `|s|` is Python's `len`.
 */
module PyText {

  /** Python's `str.isspace()`, which is also what `\s` and `strip()` use. */
  predicate IsSpace(c: char) {
    || c == ' '
    || ('\t' <= c <= '\r')                // \t \n \v \f \r
    || ('\U{1C}' <= c <= '\U{1F}')        // information separators
    || c == '\U{85}' || c == '\U{A0}' || c == '\U{1680}'
    || ('\U{2000}' <= c <= '\U{200A}')
    || c == '\U{2028}' || c == '\U{2029}' || c == '\U{202F}'
    || c == '\U{205F}' || c == '\U{3000}'
  }

  predicate NoEdgeSpace(s: string) {
    s == [] || (!IsSpace(s[0]) && !IsSpace(s[|s| - 1]))
  }

  /** `s.lstrip()`: drops the leading whitespace and nothing else. */
  function LStrip(s: string): (r: string)
    ensures |r| <= |s| && r == s[|s| - |r|..]
    ensures r == [] || !IsSpace(r[0])
  {
    if s != [] && IsSpace(s[0]) then LStrip(s[1..]) else s
  }

  /** `s.rstrip()`: drops the trailing whitespace and nothing else. */
  function RStrip(s: string): (r: string)
    ensures |r| <= |s| && r == s[..|r|]
    ensures r == [] || !IsSpace(r[|r| - 1])
  {
    if s != [] && IsSpace(s[|s| - 1]) then RStrip(s[..|s| - 1]) else s
  }

  /** `s.strip()`: `lstrip` then `rstrip`, written as one recursion so that
      the result can be named without unfolding both (see `StripIsRStripLStrip`). */
  function Strip(s: string): (r: string)
    ensures |r| <= |s|
    decreases |s|
  {
    if s != [] && IsSpace(s[0]) then Strip(s[1..]) else RStrip(s)
  }

  lemma {:induction false} StripIsRStripLStrip(s: string)
    ensures Strip(s) == RStrip(LStrip(s))
    decreases |s|
  {
    if s != [] && IsSpace(s[0]) {
      StripIsRStripLStrip(s[1..]);
    }
  }

  /** The result has whitespace at neither end, and a string that already has
      none is left as it is. */
  lemma StripNoEdgeSpace(s: string)
    ensures NoEdgeSpace(Strip(s))
    ensures NoEdgeSpace(s) ==> Strip(s) == s
  {
    StripIsRStripLStrip(s);
    var l := LStrip(s);
    var r := RStrip(l);
    if r != [] {
      assert r[0] == l[0];
    }
  }

  /** What `rstrip` removes is whitespace. */
  lemma {:induction false} RStripDropsSpaces(s: string)
    ensures forall i :: |RStrip(s)| <= i < |s| ==> IsSpace(s[i])
    decreases |s|
  {
    if s != [] && IsSpace(s[|s| - 1]) {
      RStripDropsSpaces(s[..|s| - 1]);
    }
  }

  /** `strip` keeps a contiguous part of `s`: the text after the leading
      whitespace, cut before the trailing whitespace. */
  lemma {:induction false} StripIsInfix(s: string)
    ensures var k := |s| - |LStrip(s)|;
      && k + |Strip(s)| <= |s|
      && forall i :: 0 <= i < |Strip(s)| ==> Strip(s)[i] == s[k + i]
    decreases |s|
  {
    if s != [] && IsSpace(s[0]) {
      StripIsInfix(s[1..]);
      assert forall j :: 0 <= j < |s| - 1 ==> s[1..][j] == s[j + 1];
    }
  }

  /** What `strip` removes, at either end, is whitespace. */
  lemma {:induction false} StripRemovesOnlySpaces(s: string)
    ensures var k := |s| - |LStrip(s)|;
      && (forall i :: 0 <= i < k ==> IsSpace(s[i]))
      && (forall i :: k + |Strip(s)| <= i < |s| ==> IsSpace(s[i]))
    decreases |s|
  {
    if s != [] && IsSpace(s[0]) {
      StripRemovesOnlySpaces(s[1..]);
      assert forall j :: 0 <= j < |s| - 1 ==> s[1..][j] == s[j + 1];
    } else {
      RStripDropsSpaces(s);
    }
  }

  /** `' '.join(ws)`. */
  function JoinSpace(ws: seq<string>): string {
    if |ws| == 0 then ""
    else if |ws| == 1 then ws[0]
    else JoinSpace(ws[..|ws| - 1]) + " " + ws[|ws| - 1]
  }

  /** The join seen from the front: the first word, a space, the rest joined. */
  lemma {:induction false} JoinSpaceCons(ws: seq<string>)
    requires |ws| >= 2
    ensures JoinSpace(ws) == ws[0] + " " + JoinSpace(ws[1..])
    decreases |ws|
  {
    var m := |ws| - 1;
    if |ws| > 2 {
      JoinSpaceCons(ws[..m]);
      assert ws[..m][1..] == ws[1..][..m - 1];
      assert ws[..m][0] == ws[0];
    } else {
      assert ws[1..] == [ws[1]];
    }
  }

  /** The join starts with the first word's first character. */
  lemma {:induction false} JoinSpaceStart(ws: seq<string>)
    requires |ws| >= 1 && ws[0] != []
    ensures JoinSpace(ws) != [] && JoinSpace(ws)[0] == ws[0][0]
    decreases |ws|
  {
    if |ws| >= 2 {
      JoinSpaceCons(ws);
    }
  }

  lemma JoinSpaceThree(a: string, b: string, c: string)
    ensures JoinSpace([a, b, c]) == a + " " + b + " " + c
  {
    assert [a, b, c][..2] == [a, b] && [a, b][..1] == [a];
    assert JoinSpace([a, b]) == a + " " + b;
  }

  lemma JoinSpaceFour(a: string, b: string, c: string, d: string)
    ensures JoinSpace([a, b, c, d]) == a + " " + b + " " + c + " " + d
  {
    assert [a, b, c, d][..3] == [a, b, c];
    JoinSpaceThree(a, b, c);
  }

  /** `''.join(ps)`, or equally `acc += p` over `ps`. */
  function Concat(ps: seq<string>): string {
    if ps == [] then "" else Concat(ps[..|ps| - 1]) + ps[|ps| - 1]
  }

  lemma {:induction false} LStripSnoc(x: string, c: char)
    ensures LStrip(x + [c]) == if LStrip(x) == [] then LStrip([c]) else LStrip(x) + [c]
  {
    if x != [] {
      assert (x + [c])[1..] == x[1..] + [c];
      if IsSpace(x[0]) { LStripSnoc(x[1..], c); }
    } else {
      assert x + [c] == [c];
    }
  }

  /** The trailing space of the accumulator never shows in a stripped chunk. */
  lemma StripDropsTrailingSpace(x: string)
    ensures Strip(x + " ") == Strip(x)
  {
    StripIsRStripLStrip(x);
    StripIsRStripLStrip(x + " ");
    LStripSnoc(x, ' ');
    if LStrip(x) != [] {
      assert (LStrip(x) + " ")[..|LStrip(x)|] == LStrip(x);
    }
  }
}
