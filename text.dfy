/** The pieces of Python's string handling that the `.qdat` reader and writer use:
    `string.strip`, `string.find`, `string.split`, `string.join`, `str` and `int` on
    integers, slicing, and the regular-expression split of the example lines. */
module Text {
  import opened PyCore

  /** The characters `string.strip` removes (`string.whitespace`). */
  predicate IsSpace(c: char) {
    c == ' ' || c == '\t' || c == '\n' || c == '\r' || c == '\U{B}' || c == '\U{C}'
  }

  /** `s` has no whitespace character at all. */
  predicate NoSpace(s: string) {
    forall k :: 0 <= k < |s| ==> !IsSpace(s[k])
  }

  /** `s` is made of whitespace only. */
  predicate AllSpace(s: string) {
    forall k :: 0 <= k < |s| ==> IsSpace(s[k])
  }

  /** Neither end of `s` is whitespace. */
  predicate Trimmed(s: string) {
    s == [] || (!IsSpace(s[0]) && !IsSpace(s[|s| - 1]))
  }

  /** `s.lstrip()`. */
  function StripLeft(s: string): string {
    if s != [] && IsSpace(s[0]) then StripLeft(s[1..]) else s
  }

  /** `s.rstrip()`. */
  function StripRight(s: string): string {
    if s != [] && IsSpace(s[|s| - 1]) then StripRight(s[..|s| - 1]) else s
  }

  /** `lstrip` leaves the suffix that follows the leading whitespace. */
  lemma {:induction false} StripLeftMeaning(s: string)
    ensures |StripLeft(s)| <= |s| && StripLeft(s) == s[|s| - |StripLeft(s)|..]
    ensures StripLeft(s) == [] || !IsSpace(StripLeft(s)[0])
    ensures AllSpace(s[..|s| - |StripLeft(s)|])
    decreases |s|
  {
    if s != [] && IsSpace(s[0]) {
      StripLeftMeaning(s[1..]);
      var r := StripLeft(s);
      assert s[..|s| - |r|] == [s[0]] + s[1..][..|s| - 1 - |r|];
    }
  }

  /** `rstrip` leaves the prefix that precedes the trailing whitespace. */
  lemma {:induction false} StripRightMeaning(s: string)
    ensures |StripRight(s)| <= |s| && StripRight(s) == s[..|StripRight(s)|]
    ensures StripRight(s) == [] || !IsSpace(StripRight(s)[|StripRight(s)| - 1])
    ensures AllSpace(s[|StripRight(s)|..])
    decreases |s|
  {
    if s != [] && IsSpace(s[|s| - 1]) {
      StripRightMeaning(s[..|s| - 1]);
      var r := StripRight(s);
      assert s[|r|..] == s[..|s| - 1][|r|..] + [s[|s| - 1]];
    }
  }

  /** `string.strip(s)`. */
  function Strip(s: string): string {
    StripLeft(StripRight(s))
  }

  /** Trailing whitespace is what `rstrip` removes, and a non-space last character stays. */
  lemma {:induction false} StripRightPadded(u: string, w: string)
    requires AllSpace(w) && (u == [] || !IsSpace(u[|u| - 1]))
    ensures StripRight(u + w) == u
    decreases |w|
  {
    if w != [] {
      assert (u + w)[..|u + w| - 1] == u + w[..|w| - 1];
      StripRightPadded(u, w[..|w| - 1]);
    } else {
      assert u + w == u;
    }
  }

  /** Leading whitespace is what `lstrip` removes, and a non-space first character stays. */
  lemma {:induction false} StripLeftPadded(w: string, u: string)
    requires AllSpace(w) && (u == [] || !IsSpace(u[0]))
    ensures StripLeft(w + u) == u
    decreases |w|
  {
    if w != [] {
      assert (w + u)[1..] == w[1..] + u;
      StripLeftPadded(w[1..], u);
    } else {
      assert w + u == u;
    }
  }

  /** Stripping removes exactly the whitespace padding around a trimmed text. */
  lemma StripPadded(w1: string, t: string, w2: string)
    requires AllSpace(w1) && AllSpace(w2) && Trimmed(t)
    ensures Strip(w1 + t + w2) == t
  {
    if t == [] {
      assert w1 + t + w2 == [] + (w1 + w2);
      StripRightPadded([], w1 + w2);
    } else {
      assert (w1 + t)[|w1 + t| - 1] == t[|t| - 1];
      StripRightPadded(w1 + t, w2);
      StripLeftPadded(w1, t);
    }
  }

  /** `s.startswith(pat)`. */
  predicate StartsWith(s: string, pat: string) {
    |pat| <= |s| && s[..|pat|] == pat
  }

  /** `string.find(s, pat) != -1`: `pat` occurs somewhere in `s`. */
  predicate Contains(s: string, pat: string) {
    exists i :: 0 <= i <= |s| && StartsWith(s[i..], pat)
  }

  /** A text with no `c` in it contains no pattern that starts with `c`. */
  lemma NoOccurrence(s: string, pat: string)
    requires pat != [] && pat[0] !in s
    ensures !Contains(s, pat)
  {
    forall i | 0 <= i <= |s| ensures !StartsWith(s[i..], pat) {
      if i < |s| && |pat| <= |s| - i {
        assert s[i..][..|pat|][0] == s[i];
      }
    }
  }

  /** A pattern whose first character occurs only at the head of `s` is found in `s`
      only at the head. */
  lemma OnlyAtHead(s: string, pat: string)
    requires s != [] && pat != [] && pat[0] !in s[1..]
    requires !StartsWith(s, pat)
    ensures !Contains(s, pat)
  {
    forall i | 0 <= i <= |s| ensures !StartsWith(s[i..], pat) {
      if 0 < i < |s| && |pat| <= |s| - i {
        assert s[i..][..|pat|][0] == s[1..][i - 1];
      } else if i == 0 {
        assert s[0..] == s;
      }
    }
  }

  /** The slice `s[k:]` for `k >= 0` (empty when `s` is shorter). */
  function Drop(s: string, k: nat): (r: string)
    ensures |s| <= k ==> r == []
    ensures k < |s| ==> r == s[k..]
  {
    if k < |s| then s[k..] else []
  }

  /** The slice `s[:-k]` for `k > 0`: all but the last `k` characters (empty when shorter). */
  function DropLast(s: string, k: nat): (r: string)
    ensures |s| <= k ==> r == []
    ensures k < |s| ==> r == s[..|s| - k]
  {
    if k < |s| then s[..|s| - k] else []
  }

  /** The first position of `c` in `s`. */
  function IndexOf(s: string, c: char): (i: nat)
    requires c in s
    ensures i < |s| && s[i] == c && c !in s[..i]
  {
    if s[0] == c then 0
    else
      var i := 1 + IndexOf(s[1..], c);
      assert s[..i] == [s[0]] + s[1..][..i - 1];
      i
  }

  /** The position of `c` is determined: it is the end of the prefix free of `c`. */
  lemma {:induction false} IndexOfAt(a: string, c: char, b: string)
    requires c !in a
    ensures IndexOf(a + [c] + b, c) == |a|
  {
    if a != [] {
      assert (a + [c] + b)[1..] == a[1..] + [c] + b;
      IndexOfAt(a[1..], c, b);
    }
  }

  /** `string.join(ps, sep)`. */
  function JoinWith(ps: seq<string>, sep: string): string {
    if ps == [] then ""
    else if |ps| == 1 then ps[0]
    else ps[0] + sep + JoinWith(ps[1..], sep)
  }

  /** A character in neither the pieces nor the separator is not in their join. */
  lemma {:induction false} JoinAvoids(ps: seq<string>, sep: string, c: char)
    requires c !in sep
    requires forall k :: 0 <= k < |ps| ==> c !in ps[k]
    ensures c !in JoinWith(ps, sep)
  {
    if |ps| > 1 {
      JoinAvoids(ps[1..], sep, c);
    }
  }

  /** Text appended after a join lands in its last piece. */
  lemma {:induction false} JoinAppendLast(ps: seq<string>, sep: string, x: string)
    requires |ps| >= 1
    ensures JoinWith(ps, sep) + x == JoinWith(ps[..|ps| - 1] + [ps[|ps| - 1] + x], sep)
  {
    var qs := ps[..|ps| - 1] + [ps[|ps| - 1] + x];
    if |ps| > 1 {
      JoinAppendLast(ps[1..], sep, x);
      assert qs[1..] == ps[1..][..|ps| - 2] + [ps[|ps| - 1] + x];
      assert qs[0] == ps[0];
    }
  }

  /** The pieces preceded by one space each. */
  function SpaceLed(ps: seq<string>): (r: seq<string>)
    ensures |r| == |ps|
    ensures forall k :: 0 <= k < |ps| ==> r[k] == " " + ps[k]
  {
    seq(|ps|, k requires 0 <= k < |ps| => " " + ps[k])
  }

  /** Joining with `", "` is joining with `","` once the space goes to the next piece. */
  lemma {:induction false} JoinCommaSpace(ps: seq<string>)
    requires |ps| >= 1
    ensures JoinWith(ps, ", ") == JoinWith([ps[0]] + SpaceLed(ps[1..]), ",")
  {
    if |ps| > 1 {
      SpaceLedJoin(ps[1..]);
      var qs := [ps[0]] + SpaceLed(ps[1..]);
      assert qs[1..] == SpaceLed(ps[1..]);
    }
  }

  lemma {:induction false} SpaceLedJoin(ps: seq<string>)
    requires |ps| >= 1
    ensures " " + JoinWith(ps, ", ") == JoinWith(SpaceLed(ps), ",")
  {
    if |ps| > 1 {
      SpaceLedJoin(ps[1..]);
      assert SpaceLed(ps)[1..] == SpaceLed(ps[1..]);
    }
  }

  /** `string.split(s, c)` for a one-character separator. */
  function Split(s: string, c: char): seq<string>
    decreases |s|
  {
    if c !in s then [s]
    else
      var i := IndexOf(s, c);
      [s[..i]] + Split(s[i + 1..], c)
  }

  /** Joining the pieces of a split back with the separator gives the text, and no
      piece contains the separator. */
  lemma {:induction false} SplitMeaning(s: string, c: char)
    ensures |Split(s, c)| >= 1
    ensures forall k :: 0 <= k < |Split(s, c)| ==> c !in Split(s, c)[k]
    ensures JoinWith(Split(s, c), [c]) == s
    decreases |s|
  {
    if c in s {
      var i := IndexOf(s, c);
      var rest := Split(s[i + 1..], c);
      SplitMeaning(s[i + 1..], c);
      JoinCons(s[..i], rest, [c]);
      SeqAround(s, i);
      ConsAvoids(s[..i], rest, c);
    }
  }

  /** Joining a piece in front of at least one more. */
  lemma JoinCons(h: string, rest: seq<string>, sep: string)
    requires rest != []
    ensures JoinWith([h] + rest, sep) == h + sep + JoinWith(rest, sep)
  {
    assert ([h] + rest)[1..] == rest;
  }

  /** A sequence is what comes before position `i`, the element there, and the rest. */
  lemma SeqAround<T>(s: seq<T>, i: nat)
    requires i < |s|
    ensures s == s[..i] + [s[i]] + s[i + 1..]
  { }

  /** A character in no piece is in no piece after another piece without it. */
  lemma ConsAvoids(h: string, rest: seq<string>, c: char)
    requires c !in h
    requires forall k :: 0 <= k < |rest| ==> c !in rest[k]
    ensures forall k :: 0 <= k < |[h] + rest| ==> c !in ([h] + rest)[k]
  {
    forall k | 0 < k < |[h] + rest| ensures c !in ([h] + rest)[k] {
      assert ([h] + rest)[k] == rest[k - 1];
    }
  }

  /** Splitting undoes joining, for pieces free of the separator. */
  lemma {:induction false} SplitJoin(ps: seq<string>, c: char)
    requires |ps| >= 1
    requires forall k :: 0 <= k < |ps| ==> c !in ps[k]
    ensures Split(JoinWith(ps, [c]), c) == ps
  {
    if |ps| > 1 {
      var h := ps[0];
      var more := ps[1..];
      assert c !in h;
      SplitJoin(more, c);
      var tail := JoinWith(more, [c]);
      SplitConsJoin(h, c, tail);
      assert ps == [h] + more;
    }
  }

  lemma SplitConsJoin(h: string, c: char, tail: string)
    requires c !in h
    ensures Split(h + [c] + tail, c) == [h] + Split(tail, c)
  {
    var s := h + [c] + tail;
    assert s[|h|] == c;
    IndexOfAt(h, c, tail);
    assert s[..|h|] == h;
    assert s[|h| + 1..] == tail;
  }

  /** The end of the run of spaces that starts at `i`. */
  function SkipRun(s: string, i: nat): (j: nat)
    requires i <= |s|
    ensures i <= j <= |s|
    ensures forall k :: i <= k < j ==> s[k] == ' '
    ensures j < |s| ==> s[j] != ' '
    decreases |s| - i
  {
    if i < |s| && s[i] == ' ' then SkipRun(s, i + 1) else i
  }

  /** Python 2's `re.split(r'[\ ]*|[\t]*', s)`: the pieces of `s` between maximal runs of
      spaces. The pattern matches only the empty string at a tab, and empty matches do
      not split, so tabs stay inside the pieces. */
  function SplitSpaces(s: string): seq<string>
    decreases |s|
  {
    if ' ' !in s then [s]
    else
      var i := IndexOf(s, ' ');
      [s[..i]] + SplitSpaces(s[SkipRun(s, i)..])
  }

  /** No piece has a space, only the first and last piece can be empty, and the first
      is not empty when `s` starts with something other than a space. */
  lemma {:induction false} SplitSpacesMeaning(s: string)
    ensures |SplitSpaces(s)| >= 1
    ensures forall k :: 0 <= k < |SplitSpaces(s)| ==> ' ' !in SplitSpaces(s)[k]
    ensures forall k :: 0 < k < |SplitSpaces(s)| - 1 ==> SplitSpaces(s)[k] != ""
    ensures s != [] && s[0] != ' ' ==> SplitSpaces(s)[0] != ""
    decreases |s|
  {
    if ' ' in s {
      var i := IndexOf(s, ' ');
      var j := SkipRun(s, i);
      SplitSpacesMeaning(s[j..]);
      var r := SplitSpaces(s);
      assert r[1..] == SplitSpaces(s[j..]);
      assert j < |s| ==> s[j..][0] != ' ';
      if s[0] != ' ' {
        assert i > 0 && s[..i][0] == s[0];
      }
    }
  }

  /** Splitting at runs of spaces undoes joining with single spaces, when no piece has a
      space and every piece after the first is non-empty. */
  lemma {:induction false} SplitSpacesJoin(ts: seq<string>)
    requires |ts| >= 1
    requires forall k :: 0 <= k < |ts| ==> ' ' !in ts[k]
    requires forall k :: 1 <= k < |ts| ==> ts[k] != ""
    ensures SplitSpaces(JoinWith(ts, " ")) == ts
  {
    if |ts| > 1 {
      var tail := JoinWith(ts[1..], " ");
      JoinFirst(ts[1..], " ");
      SplitSpacesCons(ts[0], tail);
      SplitSpacesJoin(ts[1..]);
      assert ts == [ts[0]] + ts[1..];
    }
  }

  /** A join of non-empty pieces starts with the first piece's first character. */
  lemma JoinFirst(ps: seq<string>, sep: string)
    requires ps != [] && ps[0] != ""
    ensures JoinWith(ps, sep) != [] && JoinWith(ps, sep)[0] == ps[0][0]
  { }

  /** One step of splitting at runs of spaces: a space-free head and a single space
      before something that does not start with a space. */
  lemma SplitSpacesCons(h: string, tail: string)
    requires ' ' !in h && tail != [] && tail[0] != ' '
    ensures SplitSpaces(h + " " + tail) == [h] + SplitSpaces(tail)
  {
    var s := h + " " + tail;
    var i := |h|;
    assert s[i] == ' ' && s[i + 1] == tail[0];
    IndexOfAt(h, ' ', tail);
    assert SkipRun(s, i) == i + 1;
    assert s[..i] == h;
    assert s[i + 1..] == tail;
  }

  predicate IsDigit(c: char) {
    '0' <= c <= '9'
  }

  predicate AllDigits(s: string) {
    forall k :: 0 <= k < |s| ==> IsDigit(s[k])
  }

  /** The number a string of decimal digits denotes. */
  function DigitsValue(s: string): nat
    requires AllDigits(s)
  {
    if s == [] then 0 else 10 * DigitsValue(s[..|s| - 1]) + (s[|s| - 1] as int - '0' as int)
  }

  function DigitChar(d: nat): (c: char)
    requires d < 10
    ensures IsDigit(c) && c as int - '0' as int == d
  {
    "0123456789"[d]
  }

  /** `str(n)` for a natural number: its decimal digits, which denote `n`. */
  function NatToString(n: nat): (r: string)
    ensures r != [] && AllDigits(r)
    ensures DigitsValue(r) == n
    decreases n
  {
    if n < 10 then [DigitChar(n)]
    else
      var r := NatToString(n / 10) + [DigitChar(n % 10)];
      assert r[..|r| - 1] == NatToString(n / 10);
      r
  }

  /** `str(i)` for an integer: its digits, after a minus sign when negative. */
  function IntToString(i: int): (r: string)
    ensures r != [] && forall k :: 0 <= k < |r| ==> IsDigit(r[k]) || r[k] == '-'
  {
    if i < 0 then "-" + NatToString(-i) else NatToString(i)
  }

  /** Python's `float(s)` on a whole number written in decimal digits: surrounding
      whitespace, an optional sign right before at least one digit; anything else
      raises ValueError (None here). */
  function ParseWholeFloat(s: string): Option<int> {
    var t := Strip(s);
    if t != [] && (t[0] == '-' || t[0] == '+') then
      if |t| > 1 && AllDigits(t[1..]) then
        Some(if t[0] == '-' then -(DigitsValue(t[1..]) as int) else DigitsValue(t[1..]) as int)
      else None
    else if t != [] && AllDigits(t) then Some(DigitsValue(t))
    else None
  }

  /** Python's `int(s)` in base 10: surrounding whitespace, an optional sign, more
      whitespace (CPython skips it after the sign too), then at least one digit;
      anything else raises ValueError (None here). */
  function ParseInt(s: string): Option<int> {
    var t := Strip(s);
    if t != [] && (t[0] == '-' || t[0] == '+') then
      var u := StripLeft(t[1..]);
      if u != [] && AllDigits(u) then
        Some(if t[0] == '-' then -(DigitsValue(u) as int) else DigitsValue(u) as int)
      else None
    else if t != [] && AllDigits(t) then Some(DigitsValue(t))
    else None
  }

  /** `int` accepts every whole number `float` accepts, with the same value, and also
      whitespace between the sign and the digits, as in `int("- 5") == -5`. */
  lemma IntAcceptsWholeFloat(s: string)
    ensures ParseWholeFloat(s).Some? ==> ParseInt(s) == ParseWholeFloat(s)
    ensures ParseInt("- 5") == Some(-5) && ParseWholeFloat("- 5") == None
  {
    var t := Strip(s);
    if t != [] && (t[0] == '-' || t[0] == '+') && |t| > 1 && AllDigits(t[1..]) {
      assert !IsSpace(t[1..][0]);
      assert StripLeft(t[1..]) == t[1..];
    }
    assert StripRight("- 5") == "- 5";
    assert StripLeft("- 5") == "- 5";
    assert Strip("- 5") == "- 5";
    assert StripLeft(" 5") == "5";
    assert DigitsValue("5") == 5;
  }

  /** `float` reads back what `str` writes, whatever whitespace surrounds it. */
  lemma ParseWholeFloatToString(w1: string, i: int, w2: string)
    requires AllSpace(w1) && AllSpace(w2)
    ensures ParseWholeFloat(w1 + IntToString(i) + w2) == Some(i)
  {
    var t := IntToString(i);
    assert Trimmed(t) by {
      assert IsDigit(t[0]) || t[0] == '-';
      assert IsDigit(t[|t| - 1]) || t[|t| - 1] == '-';
    }
    StripPadded(w1, t, w2);
    if i < 0 {
      assert t[1..] == NatToString(-i);
    }
  }

  /** `int` reads back what `str` writes, whatever whitespace surrounds it. */
  lemma ParseIntToString(w1: string, i: int, w2: string)
    requires AllSpace(w1) && AllSpace(w2)
    ensures ParseInt(w1 + IntToString(i) + w2) == Some(i)
  {
    ParseWholeFloatToString(w1, i, w2);
    IntAcceptsWholeFloat(w1 + IntToString(i) + w2);
  }
}
