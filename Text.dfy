/** Whitespace handling of Python's `str.strip()` and `str.split()` (no argument),
    on strings as sequences of characters. */
module Text {

  /** Python's `str.isspace` for a single character: the characters whose
      bidirectional type is WS, B or S, or whose category is Zs. */
  predicate IsSpace(c: char) {
    ('\t' <= c <= '\r') || ('\U{1c}' <= c <= '\U{1f}') || c == ' ' ||
    c == '\U{85}' || c == '\U{a0}' || c == '\U{1680}' ||
    ('\U{2000}' <= c <= '\U{200a}') || c == '\U{2028}' || c == '\U{2029}' ||
    c == '\U{202f}' || c == '\U{205f}' || c == '\U{3000}'
  }

  predicate AllSpace(s: string) {
    forall i :: 0 <= i < |s| ==> IsSpace(s[i])
  }

  predicate NoSpace(s: string) {
    forall i :: 0 <= i < |s| ==> !IsSpace(s[i])
  }

  /** The first index at or after `i` that does not hold whitespace (or `|s|`). */
  function SkipSpace(s: string, i: nat): (r: nat)
    requires i <= |s|
    ensures i <= r <= |s|
    ensures r < |s| ==> !IsSpace(s[r])
    decreases |s| - i
  {
    if i < |s| && IsSpace(s[i]) then SkipSpace(s, i + 1) else i
  }

  lemma {:induction false} SkippedSpace(s: string, i: nat)
    requires i <= |s|
    ensures forall k :: i <= k < SkipSpace(s, i) ==> IsSpace(s[k])
    decreases |s| - i
  {
    if i < |s| && IsSpace(s[i]) {
      SkippedSpace(s, i + 1);
    }
  }

  /** The first index at or after `i` that holds whitespace (or `|s|`). */
  function SkipWord(s: string, i: nat): (r: nat)
    requires i <= |s|
    ensures i <= r <= |s|
    ensures r < |s| ==> IsSpace(s[r])
    decreases |s| - i
  {
    if i < |s| && !IsSpace(s[i]) then SkipWord(s, i + 1) else i
  }

  lemma {:induction false} SkippedWord(s: string, i: nat)
    requires i <= |s|
    ensures forall k :: i <= k < SkipWord(s, i) ==> !IsSpace(s[k])
    decreases |s| - i
  {
    if i < |s| && !IsSpace(s[i]) {
      SkippedWord(s, i + 1);
    }
  }

  /** The end of `s[..j]` once its trailing whitespace is dropped. */
  function TrimEnd(s: string, j: nat): (r: nat)
    requires j <= |s|
    ensures r <= j
    ensures r > 0 ==> !IsSpace(s[r - 1])
  {
    if j > 0 && IsSpace(s[j - 1]) then TrimEnd(s, j - 1) else j
  }

  /** Everything `TrimEnd` drops is whitespace. */
  lemma {:induction false} TrimmedEnd(s: string, j: nat)
    requires j <= |s|
    ensures forall k :: TrimEnd(s, j) <= k < j ==> IsSpace(s[k])
    decreases j
  {
    if j > 0 && IsSpace(s[j - 1]) {
      TrimmedEnd(s, j - 1);
    }
  }

  /** `s.strip()`: `s` without its leading and trailing whitespace. */
  function Strip(s: string): string {
    SkippedSpace(s, 0);
    TrimmedEnd(s, |s|);
    var a := SkipSpace(s, 0);
    if a == |s| then [] else s[a..TrimEnd(s, |s|)]
  }

  /** The stripped string is empty exactly when `s` is all whitespace, and
      otherwise begins and ends with a character that is not whitespace. */
  lemma StripTrims(s: string)
    ensures Strip(s) == [] <==> AllSpace(s)
    ensures Strip(s) != [] ==> !IsSpace(Strip(s)[0]) && !IsSpace(Strip(s)[|Strip(s)| - 1])
  {
    SkippedSpace(s, 0);
    TrimmedEnd(s, |s|);
    var a := SkipSpace(s, 0);
    if a < |s| {
      var e := TrimEnd(s, |s|);
      assert !IsSpace(s[a]);
      assert a < e;
    }
  }

  /** What `Strip` drops from either end is whitespace. */
  lemma SpaceAround(s: string)
    ensures AllSpace(s[..SkipSpace(s, 0)]) && AllSpace(s[TrimEnd(s, |s|)..])
  {
    SkippedSpace(s, 0);
    TrimmedEnd(s, |s|);
  }

  lemma Padded(s: string, p: string, m: string, q: string)
    requires AllSpace(p) && AllSpace(q) && s == p + m + q
    ensures exists p', q' :: AllSpace(p') && AllSpace(q') && s == p' + m + q'
  {
  }

  /** Stripping removes only whitespace: `s` is the stripped string with
      whitespace before and after it. */
  lemma StripPadding(s: string)
    ensures exists p, q :: AllSpace(p) && AllSpace(q) && s == p + Strip(s) + q
  {
    if AllSpace(s) {
      StripTrims(s);
      assert s == s + Strip(s) + [];
      Padded(s, s, Strip(s), []);
    } else {
      StripAndFirstToken(s);
      SpaceAround(s);
      var a, e := SkipSpace(s, 0), TrimEnd(s, |s|);
      assert s == s[..a] + s[a..e] + s[e..];
      Padded(s, s[..a], Strip(s), s[e..]);
    }
  }

  /** `s[i..].split()`: the maximal runs of non-whitespace characters from
      index `i` on, in order. */
  function SplitFrom(s: string, i: nat): seq<string>
    requires i <= |s|
    decreases |s| - i
  {
    var a := SkipSpace(s, i);
    if a == |s| then [] else [s[a..SkipWord(s, a)]] + SplitFrom(s, SkipWord(s, a))
  }

  /** Every token is non-empty and free of whitespace, and there are none
      exactly when only whitespace is left. */
  lemma {:induction false} SplitFromTokens(s: string, i: nat)
    requires i <= |s|
    ensures forall k :: 0 <= k < |SplitFrom(s, i)| ==> SplitFrom(s, i)[k] != [] && NoSpace(SplitFrom(s, i)[k])
    ensures SplitFrom(s, i) == [] <==> forall k :: i <= k < |s| ==> IsSpace(s[k])
    decreases |s| - i
  {
    var a := SkipSpace(s, i);
    SkippedSpace(s, i);
    if a < |s| {
      var b := SkipWord(s, a);
      SkippedWord(s, a);
      SplitFromTokens(s, b);
      var r := SplitFrom(s, i);
      assert r == [s[a..b]] + SplitFrom(s, b);
      forall k | 0 <= k < |r|
        ensures r[k] != [] && NoSpace(r[k])
      {
        if k > 0 {
          assert r[k] == SplitFrom(s, b)[k - 1];
        }
      }
    }
  }

  /** `s.split()`. */
  function Split(s: string): seq<string> {
    SplitFrom(s, 0)
  }

  /** Every token of `s.split()` is non-empty and free of whitespace, and
      there are none exactly when `s` is all whitespace. */
  lemma SplitTokens(s: string)
    ensures forall k :: 0 <= k < |Split(s)| ==> Split(s)[k] != [] && NoSpace(Split(s)[k])
    ensures Split(s) == [] <==> AllSpace(s)
  {
    SplitFromTokens(s, 0);
  }

  /** The characters of `s` from index `i` on that are not whitespace, in order. */
  function NonSpaceFrom(s: string, i: nat): string
    requires i <= |s|
    decreases |s| - i
  {
    if i == |s| then [] else (if IsSpace(s[i]) then [] else [s[i]]) + NonSpaceFrom(s, i + 1)
  }

  function Concat(ss: seq<string>): string {
    if ss == [] then [] else ss[0] + Concat(ss[1..])
  }

  lemma {:induction false} NonSpaceSkipsSpace(s: string, i: nat, j: nat)
    requires i <= j <= |s|
    requires forall k :: i <= k < j ==> IsSpace(s[k])
    ensures NonSpaceFrom(s, i) == NonSpaceFrom(s, j)
    decreases j - i
  {
    if i < j {
      NonSpaceSkipsSpace(s, i + 1, j);
    }
  }

  lemma {:induction false} NonSpaceKeepsWord(s: string, i: nat, j: nat)
    requires i <= j <= |s|
    requires forall k :: i <= k < j ==> !IsSpace(s[k])
    ensures NonSpaceFrom(s, i) == s[i..j] + NonSpaceFrom(s, j)
    decreases j - i
  {
    if i < j {
      assert !IsSpace(s[i]);
      assert NonSpaceFrom(s, i) == [s[i]] + NonSpaceFrom(s, i + 1);
      NonSpaceKeepsWord(s, i + 1, j);
      assert s[i..j] == [s[i]] + s[i + 1..j];
    }
  }

  lemma {:induction false} SplitFromKeepsText(s: string, i: nat)
    requires i <= |s|
    ensures Concat(SplitFrom(s, i)) == NonSpaceFrom(s, i)
    decreases |s| - i
  {
    var a := SkipSpace(s, i);
    SkippedSpace(s, i);
    NonSpaceSkipsSpace(s, i, a);
    if a < |s| {
      var b := SkipWord(s, a);
      SkippedWord(s, a);
      NonSpaceKeepsWord(s, a, b);
      SplitFromKeepsText(s, b);
      var r := SplitFrom(s, i);
      assert r[0] == s[a..b] && r[1..] == SplitFrom(s, b);
    }
  }

  /** Splitting loses exactly the whitespace: the tokens, put back together,
      are the non-whitespace characters of the input, in order. */
  lemma SplitKeepsText(s: string)
    ensures Concat(Split(s)) == NonSpaceFrom(s, 0)
  {
    SplitFromKeepsText(s, 0);
  }

  /** Scanning a slice `s[a..b]` of `s` stops where scanning `s` does, or at `b`. */
  lemma {:induction false} SkipSpaceSlice(s: string, a: nat, b: nat, i: nat)
    requires a <= i <= b <= |s|
    ensures SkipSpace(s[a..b], i - a) == (if SkipSpace(s, i) < b then SkipSpace(s, i) else b) - a
    decreases b - i
  {
    if i < b && IsSpace(s[i]) {
      SkipSpaceSlice(s, a, b, i + 1);
    }
  }

  lemma {:induction false} SkipWordSlice(s: string, a: nat, b: nat, i: nat)
    requires a <= i <= b <= |s|
    ensures SkipWord(s[a..b], i - a) == (if SkipWord(s, i) < b then SkipWord(s, i) else b) - a
    decreases b - i
  {
    if i < b && !IsSpace(s[i]) {
      SkipWordSlice(s, a, b, i + 1);
    }
  }

  lemma SliceOfSlice(s: string, a: nat, b: nat, x: nat, y: nat)
    requires a <= x <= y <= b <= |s|
    ensures s[a..b][x - a..y - a] == s[x..y]
  {
    forall k | 0 <= k < y - x
      ensures s[a..b][x - a..y - a][k] == s[x..y][k]
    {
    }
  }

  lemma SliceOfAppend(p: string, q: string, x: nat, y: nat)
    requires x <= y <= |q|
    ensures (p + q)[|p| + x..|p| + y] == q[x..y]
  {
    forall k | 0 <= k < y - x
      ensures (p + q)[|p| + x..|p| + y][k] == q[x..y][k]
    {
    }
  }

  /** Two strings whose next tokens agree, and whose tokens after that
      agree, have the same tokens. */
  lemma SameFirstToken(t: string, s: string, i': nat, i: nat, x': nat, x: nat, y': nat, y: nat)
    requires i' <= |t| && x' == SkipSpace(t, i') && x' < |t| && y' == SkipWord(t, x')
    requires i <= |s| && x == SkipSpace(s, i) && x < |s| && y == SkipWord(s, x)
    requires t[x'..y'] == s[x..y]
    requires SplitFrom(t, y') == SplitFrom(s, y)
    ensures SplitFrom(t, i') == SplitFrom(s, i)
  {
  }

  /** One token of the slice `s[a..b]` is the same token of `s`. */
  lemma SliceTokenStep(s: string, a: nat, b: nat, i: nat, x: nat, y: nat)
    requires a <= i <= x < b <= |s| && x == SkipSpace(s, i) && y == SkipWord(s, x) && y <= b
    requires SplitFrom(s[a..b], y - a) == SplitFrom(s, y)
    ensures SplitFrom(s[a..b], i - a) == SplitFrom(s, i)
  {
    var t := s[a..b];
    SkipSpaceSlice(s, a, b, i);
    assert SkipSpace(t, i - a) == x - a;
    SkipWordSlice(s, a, b, x);
    assert SkipWord(t, x - a) == y - a;
    SliceOfSlice(s, a, b, x, y);
    assert SplitFrom(t, i - a) == [t[x - a..y - a]] + SplitFrom(t, y - a);
    assert SplitFrom(s, i) == [s[x..y]] + SplitFrom(s, y);
  }

  /** Past the last token of the slice `s[a..b]`, `s` holds only whitespace. */
  lemma SliceTokensEnd(s: string, a: nat, b: nat, i: nat)
    requires a <= i <= b <= |s| && b <= SkipSpace(s, i)
    requires forall k :: b <= k < |s| ==> IsSpace(s[k])
    ensures SplitFrom(s[a..b], i - a) == [] == SplitFrom(s, i)
  {
    SkipSpaceSlice(s, a, b, i);
  }

  /** Cutting whitespace off both ends of `s` leaves the tokens from any
      index inside the cut unchanged. */
  lemma {:induction false} SplitFromSlice(s: string, a: nat, b: nat, i: nat)
    requires a <= i <= b <= |s|
    requires forall k :: b <= k < |s| ==> IsSpace(s[k])
    ensures SplitFrom(s[a..b], i - a) == SplitFrom(s, i)
    decreases b - i
  {
    var x := SkipSpace(s, i);
    if x < b {
      var y := SkipWord(s, x);
      SkippedWord(s, x);
      if b < |s| {
        assert IsSpace(s[b]);
      }
      SplitFromSlice(s, a, b, y);
      SliceTokenStep(s, a, b, i, x, y);
    } else {
      SliceTokensEnd(s, a, b, i);
    }
  }

  /** Stripping before splitting changes nothing. */
  lemma SplitOfStrip(s: string)
    ensures Split(Strip(s)) == Split(s)
  {
    var a := SkipSpace(s, 0);
    SkippedSpace(s, 0);
    TrimmedEnd(s, |s|);
    if a < |s| {
      SplitFromSlice(s, a, TrimEnd(s, |s|), a);
      assert SplitFrom(s, 0) == SplitFrom(s, a);
    } else {
      assert AllSpace(s);
    }
  }

  /** The first token of a line that is not all whitespace begins its
      stripped form, and is followed there by whitespace or by nothing. */
  lemma FirstTokenStartsStrip(s: string)
    requires !AllSpace(s)
    ensures Split(s) != [] && Split(s)[0] <= Strip(s)
    ensures |Split(s)[0]| < |Strip(s)| ==> IsSpace(Strip(s)[|Split(s)[0]|])
  {
    var a := SkipSpace(s, 0);
    var b := SkipWord(s, a);
    var e := TrimEnd(s, |s|);
    StripAndFirstToken(s);
    SlicePrefix(s, a, b, e);
  }

  lemma SlicePrefix(s: string, a: nat, b: nat, e: nat)
    requires a <= b <= e <= |s|
    ensures s[a..b] <= s[a..e]
    ensures b < e ==> s[a..e][b - a] == s[b]
  {
  }

  /** Where the stripped line and the first token lie in a line that is not
      all whitespace. */
  lemma StripAndFirstToken(s: string)
    requires !AllSpace(s)
    ensures var a := SkipSpace(s, 0); var b := SkipWord(s, a); var e := TrimEnd(s, |s|);
      && a < b <= e && Strip(s) == s[a..e]
      && Split(s) != [] && Split(s)[0] == s[a..b]
  {
    var a := SkipSpace(s, 0);
    var e := TrimEnd(s, |s|);
    SkippedSpace(s, 0);
    SkippedWord(s, a);
    TrimmedEnd(s, |s|);
    assert a < e;
    if e < |s| {
      assert IsSpace(s[e]);
    }
  }

  lemma {:induction false} SkipSpaceShift(p: string, q: string, i: nat)
    requires i <= |q|
    ensures SkipSpace(p + q, |p| + i) == |p| + SkipSpace(q, i)
    decreases |q| - i
  {
    if i < |q| {
      assert (p + q)[|p| + i] == q[i];
      if IsSpace(q[i]) {
        SkipSpaceShift(p, q, i + 1);
      }
    }
  }

  lemma {:induction false} SkipWordShift(p: string, q: string, i: nat)
    requires i <= |q|
    ensures SkipWord(p + q, |p| + i) == |p| + SkipWord(q, i)
    decreases |q| - i
  {
    if i < |q| {
      assert (p + q)[|p| + i] == q[i];
      if !IsSpace(q[i]) {
        SkipWordShift(p, q, i + 1);
      }
    }
  }

  /** The tokens of a suffix do not depend on what comes before it. */
  lemma {:induction false} SplitFromShift(p: string, q: string, i: nat)
    requires i <= |q|
    ensures SplitFrom(p + q, |p| + i) == SplitFrom(q, i)
    decreases |q| - i
  {
    var x := SkipSpace(q, i);
    if x < |q| {
      var y := SkipWord(q, x);
      SplitFromShift(p, q, y);
      ShiftedToken(p, q, i, x, y);
    } else {
      SkipSpaceShift(p, q, i);
    }
  }

  /** One token of `q` is the same token of `p + q`. */
  lemma ShiftedToken(p: string, q: string, i: nat, x: nat, y: nat)
    requires i <= x < |q| && x == SkipSpace(q, i) && y == SkipWord(q, x)
    requires SplitFrom(p + q, |p| + y) == SplitFrom(q, y)
    ensures SplitFrom(p + q, |p| + i) == SplitFrom(q, i)
  {
    SkipSpaceShift(p, q, i);
    SkipWordShift(p, q, x);
    SliceOfAppend(p, q, x, y);
    SameFirstToken(p + q, q, |p| + i, i, |p| + x, x, |p| + y, y);
  }

  lemma {:induction false} SkipWordAcross(s: string, i: nat, j: nat)
    requires i <= j <= |s|
    requires forall k :: i <= k < j ==> !IsSpace(s[k])
    requires j == |s| || IsSpace(s[j])
    ensures SkipWord(s, i) == j
    decreases j - i
  {
    if i < j {
      SkipWordAcross(s, i + 1, j);
    }
  }

  /** A whitespace-free word, on its own, is its only token. */
  lemma SplitWord(w: string)
    requires w != [] && NoSpace(w)
    ensures Split(w) == [w]
  {
    SkipWordAcross(w, 0, |w|);
    assert SkipSpace(w, 0) == 0;
    assert SplitFrom(w, |w|) == [];
    assert w[0..|w|] == w;
    assert SplitFrom(w, 0) == [w[0..|w|]] + SplitFrom(w, |w|);
  }

  /** Whitespace from `i` to `j` is skipped over. */
  lemma {:induction false} SkipSpaceAcross(s: string, i: nat, j: nat)
    requires i <= j <= |s|
    requires forall k :: i <= k < j ==> IsSpace(s[k])
    ensures SkipSpace(s, i) == SkipSpace(s, j)
    decreases j - i
  {
    if i < j {
      SkipSpaceAcross(s, i + 1, j);
    }
  }

  /** A whitespace-free word followed by whitespace is the first token, and
      the rest of the string gives the other tokens. */
  lemma SplitCons(w: string, sep: string, rest: string)
    requires w != [] && NoSpace(w)
    requires sep != [] && AllSpace(sep)
    ensures Split(w + sep + rest) == [w] + Split(rest)
  {
    var s := w + sep + rest;
    var n := |w| + |sep|;
    assert s[|w|] == sep[0];
    assert forall k :: 0 <= k < |w| ==> s[k] == w[k];
    assert forall k :: |w| <= k < n ==> s[k] == sep[k - |w|];
    SkipWordAcross(s, 0, |w|);
    assert s[0..|w|] == w;
    assert SkipSpace(s, 0) == 0;
    assert SplitFrom(s, 0) == [w] + SplitFrom(s, |w|);
    SkipSpaceAcross(s, |w|, n);
    assert SplitFrom(s, |w|) == SplitFrom(s, n);
    assert s == (w + sep) + rest;
    SplitFromShift(w + sep, rest, 0);
  }

  /** Whitespace in front of a string adds no token. */
  lemma SplitAfterSpace(p: string, x: string)
    requires AllSpace(p)
    ensures Split(p + x) == Split(x)
  {
    SkipSpaceAcross(p + x, 0, |p|);
    assert SplitFrom(p + x, 0) == SplitFrom(p + x, |p|);
    SplitFromShift(p, x, 0);
  }

  /** A whitespace-free word followed by nothing or by whitespace is the
      first token. */
  lemma SplitWordThen(w: string, r: string)
    requires w != [] && NoSpace(w)
    requires r == [] || IsSpace(r[0])
    ensures Split(w + r) == [w] + Split(r)
  {
    if r == [] {
      SplitWord(w);
      assert w + r == w;
      assert SkipSpace(r, 0) == 0;
    } else {
      var sep := [r[0]];
      assert AllSpace(sep);
      assert r == sep + r[1..];
      assert w + r == w + sep + r[1..];
      SplitCons(w, sep, r[1..]);
      SplitAfterSpace([r[0]], r[1..]);
    }
  }

  /** The words `ts` laid out with `seps[k]` before the `k`th word and the
      last of `seps` after the last word. */
  function Interleave(ts: seq<string>, seps: seq<string>): string
    requires |seps| == |ts| + 1
    decreases |ts|
  {
    if |ts| == 0 then seps[0] else seps[0] + ts[0] + Interleave(ts[1..], seps[1..])
  }

  /** Whitespace-free words, laid out with whitespace around them and at
      least one whitespace character between consecutive ones, split back
      into exactly those words: `split()` breaks at whitespace runs and
      nowhere else. */
  lemma {:induction false} SplitInterleave(ts: seq<string>, seps: seq<string>)
    requires |seps| == |ts| + 1
    requires forall k :: 0 <= k < |ts| ==> ts[k] != [] && NoSpace(ts[k])
    requires forall k :: 0 <= k < |seps| ==> AllSpace(seps[k])
    requires forall k :: 0 < k < |ts| ==> seps[k] != []
    ensures Split(Interleave(ts, seps)) == ts
    decreases |ts|
  {
    if |ts| == 0 {
      SplitTokens(seps[0]);
    } else {
      var rest := Interleave(ts[1..], seps[1..]);
      assert AllSpace(seps[0]) && AllSpace(seps[1]);
      SplitInterleave(ts[1..], seps[1..]);
      assert Interleave(ts, seps) == seps[0] + (ts[0] + rest);
      SplitAfterSpace(seps[0], ts[0] + rest);
      if seps[1] != [] {
        assert rest[0] == seps[1][0];
      } else {
        assert |ts| == 1 && rest == [];
      }
      SplitWordThen(ts[0], rest);
      assert ts == [ts[0]] + ts[1..];
    }
  }
}
