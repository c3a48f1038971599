/**
 * The few Python `str` operations the recommender display relies on:
 * `strip()`, `find`, `split(sep)` for a non-empty separator, and the
 * whitespace class that `strip()` and `isspace()` use.
 */
module PyStr {
  import opened Wrappers

  /** A slice of a slice is a slice of the original. */
  lemma SliceOfSlice(s: string, a: nat, b: nat, c: nat, d: nat)
    requires a <= b <= |s| && c <= d <= b - a
    ensures s[a..b][c..d] == s[a + c..a + d]
  {
    assert forall k :: 0 <= k < d - c ==> s[a..b][c..d][k] == s[a + c..a + d][k];
  }

  /** A suffix is a slice followed by the rest. */
  lemma SuffixConcat(s: string, a: nat, b: nat)
    requires a <= b <= |s|
    ensures s[a..] == s[a..b] + s[b..]
  {
    assert forall k :: 0 <= k < |s| - a ==> s[a..][k] == (s[a..b] + s[b..])[k];
  }

  lemma AppendAssoc(a: string, b: string, c: string)
    ensures (a + b) + c == a + (b + c)
  {
    assert forall k :: 0 <= k < |a| + |b| + |c| ==> ((a + b) + c)[k] == (a + (b + c))[k];
  }

  /** The characters Python's `str.isspace()` accepts, which `str.strip()` removes. */
  predicate IsSpace(c: char) {
    c == ' ' || ('\t' <= c <= '\r') || ('\U{1c}' <= c <= '\U{1f}')
    || c == '\U{85}' || c == '\U{a0}' || c == '\U{1680}'
    || ('\U{2000}' <= c <= '\U{200a}') || c == '\U{2028}' || c == '\U{2029}'
    || c == '\U{202f}' || c == '\U{205f}' || c == '\U{3000}'
  }

  predicate AllSpace(s: string) {
    forall i :: 0 <= i < |s| ==> IsSpace(s[i])
  }

  /** Removes the leading whitespace of `s`. */
  function TrimStart(s: string): string
    decreases |s|
  {
    if s != [] && IsSpace(s[0]) then TrimStart(s[1..]) else s
  }

  /** `TrimStart(s)` is a suffix of `s` after a whitespace run, not itself starting with whitespace. */
  lemma {:induction false} TrimStartSpec(s: string)
    ensures |TrimStart(s)| <= |s| && TrimStart(s) == s[|s| - |TrimStart(s)|..]
    ensures AllSpace(s[..|s| - |TrimStart(s)|])
    ensures TrimStart(s) == [] || !IsSpace(TrimStart(s)[0])
    decreases |s|
  {
    if s != [] && IsSpace(s[0]) {
      var t := s[1..];
      var r := TrimStart(t);
      TrimStartSpec(t);
      assert TrimStart(s) == r;
      var n := |s| - |r|;
      forall i | 0 <= i < |r| ensures r[i] == s[n..][i] {
        assert r[i] == t[n - 1..][i];
      }
      var ws := s[..n];
      forall k | 0 <= k < n ensures IsSpace(ws[k]) {
        if k > 0 {
          assert ws[k] == t[..n - 1][k - 1];
        }
      }
    }
  }

  /** Removes the trailing whitespace of `s`. */
  function TrimEnd(s: string): string
    decreases |s|
  {
    if s != [] && IsSpace(s[|s| - 1]) then TrimEnd(s[..|s| - 1]) else s
  }

  /** `TrimEnd(s)` is a prefix of `s` before a whitespace run, not itself ending with whitespace. */
  lemma {:induction false} TrimEndSpec(s: string)
    ensures |TrimEnd(s)| <= |s| && TrimEnd(s) == s[..|TrimEnd(s)|]
    ensures AllSpace(s[|TrimEnd(s)|..])
    ensures TrimEnd(s) == [] || !IsSpace(TrimEnd(s)[|TrimEnd(s)| - 1])
    decreases |s|
  {
    if s != [] && IsSpace(s[|s| - 1]) {
      var r := TrimEnd(s[..|s| - 1]);
      TrimEndSpec(s[..|s| - 1]);
      assert TrimEnd(s) == r;
      assert s[..|s| - 1][..|r|] == s[..|r|];
      forall k | 0 <= k < |s| - |r| ensures IsSpace(s[|r|..][k]) {
        if k < |s| - 1 - |r| {
          assert s[|r|..][k] == s[..|s| - 1][|r|..][k];
        }
      }
    }
  }

  /** `r` is the piece of `s` starting at `a` with only whitespace around it. */
  predicate StrippedAt(s: string, r: string, a: nat) {
    a + |r| <= |s| && r == s[a..a + |r|] && AllSpace(s[..a]) && AllSpace(s[a + |r|..])
  }

  /** No whitespace at either end of `r` (or `r` is empty). */
  predicate TightEnds(r: string) {
    r == [] || (!IsSpace(r[0]) && !IsSpace(r[|r| - 1]))
  }

  /** Python's `s.strip()`: `s` without its leading and trailing whitespace. */
  function Strip(s: string): string {
    TrimEnd(TrimStart(s))
  }

  /** `s.strip()` is a piece of `s` with only whitespace around it, and tight ends. */
  lemma StripSpec(s: string)
    ensures exists a: nat :: StrippedAt(s, Strip(s), a)
    ensures TightEnds(Strip(s))
  {
    var t := TrimStart(s);
    var r := TrimEnd(t);
    TrimStartSpec(s);
    TrimEndSpec(t);
    assert Strip(s) == r;
    assert StrippedAt(s, r, |s| - |t|) by {
      assert s[|s| - |t|..][|r|..] == s[|s| - |t| + |r|..];
      assert s[|s| - |t|..][..|r|] == s[|s| - |t|..|s| - |t| + |r|];
    }
  }

  /** Inside a strip witness: the margins are whitespace, the middle is `r`. */
  lemma StrippedAtChar(s: string, r: string, a: nat, i: nat)
    requires StrippedAt(s, r, a) && i < |s|
    ensures i < a || a + |r| <= i ==> IsSpace(s[i])
    ensures a <= i < a + |r| ==> s[i] == r[i - a]
  {
    if i < a {
      assert s[..a][i] == s[i];
    } else if a + |r| <= i {
      assert s[a + |r|..][i - a - |r|] == s[i];
    }
  }

  /** Stripping adds no character that was not there. */
  lemma StripKeepsOut(s: string, c: char)
    requires c !in s
    ensures c !in Strip(s)
  {
    var r := Strip(s);
    StripSpec(s);
    var a: nat :| StrippedAt(s, r, a);
    forall i | 0 <= i < |r| ensures r[i] != c {
      StrippedAtChar(s, r, a, a + i);
    }
  }

  /** At most one piece of `s` has only whitespace around it and tight ends. */
  lemma StrippedAtUnique(s: string, r: string, a: nat, r': string, a': nat)
    requires StrippedAt(s, r, a) && TightEnds(r)
    requires StrippedAt(s, r', a') && TightEnds(r')
    ensures r == r'
  {
    if r' != [] {
      // the first and last characters of r' lie outside r's margins, and vice versa
      StrippedAtChar(s, r', a', a');
      StrippedAtChar(s, r, a, a');
      StrippedAtChar(s, r', a', a' + |r'| - 1);
      StrippedAtChar(s, r, a, a' + |r'| - 1);
      StrippedAtChar(s, r, a, a);
      StrippedAtChar(s, r', a', a);
      StrippedAtChar(s, r, a, a + |r| - 1);
      StrippedAtChar(s, r', a', a + |r| - 1);
    } else if r != [] {
      StrippedAtChar(s, r, a, a);
      StrippedAtChar(s, r', a', a);
    }
  }

  /**
   * `Strip(s)` is the only piece of `s` that has nothing but whitespace around
   * it and does not itself start or end with whitespace.
   */
  lemma StripCharacterized(s: string, r: string, a: nat)
    requires StrippedAt(s, r, a) && TightEnds(r)
    ensures Strip(s) == r
  {
    var r' := Strip(s);
    StripSpec(s);
    var a': nat :| StrippedAt(s, r', a');
    StrippedAtUnique(s, r, a, r', a');
  }

  /** `s.strip()` is empty exactly when every character of `s` is whitespace. */
  lemma StripEmptyIffAllSpace(s: string)
    ensures Strip(s) == [] <==> AllSpace(s)
  {
    var r := Strip(s);
    StripSpec(s);
    var a: nat :| StrippedAt(s, r, a);
    if r == [] {
      forall i | 0 <= i < |s| ensures IsSpace(s[i]) {
        StrippedAtChar(s, r, a, i);
      }
    } else {
      StrippedAtChar(s, r, a, a);
    }
  }

  /** `t` occurs in `s` at position `q`. */
  predicate OccursAt(s: string, t: string, q: nat) {
    q + |t| <= |s| && s[q..q + |t|] == t
  }

  ghost predicate Contains(s: string, t: string) {
    exists q: nat :: OccursAt(s, t, q)
  }

  /** No occurrence of `t` in `s` starts in `[from, to)`. */
  ghost predicate NoneBetween(s: string, t: string, from: nat, to: nat) {
    forall q: nat :: from <= q < to ==> !OccursAt(s, t, q)
  }

  /** The first occurrence of `t` in `s` at or after `pos`, or `|s|` when there is none. */
  ghost function FirstFrom(s: string, t: string, pos: nat): (j: nat)
    requires pos <= |s|
    ensures pos <= j <= |s|
    ensures OccursAt(s, t, j) || j == |s|
    ensures NoneBetween(s, t, pos, j)
    decreases |s| - pos
  {
    if pos == |s| || OccursAt(s, t, pos) then pos else FirstFrom(s, t, pos + 1)
  }

  /** Glues `parts` back together with `sep` between neighbours. */
  function Join(parts: seq<string>, sep: string): string
    requires |parts| >= 1
  {
    if |parts| == 1 then parts[0] else parts[0] + sep + Join(parts[1..], sep)
  }

  lemma JoinCons(head: string, rest: seq<string>, sep: string)
    requires |rest| >= 1
    ensures Join([head] + rest, sep) == head + sep + Join(rest, sep)
  {
    assert ([head] + rest)[1..] == rest;
  }

  /**
   * The pieces of `s[start..]` between the occurrences of `sep`, found left
   * to right without overlap, when the current piece began at `start` and
   * the scan has reached `pos`.
   */
  function SplitScan(s: string, sep: string, start: nat, pos: nat): (r: seq<string>)
    requires sep != [] && start <= pos <= |s|
    ensures |r| >= 1
    decreases |s| - pos
  {
    if |s| < pos + |sep| then
      [s[start..]]
    else if OccursAt(s, sep, pos) then
      [s[start..pos]] + SplitScan(s, sep, pos + |sep|, pos + |sep|)
    else
      SplitScan(s, sep, start, pos + 1)
  }

  /** Python's `s.split(sep)` for a non-empty `sep`. */
  function Split(s: string, sep: string): (r: seq<string>)
    requires sep != []
    ensures |r| >= 1
  {
    SplitScan(s, sep, 0, 0)
  }

  /**
   * When the next occurrence of `sep` from `pos` on is at `j` (or there is
   * none and `j == |s|`), the current piece ends at `j`.
   */
  lemma {:induction false} SplitScanHead(s: string, sep: string, start: nat, pos: nat, j: nat)
    requires sep != [] && start <= pos <= j <= |s|
    requires OccursAt(s, sep, j) || j == |s|
    requires NoneBetween(s, sep, pos, j)
    ensures SplitScan(s, sep, start, pos)[0] == s[start..j]
    ensures OccursAt(s, sep, j) ==>
      SplitScan(s, sep, start, pos) == [s[start..j]] + SplitScan(s, sep, j + |sep|, j + |sep|)
    ensures !OccursAt(s, sep, j) ==> SplitScan(s, sep, start, pos) == [s[start..]]
    decreases |s| - pos
  {
    if |s| < pos + |sep| {
      assert !OccursAt(s, sep, j);
    } else if OccursAt(s, sep, pos) {
      assert pos == j;
    } else {
      SplitScanHead(s, sep, start, pos + 1, j);
    }
  }

  /** `s.split(sep)` has a single piece exactly when `sep` does not occur in `s`. */
  lemma SplitSingleIffAbsent(s: string, sep: string)
    requires sep != []
    ensures |Split(s, sep)| == 1 <==> !Contains(s, sep)
  {
    var j := FirstFrom(s, sep, 0);
    SplitScanHead(s, sep, 0, 0, j);
    if !OccursAt(s, sep, j) {
      forall q: nat ensures !OccursAt(s, sep, q) {
        if q < j {
          assert !OccursAt(s, sep, q);
        }
      }
    }
  }

  /** Cutting `s` around an occurrence of `sep` at `pos` and gluing it back loses nothing. */
  lemma GlueAround(s: string, sep: string, start: nat, pos: nat)
    requires start <= pos && OccursAt(s, sep, pos)
    ensures s[start..pos] + sep + s[pos + |sep|..] == s[start..]
  {
    AppendAssoc(s[start..pos], sep, s[pos + |sep|..]);
    SuffixConcat(s, pos, pos + |sep|);
    SuffixConcat(s, start, pos);
  }

  /** Joining the pieces with the separator gives back what was split. */
  lemma {:induction false} SplitScanJoin(s: string, sep: string, start: nat, pos: nat)
    requires sep != [] && start <= pos <= |s|
    ensures Join(SplitScan(s, sep, start, pos), sep) == s[start..]
    decreases |s| - pos
  {
    if |s| < pos + |sep| {
    } else if OccursAt(s, sep, pos) {
      var rest := SplitScan(s, sep, pos + |sep|, pos + |sep|);
      assert SplitScan(s, sep, start, pos) == [s[start..pos]] + rest;
      JoinCons(s[start..pos], rest, sep);
      SplitScanJoin(s, sep, pos + |sep|, pos + |sep|);
      GlueAround(s, sep, start, pos);
    } else {
      SplitScanJoin(s, sep, start, pos + 1);
    }
  }

  /** `Join(Split(s, sep), sep) == s`: splitting loses nothing. */
  lemma SplitJoin(s: string, sep: string)
    requires sep != []
    ensures Join(Split(s, sep), sep) == s
  {
    SplitScanJoin(s, sep, 0, 0);
  }

  /** `s[from..to]` holds no occurrence of `t` when `s` has none that fits within `[from, to)`. */
  lemma NoOccurrenceInside(s: string, t: string, from: nat, to: nat)
    requires from <= to <= |s|
    requires forall q: nat :: from <= q && q + |t| <= to ==> !OccursAt(s, t, q)
    ensures !Contains(s[from..to], t)
  {
    forall q: nat | OccursAt(s[from..to], t, q) ensures false {
      SliceOfSlice(s, from, to, q, q + |t|);
      assert OccursAt(s, t, from + q);
    }
  }

  /** No piece of the split contains the separator. */
  lemma {:induction false} SplitScanPieceAvoidsSep(s: string, sep: string, start: nat, pos: nat, k: nat)
    requires sep != [] && start <= pos <= |s|
    requires NoneBetween(s, sep, start, pos)
    requires k < |SplitScan(s, sep, start, pos)|
    ensures !Contains(SplitScan(s, sep, start, pos)[k], sep)
    decreases |s| - pos
  {
    if |s| < pos + |sep| {
      assert SplitScan(s, sep, start, pos)[k] == s[start..] == s[start..|s|];
      NoOccurrenceInside(s, sep, start, |s|);
    } else if OccursAt(s, sep, pos) {
      if k == 0 {
        NoOccurrenceInside(s, sep, start, pos);
      } else {
        SplitScanPieceAvoidsSep(s, sep, pos + |sep|, pos + |sep|, k - 1);
      }
    } else {
      SplitScanPieceAvoidsSep(s, sep, start, pos + 1, k);
    }
  }

  /** No piece of `s.split(sep)` contains `sep`. */
  lemma SplitPieceAvoidsSep(s: string, sep: string, k: nat)
    requires sep != [] && k < |Split(s, sep)|
    ensures !Contains(Split(s, sep)[k], sep)
  {
    SplitScanPieceAvoidsSep(s, sep, 0, 0, k);
  }

  /** A one-character separator occurs exactly where that character is. */
  lemma OccursAtChar(s: string, c: char, q: nat)
    ensures OccursAt(s, [c], q) <==> q < |s| && s[q] == c
  {
    if q < |s| {
      assert s[q..q + 1] == [s[q]];
    }
  }

  lemma ContainsChar(s: string, c: char)
    ensures Contains(s, [c]) <==> c in s
  {
    if c in s {
      var q :| 0 <= q < |s| && s[q] == c;
      OccursAtChar(s, c, q);
    }
    if Contains(s, [c]) {
      var q: nat :| OccursAt(s, [c], q);
      OccursAtChar(s, c, q);
    }
  }
}
