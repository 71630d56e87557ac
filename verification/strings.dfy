/** Text helpers standing in for the Python string operations the summariser
    uses: `+=` accumulation, `str.join`, `str.split`, `str.rsplit`,
    `str.lower` / `str.upper` and `str.replace`. */
module Strings {
  import opened Maybe

  /* ---------------- concatenation ---------------- */

  /** Sum of the lengths of `parts`. */
  function TotalLength(parts: seq<string>): nat
  {
    if |parts| == 0 then 0 else TotalLength(parts[..|parts| - 1]) + |parts[|parts| - 1]|
  }

  /** The parts glued together in order with nothing between them, as a loop
      of `text += part` builds it. */
  function Concat(parts: seq<string>): (r: string)
    ensures |r| == TotalLength(parts)
  {
    if |parts| == 0 then "" else Concat(parts[..|parts| - 1]) + parts[|parts| - 1]
  }

  lemma {:induction false} ConcatAppend(a: seq<string>, b: seq<string>)
    ensures Concat(a + b) == Concat(a) + Concat(b)
    decreases |b|
  {
    if |b| == 0 {
      assert a + b == a;
    } else {
      var b' := b[..|b| - 1];
      assert (a + b)[..|a + b| - 1] == a + b';
      ConcatAppend(a, b');
    }
  }

  /** Part `k` sits, unchanged, right after the text of the parts before it:
      concatenation keeps every part, in order, with no separator. */
  lemma {:induction false} ConcatPlacesParts(parts: seq<string>, k: nat)
    requires k < |parts|
    ensures var off := |Concat(parts[..k])|;
            off + |parts[k]| <= |Concat(parts)|
            && Concat(parts)[off..off + |parts[k]|] == parts[k]
  {
    assert parts == parts[..k + 1] + parts[k + 1..];
    ConcatAppend(parts[..k + 1], parts[k + 1..]);
    assert parts[..k + 1][..k] == parts[..k];
    var head := Concat(parts[..k + 1]);
    assert head == Concat(parts[..k]) + parts[k];
    assert Concat(parts) == head + Concat(parts[k + 1..]);
  }

  /* ---------------- terminated parts and splitting ---------------- */

  /** Every part followed by the terminator `t`, in order
      (`for p in parts: text += p + t`). */
  function Terminated(parts: seq<string>, t: string): string
  {
    if |parts| == 0 then "" else Terminated(parts[..|parts| - 1], t) + parts[|parts| - 1] + t
  }

  lemma {:induction false} TerminatedAppend(a: seq<string>, b: seq<string>, t: string)
    ensures Terminated(a + b, t) == Terminated(a, t) + Terminated(b, t)
    decreases |b|
  {
    if |b| == 0 {
      assert a + b == a;
    } else {
      var b' := b[..|b| - 1];
      assert (a + b)[..|a + b| - 1] == a + b';
      TerminatedAppend(a, b', t);
    }
  }

  /** A character found in no part and not in the terminator is not in the
      terminated text either. */
  lemma {:induction false} TerminatedAvoids(parts: seq<string>, t: string, c: char)
    requires forall k :: 0 <= k < |parts| ==> c !in parts[k]
    requires c !in t
    ensures c !in Terminated(parts, t)
    decreases |parts|
  {
    if |parts| > 0 {
      TerminatedAvoids(parts[..|parts| - 1], t, c);
    }
  }

  /** Python's `s.split(c)` for a single-character separator: the pieces
      between occurrences of `c`, always at least one. */
  function SplitOn(s: string, c: char): (r: seq<string>)
    ensures |r| >= 1
  {
    if |s| == 0 then [""]
    else
      var rest := SplitOn(s[1..], c);
      if s[0] == c then [""] + rest else [[s[0]] + rest[0]] + rest[1..]
  }

  lemma {:induction false} SplitOnAfterPiece(p: string, c: char, x: string)
    requires c !in p
    ensures SplitOn(p + [c] + x, c) == [p] + SplitOn(x, c)
    decreases |p|
  {
    if |p| == 0 {
      assert p + [c] + x == [c] + x;
      assert ([c] + x)[1..] == x;
    } else {
      assert (p + [c] + x)[1..] == p[1..] + [c] + x;
      SplitOnAfterPiece(p[1..], c, x);
      assert [p[0]] + p[1..] == p;
    }
  }

  /** Round trip: splitting a text of `c`-terminated parts on `c` gives the
      parts back, followed by the empty piece after the last terminator. */
  lemma {:induction false} SplitTerminated(parts: seq<string>, c: char)
    requires forall k :: 0 <= k < |parts| ==> c !in parts[k]
    ensures SplitOn(Terminated(parts, [c]), c) == parts + [""]
    decreases |parts|
  {
    if |parts| > 0 {
      var rest := parts[1..];
      assert parts == [parts[0]] + rest;
      TerminatedAppend([parts[0]], rest, [c]);
      assert [parts[0]][..0] == [];
      assert Terminated([parts[0]], [c]) == parts[0] + [c];
      SplitOnAfterPiece(parts[0], c, Terminated(rest, [c]));
      SplitTerminated(rest, c);
    }
  }

  /* ---------------- joining ---------------- */

  /** Python's `sep.join(parts)`. */
  function Join(parts: seq<string>, sep: string): string
  {
    if |parts| == 0 then ""
    else if |parts| == 1 then parts[0]
    else Join(parts[..|parts| - 1], sep) + sep + parts[|parts| - 1]
  }

  /** Joining puts the separator between parts exactly as terminating every
      part does, except after the last one; so the joined text is every part
      in order with one separator between neighbours. */
  lemma {:induction false} JoinThenSeparatorIsTerminated(parts: seq<string>, sep: string)
    requires |parts| > 0
    ensures Join(parts, sep) + sep == Terminated(parts, sep)
    decreases |parts|
  {
    if |parts| == 1 {
      assert parts[..0] == [];
    } else {
      JoinThenSeparatorIsTerminated(parts[..|parts| - 1], sep);
    }
  }

  lemma {:induction false} JoinLength(parts: seq<string>, sep: string)
    requires |parts| > 0
    ensures |Join(parts, sep)| == TotalLength(parts) + (|parts| - 1) * |sep|
    decreases |parts|
  {
    if |parts| > 1 {
      var init := parts[..|parts| - 1];
      JoinLength(init, sep);
      var k := |init| - 1;
      assert (k + 1) * |sep| == k * |sep| + |sep|;
    }
  }

  /* ---------------- last occurrence of a character ---------------- */

  /** Index of the last `c` in `s`, if any. */
  function LastIndexOf(s: string, c: char): (r: Option<nat>)
    ensures r.None? <==> c !in s
    ensures r.Some? ==> r.value < |s| && s[r.value] == c && c !in s[r.value + 1..]
  {
    if |s| == 0 then None
    else if s[|s| - 1] == c then Some(|s| - 1)
    else
      var r := LastIndexOf(s[..|s| - 1], c);
      assert s == s[..|s| - 1] + [s[|s| - 1]];
      if r.Some? then
        assert s[r.value + 1..] == s[..|s| - 1][r.value + 1..] + [s[|s| - 1]];
        r
      else r
  }

  /** Python's `s.split(c)[-1]`: the text after the last `c`, or all of `s`. */
  function AfterLast(s: string, c: char): string
  {
    match LastIndexOf(s, c)
    case None => s
    case Some(i) => s[i + 1..]
  }

  /** Python's `s.rsplit(c, 1)[0]`: the text before the last `c`, or all of `s`. */
  function BeforeLast(s: string, c: char): string
  {
    match LastIndexOf(s, c)
    case None => s
    case Some(i) => s[..i]
  }

  /** The two halves around the last `c` rebuild the text, and the second
      half holds no `c`. */
  lemma SplitAtLastRoundTrip(s: string, c: char)
    ensures c !in AfterLast(s, c)
    ensures c in s ==> BeforeLast(s, c) + [c] + AfterLast(s, c) == s
    ensures c !in s ==> BeforeLast(s, c) == s && AfterLast(s, c) == s
  {
    match LastIndexOf(s, c)
    case None =>
    case Some(i) =>
      assert s == s[..i] + [c] + s[i + 1..];
  }

  /** A `c` followed by a `c`-free tail is the last `c`. */
  lemma {:induction false} LastIndexAfterSuffix(a: string, c: char, x: string)
    requires c !in x
    ensures LastIndexOf(a + [c] + x, c) == Some(|a|)
    decreases |x|
  {
    if |x| > 0 {
      var s := a + [c] + x;
      assert s[..|s| - 1] == a + [c] + x[..|x| - 1];
      LastIndexAfterSuffix(a, c, x[..|x| - 1]);
    }
  }

  /** Splitting at the last `c` is the only split around a `c` whose right
      half holds no `c`. */
  lemma SplitAtLastUnique(a: string, c: char, x: string)
    requires c !in x
    ensures BeforeLast(a + [c] + x, c) == a && AfterLast(a + [c] + x, c) == x
  {
    var s := a + [c] + x;
    LastIndexAfterSuffix(a, c, x);
    assert s[..|a|] == a;
    assert s[|a| + 1..] == x;
  }

  /* ---------------- ASCII case mapping ---------------- */

  function LowerChar(c: char): char
  {
    if 'A' <= c <= 'Z' then (c as int + 32) as char else c
  }

  function UpperChar(c: char): char
  {
    if 'a' <= c <= 'z' then (c as int - 32) as char else c
  }

  function Lower(s: string): (r: string)
    ensures |r| == |s|
    ensures forall i :: 0 <= i < |s| ==> r[i] == LowerChar(s[i])
  {
    seq(|s|, i requires 0 <= i < |s| => LowerChar(s[i]))
  }

  function Upper(s: string): (r: string)
    ensures |r| == |s|
    ensures forall i :: 0 <= i < |s| ==> r[i] == UpperChar(s[i])
  {
    seq(|s|, i requires 0 <= i < |s| => UpperChar(s[i]))
  }

  /* ---------------- replacement ---------------- */

  /** `pat in s`: some slice of `s` equals `pat`, tried left to right. */
  predicate Contains(s: string, pat: string)
    decreases |s|
  {
    |pat| <= |s| && (s[..|pat|] == pat || Contains(s[1..], pat))
  }

  /** Searching a text with one more character in front: a match at the
      front, or a match in the rest. */
  lemma ContainsCons(c: char, rest: string, pat: string)
    requires |pat| > 0
    ensures Contains([c] + rest, pat) <==>
            (|pat| <= |rest| + 1 && [c] + rest[..|pat| - 1] == pat) || Contains(rest, pat)
    ensures c != pat[0] ==> (Contains([c] + rest, pat) <==> Contains(rest, pat))
  {
    var s := [c] + rest;
    assert s[1..] == rest;
    if |pat| <= |s| {
      assert s[..|pat|] == [c] + rest[..|pat| - 1];
    }
  }

  /** `pat` sits in `s` starting at index `i`. */
  ghost predicate OccursAt(s: string, pat: string, i: nat)
  {
    i + |pat| <= |s| && s[i..i + |pat|] == pat
  }

  /** `Contains` holds exactly when `pat` sits at some index of `s`. */
  lemma {:induction false} ContainsAtSomeIndex(s: string, pat: string)
    ensures Contains(s, pat) <==> exists i: nat :: OccursAt(s, pat, i)
    decreases |s|
  {
    if |pat| <= |s| && s[..|pat|] != pat {
      ContainsAtSomeIndex(s[1..], pat);
      if exists i: nat :: OccursAt(s, pat, i) {
        var i: nat :| OccursAt(s, pat, i);
        assert i > 0;
        assert s[1..][i - 1..i - 1 + |pat|] == pat;
        assert OccursAt(s[1..], pat, i - 1);
      }
      if Contains(s[1..], pat) {
        var i: nat :| OccursAt(s[1..], pat, i);
        assert s[i + 1..i + 1 + |pat|] == pat;
        assert OccursAt(s, pat, i + 1);
      }
    } else if |pat| <= |s| {
      assert OccursAt(s, pat, 0);
    }
  }

  /** Python's `s.replace(pat, repl)`: every occurrence of `pat`, found left
      to right without overlap, replaced by `repl`. */
  function ReplaceAll(s: string, pat: string, repl: string): (r: string)
    requires |pat| > 0
    ensures !Contains(s, pat) ==> r == s
    ensures |s| >= |pat| && s[..|pat|] == pat ==> |r| >= |repl| && r[..|repl|] == repl
    ensures |s| > 0 && !(|s| >= |pat| && s[..|pat|] == pat) ==> |r| > 0 && r[0] == s[0]
    decreases |s|
  {
    if |s| < |pat| then s
    else if s[..|pat|] == pat then repl + ReplaceAll(s[|pat|..], pat, repl)
    else [s[0]] + ReplaceAll(s[1..], pat, repl)
  }

  /** The replacement takes the first occurrence of `pat`: text before it
      is kept, the occurrence becomes `repl`, and the rest is replaced in
      turn. "First" means no occurrence starts inside `a`, not even one
      running into `pat`. */
  lemma {:induction false} ReplaceAllAtFirstMatch(a: string, pat: string, b: string, repl: string)
    requires |pat| > 0
    requires forall i :: 0 <= i < |a| ==> !OccursAt(a + pat, pat, i)
    ensures ReplaceAll(a + pat + b, pat, repl) == a + repl + ReplaceAll(b, pat, repl)
    decreases |a|
  {
    if |a| == 0 {
      assert a + pat + b == pat + b;
      ReplaceAllAtMatch(pat, b, repl);
    } else {
      var tail := ReplaceAll(b, pat, repl);
      NoMatchBeforeShifts(a, pat);
      ReplaceAllAtFirstMatch(a[1..], pat, b, repl);
      assert ReplaceAll(a[1..] + pat + b, pat, repl) == a[1..] + repl + tail;
      ReplaceAllKeepsFirst(a, pat, b, repl);
      assert ReplaceAll(a + pat + b, pat, repl) == [a[0]] + (a[1..] + repl + tail);
      ConsThenRest(a, repl, tail);
    }
  }

  lemma ConsThenRest(a: string, r: string, t: string)
    requires |a| > 0
    ensures [a[0]] + (a[1..] + r + t) == a + r + t
  {
    assert [a[0]] + a[1..] == a;
  }

  /** A match at the front becomes the replacement. */
  lemma ReplaceAllAtMatch(pat: string, b: string, repl: string)
    requires |pat| > 0
    ensures ReplaceAll(pat + b, pat, repl) == repl + ReplaceAll(b, pat, repl)
  {
    var s := pat + b;
    assert s[..|pat|] == pat && s[|pat|..] == b;
  }

  /** A first character of `a` that does not start an occurrence is kept. */
  lemma ReplaceAllKeepsFirst(a: string, pat: string, b: string, repl: string)
    requires |pat| > 0 && |a| > 0
    requires !OccursAt(a + pat, pat, 0)
    ensures ReplaceAll(a + pat + b, pat, repl) == [a[0]] + ReplaceAll(a[1..] + pat + b, pat, repl)
  {
    var s := a + pat + b;
    assert s[..|pat|] == (a + pat)[..|pat|];
    assert s[1..] == a[1..] + pat + b;
  }

  /** No occurrence inside `a` means none inside `a` without its first
      character. */
  lemma NoMatchBeforeShifts(a: string, pat: string)
    requires |a| > 0
    requires forall i :: 0 <= i < |a| ==> !OccursAt(a + pat, pat, i)
    ensures forall i :: 0 <= i < |a| - 1 ==> !OccursAt(a[1..] + pat, pat, i)
  {
    forall i | 0 <= i < |a| - 1 ensures !OccursAt(a[1..] + pat, pat, i) {
      assert !OccursAt(a + pat, pat, i + 1);
      assert (a[1..] + pat)[i..i + |pat|] == (a + pat)[i + 1..i + 1 + |pat|];
    }
  }
}
