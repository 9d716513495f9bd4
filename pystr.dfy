/**
 * The few operations of Python's `str` type that the report builder relies
 * on: `s.split(sep)` with an explicit, non-empty separator, `sep.join(parts)`
 * and `s.strip()` with no argument.
 */
module PyStr {
  import opened Wrappers

  /** `sep` occurs in `s` starting at index `j`. */
  predicate Occurs(s: string, sep: string, j: nat) {
    j + |sep| <= |s| && s[j..j + |sep|] == sep
  }

  /** `sep` occurs somewhere in `s`. */
  ghost predicate Contains(s: string, sep: string) {
    exists j: nat :: Occurs(s, sep, j)
  }

  /**
   * The leftmost occurrence of `sep` in `s` at or after index `from`, as
   * `s.find(sep, from)` returns it (None standing for -1).
   */
  function IndexOf(s: string, sep: string, from: nat): (r: Option<nat>)
    requires |sep| > 0
    ensures r.Some? ==> from <= r.value && r.value + |sep| <= |s|
    decreases |s| - from
  {
    if from + |sep| > |s| then None
    else if s[from..from + |sep|] == sep then Some(from)
    else IndexOf(s, sep, from + 1)
  }

  /**
   * What `IndexOf` finds is an occurrence, and there is none between `from`
   * and it; when it finds nothing, there is none at or after `from`.
   */
  lemma {:induction false} IndexOfIsLeftmost(s: string, sep: string, from: nat)
    requires |sep| > 0
    ensures var r := IndexOf(s, sep, from);
      (r.Some? ==> Occurs(s, sep, r.value))
      && forall j: nat :: from <= j && (r.None? || j < r.value) ==> !Occurs(s, sep, j)
    decreases |s| - from
  {
    if from + |sep| <= |s| && s[from..from + |sep|] != sep {
      IndexOfIsLeftmost(s, sep, from + 1);
    }
  }

  /** What `IndexOf` finds is an occurrence. */
  lemma IndexOfOccurs(s: string, sep: string, from: nat)
    requires |sep| > 0
    ensures IndexOf(s, sep, from).Some? ==> Occurs(s, sep, IndexOf(s, sep, from).value)
  {
    IndexOfIsLeftmost(s, sep, from);
  }

  /** An occurrence with none before it, from `from` on, is what `IndexOf` finds. */
  lemma IndexOfFinds(s: string, sep: string, from: nat, k: nat)
    requires |sep| > 0 && from <= k && Occurs(s, sep, k)
    requires forall j: nat :: from <= j < k ==> !Occurs(s, sep, j)
    ensures IndexOf(s, sep, from) == Some(k)
  {
    IndexOfIsLeftmost(s, sep, from);
  }

  /** Where the segment that starts at `from` ends: at the next `sep`, or at the end of `s`. */
  function SegmentEnd(s: string, sep: string, from: nat): (e: nat)
    requires |sep| > 0 && from <= |s|
    ensures from <= e <= |s|
  {
    match IndexOf(s, sep, from)
    case None => |s|
    case Some(k) => k
  }

  /** A segment ends at a separator or at the end of the string, and holds no separator start before that. */
  lemma SegmentEndIsNextSeparator(s: string, sep: string, from: nat)
    requires |sep| > 0 && from <= |s|
    ensures var e := SegmentEnd(s, sep, from);
      (e < |s| ==> Occurs(s, sep, e)) && forall j: nat :: from <= j < e ==> !Occurs(s, sep, j)
  {
    IndexOfIsLeftmost(s, sep, from);
  }

  /**
   * The pieces of `s` from index `from` on, cut at every occurrence of
   * `sep`: the scan resumes after each separator found, so occurrences never
   * overlap.
   */
  function SplitFrom(s: string, sep: string, from: nat): (parts: seq<string>)
    requires |sep| > 0 && from <= |s|
    ensures |parts| >= 1
    decreases |s| - from
  {
    match IndexOf(s, sep, from)
    case None => [s[from..]]
    case Some(k) => [s[from..k]] + SplitFrom(s, sep, k + |sep|)
  }

  /** `s.split(sep)`. */
  function Split(s: string, sep: string): (parts: seq<string>)
    requires |sep| > 0
    ensures |parts| >= 1
  {
    SplitFrom(s, sep, 0)
  }

  /** `sep.join(parts)`. */
  function Join(parts: seq<string>, sep: string): string {
    if |parts| == 0 then ""
    else if |parts| == 1 then parts[0]
    else parts[0] + sep + Join(parts[1..], sep)
  }

  /** Joining the pieces from `from` on with the same separator gives back that part of the string. */
  lemma {:induction false} JoinSplitFrom(s: string, sep: string, from: nat)
    requires |sep| > 0 && from <= |s|
    ensures Join(SplitFrom(s, sep, from), sep) == s[from..]
    decreases |s| - from
  {
    match IndexOf(s, sep, from)
    case None =>
      SplitFromLast(s, sep, from);
    case Some(k) =>
      var tail := SplitFrom(s, sep, k + |sep|);
      calc {
        Join(SplitFrom(s, sep, from), sep);
      == { SplitFromNext(s, sep, from, k); }
        Join([s[from..k]] + tail, sep);
      == { JoinCons(s[from..k], tail, sep); }
        s[from..k] + sep + Join(tail, sep);
      == { JoinSplitFrom(s, sep, k + |sep|); }
        s[from..k] + sep + s[k + |sep|..];
      == { IndexOfOccurs(s, sep, from); SliceAround(s, sep, from, k); }
        s[from..];
      }
  }

  /** Joining a first part onto at least one more. */
  lemma JoinCons(first: string, tail: seq<string>, sep: string)
    requires |tail| >= 1
    ensures Join([first] + tail, sep) == first + sep + Join(tail, sep)
  {
    assert ([first] + tail)[1..] == tail;
  }

  /** A string from `from` on is the text before an occurrence at `k`, the separator, and the rest. */
  lemma SliceAround(s: string, sep: string, from: nat, k: nat)
    requires from <= k && Occurs(s, sep, k)
    ensures s[from..] == s[from..k] + sep + s[k + |sep|..]
  {
    assert s[from..] == s[from..k] + s[k..k + |sep|] + s[k + |sep|..];
  }

  /** Joining the pieces of a split with the same separator gives back the string. */
  lemma JoinSplit(s: string, sep: string)
    requires |sep| > 0
    ensures Join(Split(s, sep), sep) == s
  {
    JoinSplitFrom(s, sep, 0);
    assert s[0..] == s;
  }

  /** An occurrence inside a slice is an occurrence in the whole string. */
  lemma OccursInSlice(s: string, sep: string, a: nat, b: nat, p: nat)
    requires a <= b <= |s| && Occurs(s[a..b], sep, p)
    ensures Occurs(s, sep, a + p)
  {
    forall k | 0 <= k < |sep| ensures s[a + p + k] == sep[k] {
      assert s[a..b][p..p + |sep|][k] == sep[k];
    }
    assert s[a + p..a + p + |sep|] == sep;
  }

  /** No piece from `from` on contains the separator. */
  lemma {:induction false} SplitFromPiecesAreFree(s: string, sep: string, from: nat)
    requires |sep| > 0 && from <= |s|
    ensures forall i :: 0 <= i < |SplitFrom(s, sep, from)| ==> !Contains(SplitFrom(s, sep, from)[i], sep)
    decreases |s| - from
  {
    IndexOfIsLeftmost(s, sep, from);
    match IndexOf(s, sep, from)
    case None =>
      assert s[from..] == s[from..|s|];
      forall p: nat | Occurs(s[from..], sep, p) ensures false {
        OccursInSlice(s, sep, from, |s|, p);
      }
      assert !Contains(s[from..], sep);
    case Some(k) =>
      SplitFromPiecesAreFree(s, sep, k + |sep|);
      forall p: nat | Occurs(s[from..k], sep, p) ensures false {
        OccursInSlice(s, sep, from, k, p);
      }
      assert !Contains(s[from..k], sep);
      assert SplitFrom(s, sep, from) == [s[from..k]] + SplitFrom(s, sep, k + |sep|);
  }

  /** No piece of a split contains the separator. */
  lemma SplitPiecesAreFree(s: string, sep: string)
    requires |sep| > 0
    ensures forall i :: 0 <= i < |Split(s, sep)| ==> !Contains(Split(s, sep)[i], sep)
  {
    SplitFromPiecesAreFree(s, sep, 0);
  }

  /**
   * Where piece `n` of the split from `from` on starts: right after the
   * `n`-th separator found scanning from `from` to the right, each search
   * resuming after the previous separator. None when there are fewer than
   * `n` separators.
   */
  function PieceStart(s: string, sep: string, from: nat, n: nat): (r: Option<nat>)
    requires |sep| > 0 && from <= |s|
    ensures r.Some? ==> from <= r.value <= |s|
    decreases n
  {
    if n == 0 then Some(from)
    else match IndexOf(s, sep, from)
      case None => None
      case Some(k) => PieceStart(s, sep, k + |sep|, n - 1)
  }

  /** The first piece from `from` on ends at the next separator, or at the end of the string. */
  lemma FirstPieceFrom(s: string, sep: string, from: nat)
    requires |sep| > 0 && from <= |s|
    ensures SplitFrom(s, sep, from)[0] == s[from..SegmentEnd(s, sep, from)]
  {
  }

  /** With no separator left, the split from `from` on is the rest of the string. */
  lemma SplitFromLast(s: string, sep: string, from: nat)
    requires |sep| > 0 && from <= |s| && IndexOf(s, sep, from) == None
    ensures SplitFrom(s, sep, from) == [s[from..]]
  {
  }

  /** Past the first separator found, the pieces are those of the rest of the string. */
  lemma SplitFromNext(s: string, sep: string, from: nat, k: nat)
    requires |sep| > 0 && from <= |s| && IndexOf(s, sep, from) == Some(k)
    ensures SplitFrom(s, sep, from) == [s[from..k]] + SplitFrom(s, sep, k + |sep|)
  {
  }

  /**
   * Piece `n` of the split from `from` on exists exactly when it has a
   * start, and then it runs from that start to the next separator or to the
   * end of the string.
   */
  ghost predicate PieceAt(s: string, sep: string, from: nat, n: nat)
    requires |sep| > 0 && from <= |s|
  {
    match PieceStart(s, sep, from, n)
      case None => |SplitFrom(s, sep, from)| <= n
      case Some(p) =>
        n < |SplitFrom(s, sep, from)| && SplitFrom(s, sep, from)[n] == s[p..SegmentEnd(s, sep, p)]
  }

  /** Shifting a piece index by one across the first piece. */
  lemma PieceShift(parts: seq<string>, rest: seq<string>, first: string, n: nat)
    requires parts == [first] + rest && n > 0
    ensures |parts| <= n <==> |rest| <= n - 1
    ensures n < |parts| ==> parts[n] == rest[n - 1]
  {
  }

  /** One step of the induction behind `PieceOfSplitFrom`. */
  lemma PieceStep(s: string, sep: string, from: nat, n: nat, k: nat)
    requires |sep| > 0 && from <= |s| && n > 0
    requires IndexOf(s, sep, from) == Some(k)
    requires PieceAt(s, sep, k + |sep|, n - 1)
    ensures PieceAt(s, sep, from, n)
  {
    SplitFromNext(s, sep, from, k);
    PieceShift(SplitFrom(s, sep, from), SplitFrom(s, sep, k + |sep|), s[from..k], n);
    assert PieceStart(s, sep, from, n) == PieceStart(s, sep, k + |sep|, n - 1);
  }

  /** Piece 0 starts where the split starts. */
  lemma PieceZero(s: string, sep: string, from: nat)
    requires |sep| > 0 && from <= |s|
    ensures PieceAt(s, sep, from, 0)
  {
    FirstPieceFrom(s, sep, from);
  }

  /** With no separator left there is only one piece. */
  lemma PieceBeyondLast(s: string, sep: string, from: nat, n: nat)
    requires |sep| > 0 && from <= |s| && n > 0
    requires IndexOf(s, sep, from) == None
    ensures PieceAt(s, sep, from, n)
  {
    assert |SplitFrom(s, sep, from)| == 1;
  }

  /** Every piece of a split is where `PieceStart` says it is. */
  lemma {:induction false} PieceOfSplitFrom(s: string, sep: string, from: nat, n: nat)
    requires |sep| > 0 && from <= |s|
    ensures PieceAt(s, sep, from, n)
    decreases n
  {
    if n == 0 {
      PieceZero(s, sep, from);
    } else {
      var r := IndexOf(s, sep, from);
      if r.None? {
        PieceBeyondLast(s, sep, from, n);
      } else {
        var k := r.value;
        assert k + |sep| <= |s|;
        PieceOfSplitFrom(s, sep, k + |sep|, n - 1);
        PieceStep(s, sep, from, n, k);
      }
    }
  }

  /** Piece `n` of `s.split(sep)`, located by `PieceStart`. */
  lemma PieceOfSplit(s: string, sep: string, n: nat)
    requires |sep| > 0
    ensures match PieceStart(s, sep, 0, n)
      case None => |Split(s, sep)| <= n
      case Some(p) => n < |Split(s, sep)| && Split(s, sep)[n] == s[p..SegmentEnd(s, sep, p)]
  {
    PieceOfSplitFrom(s, sep, 0, n);
  }

  /** `b` is the suffix of `s` that starts at index `d`. */
  predicate SuffixAt(s: string, b: string, d: nat) {
    |s| == d + |b| && forall t :: 0 <= t < |b| ==> s[d + t] == b[t]
  }

  /** What follows index `d` is the suffix at `d`. */
  lemma SuffixAtDrop(s: string, d: nat)
    requires d <= |s|
    ensures SuffixAt(s, s[d..], d)
  {
  }

  /** A slice of `s` past offset `d` is the same slice of the suffix `b` that starts there. */
  lemma SliceAfterOffset(s: string, b: string, d: nat, i: nat, j: nat)
    requires SuffixAt(s, b, d) && i <= j <= |b|
    ensures s[d + i..d + j] == b[i..j]
  {
    forall t | 0 <= t < j - i ensures s[d + i..d + j][t] == b[i..j][t] {
      assert s[d + i + t] == b[i + t];
    }
  }

  /** Searching `s` from `d + m` finds what searching its suffix `b` from `m` finds, shifted by `d`. */
  lemma {:induction false} IndexOfAfterOffset(s: string, b: string, d: nat, sep: string, i: nat, m: nat)
    requires |sep| > 0 && SuffixAt(s, b, d) && i == d + m
    ensures IndexOf(s, sep, i)
         == match IndexOf(b, sep, m) case None => None case Some(k) => Some(d + k)
    decreases |b| - m
  {
    if m + |sep| <= |b| {
      SliceAfterOffset(s, b, d, m, m + |sep|);
      if b[m..m + |sep|] != sep {
        IndexOfAfterOffset(s, b, d, sep, i + 1, m + 1);
      }
    }
  }

  /** Splitting `s` from `d + m` gives the pieces of its suffix `b` from `m`. */
  lemma {:induction false} SplitFromAfterOffset(s: string, b: string, d: nat, sep: string, i: nat, m: nat)
    requires |sep| > 0 && SuffixAt(s, b, d) && m <= |b| && i == d + m
    ensures SplitFrom(s, sep, i) == SplitFrom(b, sep, m)
    decreases |b| - m
  {
    IndexOfAfterOffset(s, b, d, sep, i, m);
    match IndexOf(b, sep, m)
    case None =>
      SliceAfterOffset(s, b, d, m, |b|);
      assert s[i..] == b[m..] by {
        assert s[i..] == s[i..|s|] && b[m..] == b[m..|b|];
      }
      SplitFromLast(s, sep, i);
      SplitFromLast(b, sep, m);
    case Some(k) =>
      assert IndexOf(s, sep, i) == Some(d + k);
      SplitFromAfterOffset(s, b, d, sep, d + k + |sep|, k + |sep|);
      SliceAfterOffset(s, b, d, m, k);
      SplitFromMatch(s, b, sep, i, m, d + k, k);
  }

  /** Two splits agree when their first pieces agree and so does what follows the separators that end them. */
  lemma SplitFromMatch(s: string, t: string, sep: string, i: nat, j: nat, ks: nat, kt: nat)
    requires |sep| > 0 && i <= |s| && j <= |t|
    requires IndexOf(s, sep, i) == Some(ks) && IndexOf(t, sep, j) == Some(kt)
    requires s[i..ks] == t[j..kt]
    requires SplitFrom(s, sep, ks + |sep|) == SplitFrom(t, sep, kt + |sep|)
    ensures SplitFrom(s, sep, i) == SplitFrom(t, sep, j)
  {
    SplitFromNext(s, sep, i, ks);
    SplitFromNext(t, sep, j, kt);
  }

  /** Splitting from index `d` on gives the pieces of the suffix that starts there. */
  lemma SplitFromAfterDrop(s: string, sep: string, d: nat)
    requires |sep| > 0 && d <= |s|
    ensures SplitFrom(s, sep, d) == Split(s[d..], sep)
  {
    SuffixAtDrop(s, d);
    SplitFromAfterOffset(s, s[d..], d, sep, d, 0);
  }

  /** The split of a string whose first separator is at `k`: the text before it, then the pieces after it. */
  lemma SplitAfterFirst(s: string, sep: string, k: nat)
    requires |sep| > 0 && IndexOf(s, sep, 0) == Some(k)
    ensures Split(s, sep) == [s[0..k]] + Split(s[k + |sep|..], sep)
  {
    calc {
      Split(s, sep);
    ==
      SplitFrom(s, sep, 0);
    == { SplitFromNext(s, sep, 0, k); }
      [s[0..k]] + SplitFrom(s, sep, k + |sep|);
    == { SplitFromAfterDrop(s, sep, k + |sep|); }
      [s[0..k]] + Split(s[k + |sep|..], sep);
    }
  }

  /** The first and last of three concatenated strings, sliced back out. */
  lemma ThreeParts(a: string, sep: string, b: string)
    ensures (a + sep + b)[0..|a|] == a && (a + sep + b)[|a| + |sep|..] == b
  {
  }

  /** A one-character separator that does not occur in `a` is first found right after `a`. */
  lemma FirstCharSeparator(a: string, c: char, b: string)
    requires c !in a
    ensures IndexOf(a + [c] + b, [c], 0) == Some(|a|)
  {
    var s := a + [c] + b;
    assert Occurs(s, [c], |a|) by { assert s[|a|..|a| + 1] == [c]; }
    forall j: nat | j < |a| ensures !Occurs(s, [c], j) {
      assert s[j..j + 1] == [a[j]];
    }
    IndexOfFinds(s, [c], 0, |a|);
  }

  /** The characters Python 3's `str.isspace()` accepts: those `strip()` removes by default. */
  const Whitespace: set<char> := {
    '\t', '\n', '\U{0B}', '\U{0C}', '\r', '\U{1C}', '\U{1D}', '\U{1E}', '\U{1F}', ' ',
    '\U{85}', '\U{A0}', '\U{1680}', '\U{2000}', '\U{2001}', '\U{2002}', '\U{2003}',
    '\U{2004}', '\U{2005}', '\U{2006}', '\U{2007}', '\U{2008}', '\U{2009}', '\U{200A}',
    '\U{2028}', '\U{2029}', '\U{202F}', '\U{205F}', '\U{3000}'
  }

  /** The first index at or after `i` whose character is not in `chars`, or `|s|`. */
  function FirstKept(s: string, chars: set<char>, i: nat): (k: nat)
    requires i <= |s|
    ensures i <= k <= |s|
    ensures forall t :: i <= t < k ==> s[t] in chars
    ensures k < |s| ==> s[k] !in chars
    decreases |s| - i
  {
    if i < |s| && s[i] in chars then FirstKept(s, chars, i + 1) else i
  }

  /** Scanning down from `j`: the end of the last character before `j` not in `chars`, or 0. */
  function LastKeptEnd(s: string, chars: set<char>, j: nat): (e: nat)
    requires j <= |s|
    ensures e <= j
    ensures forall t :: e <= t < j ==> s[t] in chars
    ensures e > 0 ==> s[e - 1] !in chars
    decreases j
  {
    if j > 0 && s[j - 1] in chars then LastKeptEnd(s, chars, j - 1) else j
  }

  /**
   * `s.strip(chars)`: the infix of `s` left once `chars` are removed from
   * both ends. It starts at `FirstKept(s, chars, 0)`; everything before and
   * after it is in `chars`, and it neither starts nor ends with one of them.
   */
  function StripChars(s: string, chars: set<char>): (r: string)
    ensures var a := FirstKept(s, chars, 0);
      a + |r| <= |s| && r == s[a..a + |r|]
      && (forall i :: 0 <= i < a ==> s[i] in chars)
      && (forall i :: a + |r| <= i < |s| ==> s[i] in chars)
    ensures r == [] || (r[0] !in chars && r[|r| - 1] !in chars)
  {
    var a := FirstKept(s, chars, 0);
    var b := LastKeptEnd(s, chars, |s|);
    if a < b then s[a..b] else []
  }

  /** `s.strip()`: whitespace removed from both ends. */
  function Strip(s: string): string {
    StripChars(s, Whitespace)
  }

  /**
   * What `strip(chars)` leaves is the only infix of `s` surrounded by
   * `chars` that is empty or starts and ends outside `chars`.
   */
  lemma StripCharsUnique(s: string, chars: set<char>, a: nat, b: nat)
    requires a <= b <= |s|
    requires forall i :: 0 <= i < a ==> s[i] in chars
    requires forall i :: b <= i < |s| ==> s[i] in chars
    requires a == b || (s[a] !in chars && s[b - 1] !in chars)
    ensures StripChars(s, chars) == s[a..b]
  {
    var r := StripChars(s, chars);
    var a' := FirstKept(s, chars, 0);
    if a < b {
      assert s[a] !in chars && s[b - 1] !in chars;
      assert r != [];
      assert s[a'] == r[0] && s[a' + |r| - 1] == r[|r| - 1];
      assert a' == a && a' + |r| == b;
    } else {
      assert forall i :: 0 <= i < |s| ==> s[i] in chars;
      assert r == [];
    }
  }

  /** A string that starts and ends outside `chars` but for one final character in `chars` loses just that one. */
  lemma StripCharsDropsLast(s: string, chars: set<char>)
    requires |s| >= 2 && s[0] !in chars && s[|s| - 2] !in chars && s[|s| - 1] in chars
    ensures StripChars(s, chars) == s[..|s| - 1]
  {
    StripCharsUnique(s, chars, 0, |s| - 1);
    assert s[0..|s| - 1] == s[..|s| - 1];
  }

  /** A stripped character appended to a string makes no difference once it is stripped. */
  lemma StripCharsIgnoresTrailing(s: string, chars: set<char>, c: char)
    requires c in chars
    ensures StripChars(s + [c], chars) == StripChars(s, chars)
  {
    var r := StripChars(s, chars);
    var a := FirstKept(s, chars, 0);
    var t := s + [c];
    forall i | 0 <= i < a ensures t[i] in chars {
      assert t[i] == s[i];
    }
    forall i | a + |r| <= i < |t| ensures t[i] in chars {
      if i < |s| { assert t[i] == s[i]; }
    }
    assert r != [] ==> t[a] == r[0] && t[a + |r| - 1] == r[|r| - 1];
    StripCharsUnique(t, chars, a, a + |r|);
    assert t[a..a + |r|] == r;
  }
}
