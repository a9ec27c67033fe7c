/**
 * The parts of Go's `strings` package that columnize calls (Split,
 * TrimSpace and Contains), over strings of single-width characters,
 * together with Index and Count, which Split is built on, and Join, the
 * inverse of Split, there to state the round trip.
 */
module GoStrings {
  import opened Wrappers

  /** `t` occurs in `s` starting at index `i`. */
  predicate OccursAt(s: string, t: string, i: nat) {
    i + |t| <= |s| && s[i..i + |t|] == t
  }

  /** An occurrence in `s[1..]` is an occurrence in `s`, one index later. */
  lemma OccursShift(s: string, t: string, i: nat)
    requires |s| > 0
    ensures OccursAt(s[1..], t, i) <==> OccursAt(s, t, i + 1)
  {
    if i + 1 + |t| <= |s| {
      assert s[1..][i..i + |t|] == s[i + 1..i + 1 + |t|];
    }
  }

  /** An occurrence inside a prefix of `s` is an occurrence in `s`. */
  lemma OccursInPrefix(s: string, t: string, n: nat, i: nat)
    requires n <= |s| && OccursAt(s[..n], t, i)
    ensures OccursAt(s, t, i)
  {
    assert s[..n][i..i + |t|] == s[i..i + |t|];
  }

  /** The leftmost occurrence of `t` in `s` at index `from` or later, if there is one. */
  function IndexFrom(s: string, t: string, from: nat): (r: Option<nat>)
    ensures r.Some? ==> from <= r.value && OccursAt(s, t, r.value)
    ensures r.Some? ==> forall j :: from <= j < r.value ==> !OccursAt(s, t, j)
    ensures r.None? ==> forall j :: from <= j <= |s| ==> !OccursAt(s, t, j)
    decreases |s| - from
  {
    if from + |t| > |s| then None
    else if OccursAt(s, t, from) then Some(from)
    else IndexFrom(s, t, from + 1)
  }

  /** strings.Index: the leftmost occurrence of `t` in `s`, if there is one. */
  function Index(s: string, t: string): (r: Option<nat>)
    ensures r.Some? ==> OccursAt(s, t, r.value)
    ensures r.Some? ==> forall j :: 0 <= j < r.value ==> !OccursAt(s, t, j)
    ensures r.None? ==> forall j :: 0 <= j <= |s| ==> !OccursAt(s, t, j)
  {
    IndexFrom(s, t, 0)
  }

  /** strings.Contains. */
  predicate Contains(s: string, t: string) {
    Index(s, t).Some?
  }

  /** `t` is contained in `s` exactly when it occurs at some index of `s`. */
  lemma ContainsOccurs(s: string, t: string)
    ensures Contains(s, t) <==> exists i: nat :: OccursAt(s, t, i)
  {
    if Contains(s, t) {
      assert OccursAt(s, t, Index(s, t).value);
    }
  }

  /** strings.Count: the number of non-overlapping occurrences of `t`, taken leftmost first. */
  function Count(s: string, t: string): nat
    requires t != ""
    decreases |s|
  {
    if |s| < |t| then 0
    else if s[..|t|] == t then 1 + Count(s[|t|..], t)
    else Count(s[1..], t)
  }

  /**
   * The occurrences Count counts do not overlap, so they take no more room
   * than `s` has; and Count is zero exactly when `t` does not occur in `s`.
   */
  lemma {:induction false} CountOccurrences(s: string, t: string)
    requires t != ""
    ensures Count(s, t) * |t| <= |s|
    ensures Count(s, t) == 0 <==> !Contains(s, t)
    decreases |s|
  {
    if |s| < |t| {
      assert !Contains(s, t);
    } else if s[..|t|] == t {
      CountOccurrences(s[|t|..], t);
      MulStep(Count(s[|t|..], t), |t|);
      assert OccursAt(s, t, 0);
    } else {
      CountOccurrences(s[1..], t);
      CountShift(s, t);
    }
  }

  /** One more occurrence takes `n` more characters. */
  lemma MulStep(c: nat, n: nat)
    ensures (1 + c) * n == n + c * n
  {
  }

  /** When `t` does not start `s`, it occurs in `s` exactly when it occurs in `s[1..]`. */
  lemma CountShift(s: string, t: string)
    requires |t| <= |s| && s[..|t|] != t
    ensures Contains(s, t) <==> Contains(s[1..], t)
  {
    ContainsOccurs(s, t);
    ContainsOccurs(s[1..], t);
    if Contains(s, t) {
      var i: nat :| OccursAt(s, t, i);
      assert i != 0;
      OccursShift(s, t, i - 1);
    }
    if Contains(s[1..], t) {
      var i: nat :| OccursAt(s[1..], t, i);
      OccursShift(s, t, i);
    }
  }

  /** strings.Split for a non-empty separator. */
  function Split(s: string, sep: string): (parts: seq<string>)
    requires sep != ""
    ensures |parts| >= 1
    decreases |s|
  {
    match Index(s, sep)
    case None => [s]
    case Some(i) => [s[..i]] + Split(s[i + |sep|..], sep)
  }

  /** strings.Join. */
  function Join(parts: seq<string>, sep: string): string {
    if |parts| == 0 then ""
    else if |parts| == 1 then parts[0]
    else parts[0] + sep + Join(parts[1..], sep)
  }

  /** Joining a non-empty list behind a first part puts the separator between them. */
  lemma JoinCons(p: string, ps: seq<string>, sep: string)
    requires |ps| >= 1
    ensures Join([p] + ps, sep) == p + sep + Join(ps, sep)
  {
    assert ([p] + ps)[1..] == ps;
  }

  /** Joining one more part appends the separator and that part. */
  lemma {:induction false} JoinSnoc(ps: seq<string>, p: string, sep: string)
    requires |ps| >= 1
    ensures Join(ps + [p], sep) == Join(ps, sep) + sep + p
    decreases |ps|
  {
    if |ps| == 1 {
      assert (ps + [p])[1..] == [p];
    } else {
      assert (ps + [p])[1..] == ps[1..] + [p];
      JoinSnoc(ps[1..], p, sep);
    }
  }

  /** A string is the concatenation of its three slices around two cut points. */
  lemma Slices3(s: string, a: nat, b: nat)
    requires a <= b <= |s|
    ensures s[..a] + s[a..b] + s[b..] == s
  {
  }

  /** Joining the pieces of a split with the same separator gives the original string back. */
  lemma {:induction false} SplitJoin(s: string, sep: string)
    requires sep != ""
    ensures Join(Split(s, sep), sep) == s
    decreases |s|
  {
    match Index(s, sep)
    case None =>
    case Some(i) =>
      var rest := s[i + |sep|..];
      calc {
        Join(Split(s, sep), sep);
        Join([s[..i]] + Split(rest, sep), sep);
        { JoinCons(s[..i], Split(rest, sep), sep); }
        s[..i] + sep + Join(Split(rest, sep), sep);
        { SplitJoin(rest, sep); }
        s[..i] + s[i..i + |sep|] + rest;
        { Slices3(s, i, i + |sep|); }
        s;
      }
  }

  /** No piece of a split contains the separator. */
  lemma {:induction false} SplitPiecesFree(s: string, sep: string)
    requires sep != ""
    ensures forall p :: p in Split(s, sep) ==> !Contains(p, sep)
    decreases |s|
  {
    match Index(s, sep)
    case None =>
    case Some(i) =>
      var rest := s[i + |sep|..];
      SplitPiecesFree(rest, sep);
      if Contains(s[..i], sep) {
        var j := Index(s[..i], sep).value;
        OccursInPrefix(s, sep, i, j);
        assert false;
      }
  }

  /** With no occurrence before index `i`, counting may start at `i`. */
  lemma {:induction false} CountSkip(s: string, t: string, i: nat)
    requires t != "" && i <= |s|
    requires forall j :: 0 <= j < i ==> !OccursAt(s, t, j)
    ensures Count(s, t) == Count(s[i..], t)
    decreases i
  {
    if i > 0 && |s| >= |t| {
      assert !OccursAt(s, t, 0);
      assert s[..|t|] != t;
      forall j | 0 <= j < i - 1
        ensures !OccursAt(s[1..], t, j)
      {
        OccursShift(s, t, j);
      }
      CountSkip(s[1..], t, i - 1);
      assert s[1..][i - 1..] == s[i..];
    } else if i > 0 {
      assert |s[i..]| < |t|;
    }
  }

  /** A split yields one more piece than there are non-overlapping separators. */
  lemma {:induction false} SplitCount(s: string, sep: string)
    requires sep != ""
    ensures |Split(s, sep)| == Count(s, sep) + 1
    decreases |s|
  {
    match Index(s, sep)
    case None =>
      CountSkip(s, sep, |s|);
      assert s[|s|..] == [];
    case Some(i) =>
      var rest := s[i + |sep|..];
      SplitCount(rest, sep);
      CountSkip(s, sep, i);
      var u := s[i..];
      assert u[..|sep|] == sep;
      assert u[|sep|..] == rest;
  }

  /**
   * Split cuts at the leftmost occurrence: a line without the separator is
   * one piece; otherwise the first piece runs up to the first occurrence of
   * the separator, and the other pieces are the split of what follows it.
   * Together with SplitJoin this fixes the pieces even for a separator that
   * overlaps itself.
   */
  lemma SplitLeftmost(s: string, sep: string)
    requires sep != ""
    ensures |Split(s, sep)| == 1 <==> !Contains(s, sep)
    ensures |Split(s, sep)| > 1 ==> var i := |Split(s, sep)[0]|;
      && OccursAt(s, sep, i)
      && (forall j :: 0 <= j < i ==> !OccursAt(s, sep, j))
      && Split(s, sep)[1..] == Split(s[i + |sep|..], sep)
  {
    match Index(s, sep)
    case None =>
      assert Split(s, sep) == [s];
    case Some(i) =>
      var rest := Split(s[i + |sep|..], sep);
      assert Split(s, sep) == [s[..i]] + rest;
      assert ([s[..i]] + rest)[1..] == rest;
  }

  /** The characters strings.TrimSpace removes, restricted to ASCII. */
  predicate IsSpace(c: char) {
    c == ' ' || c == '\t' || c == '\n' || c == '\r' || c == '\U{B}' || c == '\U{C}'
  }

  /** Neither end of `s` is whitespace. */
  predicate IsTrimmed(s: string) {
    s == [] || (!IsSpace(s[0]) && !IsSpace(s[|s| - 1]))
  }

  /** The index of the first non-whitespace character of `s` at or after `i` (or `|s|`). */
  function SkipSpace(s: string, i: nat): (k: nat)
    requires i <= |s|
    ensures i <= k <= |s|
    ensures forall j :: i <= j < k ==> IsSpace(s[j])
    ensures k < |s| ==> !IsSpace(s[k])
    decreases |s| - i
  {
    if i < |s| && IsSpace(s[i]) then SkipSpace(s, i + 1) else i
  }

  /** The end of `s[lo..hi]` once its trailing whitespace is dropped. */
  function SkipSpaceBack(s: string, lo: nat, hi: nat): (k: nat)
    requires lo <= hi <= |s|
    ensures lo <= k <= hi
    ensures forall j :: k <= j < hi ==> IsSpace(s[j])
    ensures lo < k ==> !IsSpace(s[k - 1])
    decreases hi
  {
    if lo < hi && IsSpace(s[hi - 1]) then SkipSpaceBack(s, lo, hi - 1) else hi
  }

  /**
   * strings.TrimSpace: the result is `s` with its whitespace margins removed,
   * and neither of its ends is whitespace.
   */
  function TrimSpace(s: string): (r: string)
    ensures IsTrimmed(r)
    ensures var a := SkipSpace(s, 0);
      a + |r| <= |s| && r == s[a..a + |r|]
      && (forall j :: 0 <= j < a ==> IsSpace(s[j]))
      && (forall j :: a + |r| <= j < |s| ==> IsSpace(s[j]))
  {
    var a := SkipSpace(s, 0);
    var b := SkipSpaceBack(s, a, |s|);
    s[a..b]
  }

  /** A string without whitespace margins is its own TrimSpace, so trimming twice changes nothing more. */
  lemma TrimSpaceFixed(s: string)
    requires IsTrimmed(s)
    ensures TrimSpace(s) == s
  {
    if s != [] {
      assert SkipSpace(s, 0) == 0;
      assert SkipSpaceBack(s, 0, |s|) == |s|;
    }
    assert s[0..|s|] == s;
  }

  /** TrimSpace is idempotent. */
  lemma TrimSpaceIdempotent(s: string)
    ensures TrimSpace(TrimSpace(s)) == TrimSpace(s)
  {
    TrimSpaceFixed(TrimSpace(s));
  }
}
