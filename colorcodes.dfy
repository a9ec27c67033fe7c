/**
 * Terminal colour codes: ANSI SGR escape sequences, matched by the pattern
 * ESC `[` (one or more characters other than `m`) `m`, and their removal so
 * that column widths count only the characters a terminal shows.
 */
module ColorCodes {
  import opened Wrappers
  import GoStrings

  const ESC: char := '\U{1B}'

  /** The opening marker ESC `[` of every colour code. */
  const Marker: string := [ESC, '[']

  /** The `n` characters of `s` from index `i` are one whole match of the colour-code pattern. */
  predicate CodeAt(s: string, i: nat, n: nat) {
    && 4 <= n && i + n <= |s|
    && s[i] == ESC && s[i + 1] == '['
    && s[i + n - 1] == 'm'
    && forall k :: i + 2 <= k < i + n - 1 ==> s[k] != 'm'
  }

  /** `t` is one whole match of the colour-code pattern. */
  predicate IsColorCode(t: string) {
    CodeAt(t, 0, |t|)
  }

  /**
   * Runs the pattern over `s` from index `i`, having accepted the characters
   * from `i` up to `j`: ESC, then `[`, then at least one character other
   * than `m`, then the first `m`. The result is the index just past the
   * match, if the pattern matches at `i`.
   */
  function CodeEnd(s: string, i: nat, j: nat): (r: Option<nat>)
    requires i <= j <= |s|
    ensures r.Some? ==> i + 4 <= r.value <= |s|
    decreases |s| - j
  {
    if j == |s| then None
    else if j == i then (if s[j] == ESC then CodeEnd(s, i, j + 1) else None)
    else if j == i + 1 then (if s[j] == '[' then CodeEnd(s, i, j + 1) else None)
    else if s[j] == 'm' then (if j == i + 2 then None else Some(j + 1))
    else CodeEnd(s, i, j + 1)
  }

  /** Past the fixed prefix, the pattern ends at the first `m`, and fails only without one. */
  lemma {:induction false} CodeEndFirstM(s: string, i: nat, j: nat)
    requires i + 3 <= j <= |s|
    ensures CodeEnd(s, i, j).Some? ==> var e := CodeEnd(s, i, j).value;
      j < e && s[e - 1] == 'm' && forall k :: j <= k < e - 1 ==> s[k] != 'm'
    ensures CodeEnd(s, i, j).None? ==> forall k :: j <= k < |s| ==> s[k] != 'm'
    decreases |s| - j
  {
    if j < |s| && s[j] != 'm' {
      CodeEndFirstM(s, i, j + 1);
    }
  }

  /** The length of the colour code that starts at index `i` of `s`, if one does. */
  function MatchAt(s: string, i: nat): (r: Option<nat>)
    requires i <= |s|
    ensures r.Some? ==> 4 <= r.value && i + r.value <= |s|
  {
    match CodeEnd(s, i, i)
    case Some(e) => Some(e - i)
    case None => None
  }

  /**
   * MatchAt finds every match and nothing else: the pattern matches the `n`
   * characters from `i` exactly when MatchAt reports that length. There is
   * at most one such length, because the pattern's middle run stops at the
   * first `m`.
   */
  lemma MatchAtExact(s: string, i: nat, n: nat)
    requires i <= |s|
    ensures CodeAt(s, i, n) <==> MatchAt(s, i) == Some(n)
  {
    if i + 3 <= |s| && s[i] == ESC && s[i + 1] == '[' {
      assert CodeEnd(s, i, i) == CodeEnd(s, i, i + 2) by {
        assert CodeEnd(s, i, i) == CodeEnd(s, i, i + 1);
      }
      if s[i + 2] == 'm' {
        assert CodeEnd(s, i, i + 2) == None;
      } else {
        assert CodeEnd(s, i, i + 2) == CodeEnd(s, i, i + 3);
        CodeEndFirstM(s, i, i + 3);
      }
    } else if i + 1 < |s| && s[i] == ESC {
      assert CodeEnd(s, i, i) == CodeEnd(s, i, i + 1);
    }
  }

  /**
   * The stand-in for replacing every match of the colour-code pattern with
   * the empty string, applied to `s[i..]`: scanning left to right, a colour
   * code that starts at the current index is skipped whole (leftmost match,
   * no overlap); any other character is kept.
   */
  function StripFrom(s: string, i: nat): (r: string)
    requires i <= |s|
    ensures |r| <= |s| - i
    decreases |s| - i
  {
    if i == |s| then ""
    else match MatchAt(s, i)
      case Some(n) => StripFrom(s, i + n)
      case None => [s[i]] + StripFrom(s, i + 1)
  }

  /** The total length of the colour codes StripFrom skips. */
  function SkippedFrom(s: string, i: nat): nat
    requires i <= |s|
    decreases |s| - i
  {
    if i == |s| then 0
    else match MatchAt(s, i)
      case Some(n) => n + SkippedFrom(s, i + n)
      case None => SkippedFrom(s, i + 1)
  }

  /** Every character is either kept or part of a skipped colour code. */
  lemma {:induction false} StripFromLength(s: string, i: nat)
    requires i <= |s|
    ensures |StripFrom(s, i)| + SkippedFrom(s, i) == |s| - i
    decreases |s| - i
  {
    if i < |s| {
      StripFromLength(s, i + (if MatchAt(s, i).Some? then MatchAt(s, i).value else 1));
    }
  }

  /** re.ReplaceAllString(s, "") for the colour-code pattern. */
  function ReplaceColorCodes(s: string): (r: string)
    ensures |r| + SkippedFrom(s, 0) == |s|
  {
    StripFromLength(s, 0);
    StripFrom(s, 0)
  }

  /** containsColorCode: `s` holds the opening marker ESC `[` somewhere. */
  predicate ContainsColorCode(s: string) {
    GoStrings.Contains(s, Marker)
  }

  /**
   * removeColorCode: the visible text of `s`. The pattern is only applied
   * when the marker is present; otherwise `s` is returned as it is.
   */
  function RemoveColorCode(s: string): (r: string)
    ensures |r| <= |s|
    ensures !ContainsColorCode(s) ==> r == s
  {
    if ContainsColorCode(s) then ReplaceColorCodes(s) else s
  }

  /** colorCodeLen: how many characters of `s` are invisible. */
  function ColorCodeLen(s: string): (n: nat)
    ensures n + |RemoveColorCode(s)| == |s|
  {
    |s| - |RemoveColorCode(s)|
  }

  /** Every colour code begins with the marker. */
  lemma MatchAtMarker(s: string, i: nat)
    requires i <= |s|
    ensures MatchAt(s, i).Some? ==> GoStrings.OccursAt(s, Marker, i)
  {
    if MatchAt(s, i).Some? {
      MatchAtExact(s, i, MatchAt(s, i).value);
      assert s[i..i + 2] == Marker;
    }
  }

  /**
   * containsColorCode holds exactly when the marker occurs somewhere in `s`;
   * when it does not hold, the pattern matches nowhere in `s`.
   */
  lemma ContainsColorCodeExact(s: string)
    ensures ContainsColorCode(s) <==> exists i: nat :: GoStrings.OccursAt(s, Marker, i)
    ensures !ContainsColorCode(s) ==> forall i :: 0 <= i <= |s| ==> MatchAt(s, i).None?
  {
    GoStrings.ContainsOccurs(s, Marker);
    if !ContainsColorCode(s) {
      forall i | 0 <= i <= |s|
        ensures MatchAt(s, i).None?
      {
        MatchAtMarker(s, i);
      }
    }
  }

  /** Where no marker starts at or after `i`, nothing is skipped. */
  lemma {:induction false} StripWithoutMarker(s: string, i: nat)
    requires i <= |s|
    requires forall j :: i <= j <= |s| ==> !GoStrings.OccursAt(s, Marker, j)
    ensures StripFrom(s, i) == s[i..] && SkippedFrom(s, i) == 0
    decreases |s| - i
  {
    if i < |s| {
      MatchAtMarker(s, i);
      StripWithoutMarker(s, i + 1);
      assert s[i..] == [s[i]] + s[i + 1..];
    }
  }

  /**
   * The marker test in removeColorCode only saves work: without the marker
   * the pattern matches nowhere, so the result is the replaced text either way.
   */
  lemma RemoveColorCodeIsReplace(s: string)
    ensures RemoveColorCode(s) == ReplaceColorCodes(s)
  {
    if !ContainsColorCode(s) {
      StripWithoutMarker(s, 0);
    }
  }

  /** colorCodeLen is the total length of the colour codes the pattern removes. */
  lemma ColorCodeLenIsSkipped(s: string)
    ensures ColorCodeLen(s) == SkippedFrom(s, 0)
  {
    RemoveColorCodeIsReplace(s);
  }

  /** No character of `t` can begin or end a colour code. */
  predicate Inert(t: string) {
    forall k :: 0 <= k < |t| ==> t[k] != ESC && t[k] != 'm'
  }

  /** Inside the inert tail of `s`, every character is kept. */
  lemma {:induction false} StripInertTail(s: string, from: nat, i: nat)
    requires from <= i <= |s| && Inert(s[from..])
    ensures StripFrom(s, i) == s[i..]
    decreases |s| - i
  {
    if i < |s| {
      assert s[from..][i - from] == s[i];
      StripInertTail(s, from, i + 1);
      assert s[i..] == [s[i]] + s[i + 1..];
    }
  }

  /** Inert characters after `e` neither complete nor extend a colour code starting in `e`. */
  lemma CodeAtAppend(e: string, t: string, i: nat, n: nat)
    requires i <= |e| && Inert(t)
    ensures CodeAt(e + t, i, n) <==> CodeAt(e, i, n)
  {
    var s := e + t;
    if i + n <= |e| {
      forall k | i <= k < i + n
        ensures s[k] == e[k]
      {
      }
    } else if 4 <= n && i + n <= |s| {
      assert s[i + n - 1] == t[i + n - 1 - |e|];
    }
  }

  /** A colour code that starts in `e` cannot be changed by inert characters after it. */
  lemma MatchAtAppend(e: string, t: string, i: nat)
    requires i <= |e| && Inert(t)
    ensures MatchAt(e + t, i) == MatchAt(e, i)
  {
    var s := e + t;
    var ns := if MatchAt(s, i).Some? then MatchAt(s, i).value else 0;
    var ne := if MatchAt(e, i).Some? then MatchAt(e, i).value else 0;
    MatchAtExact(s, i, ns);
    MatchAtExact(e, i, ns);
    CodeAtAppend(e, t, i, ns);
    MatchAtExact(s, i, ne);
    MatchAtExact(e, i, ne);
    CodeAtAppend(e, t, i, ne);
  }

  /**
   * Appending characters that can neither start nor finish a colour code
   * appends them to the visible text and changes nothing before them.
   */
  lemma {:induction false} StripAppendInert(e: string, t: string, i: nat)
    requires i <= |e| && Inert(t)
    ensures StripFrom(e + t, i) == StripFrom(e, i) + t
    decreases |e| - i
  {
    var s := e + t;
    if i == |e| {
      assert s[|e|..] == t;
      StripInertTail(s, |e|, |e|);
    } else {
      MatchAtAppend(e, t, i);
      match MatchAt(e, i)
      case Some(n) =>
        StripAppendInert(e, t, i + n);
      case None =>
        StripAppendInert(e, t, i + 1);
        calc {
          StripFrom(s, i);
          [s[i]] + StripFrom(s, i + 1);
          [e[i]] + (StripFrom(e, i + 1) + t);
          ([e[i]] + StripFrom(e, i + 1)) + t;
          StripFrom(e, i) + t;
        }
    }
  }

  /** Appending inert characters to `e` appends them to its visible text. */
  lemma RemoveColorCodeAppendInert(e: string, t: string)
    requires Inert(t)
    ensures RemoveColorCode(e + t) == RemoveColorCode(e) + t
  {
    RemoveColorCodeIsReplace(e);
    RemoveColorCodeIsReplace(e + t);
    StripAppendInert(e, t, 0);
  }

  /** A string without an escape character has no colour code: it is shown as it is. */
  lemma NoEscapePlain(s: string)
    requires forall k :: 0 <= k < |s| ==> s[k] != ESC
    ensures !ContainsColorCode(s)
    ensures RemoveColorCode(s) == s && ColorCodeLen(s) == 0
  {
    forall i | 0 <= i <= |s|
      ensures !GoStrings.OccursAt(s, Marker, i)
    {
      if i + 2 <= |s| {
        assert s[i..i + 2][0] == s[i];
      }
    }
  }
}
