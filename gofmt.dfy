/**
 * The subset of Go's `fmt.Sprintf` that columnize uses. A format is kept as
 * a list of directives rather than as text: a literal run of characters,
 * the verb `%-Ns` (left-justify the argument in a field of N characters) and
 * the verb `%s` (the argument as it is).
 */
module GoFmt {

  datatype Directive = Literal(text: string) | Padded(width: nat) | Verb

  /** The number of arguments a format consumes. */
  function Verbs(f: seq<Directive>): nat {
    if f == [] then 0
    else (if f[0].Literal? then 0 else 1) + Verbs(f[1..])
  }

  lemma {:induction false} VerbsAppend(f: seq<Directive>, g: seq<Directive>)
    ensures Verbs(f + g) == Verbs(f) + Verbs(g)
    decreases |f|
  {
    if f != [] {
      assert (f + g)[1..] == f[1..] + g;
      VerbsAppend(f[1..], g);
    } else {
      assert f + g == g;
    }
  }

  function Spaces(n: nat): (r: string)
    ensures |r| == n && forall i :: 0 <= i < n ==> r[i] == ' '
  {
    seq(n, _ => ' ')
  }

  /**
   * The `%-Ns` verb: `s` followed by enough spaces to make it `n` characters
   * long; a longer `s` is never truncated.
   */
  function PadRight(s: string, n: nat): (r: string)
    ensures |r| == if |s| < n then n else |s|
    ensures r[..|s|] == s
    ensures forall i :: |s| <= i < |r| ==> r[i] == ' '
  {
    if |s| < n then s + Spaces(n - |s|) else s
  }

  /** The total length of the literal text of a format. */
  function TextLen(f: seq<Directive>): nat {
    if f == [] then 0
    else (if f[0].Literal? then |f[0].text| else 0) + TextLen(f[1..])
  }

  /** The total length of a list of arguments. */
  function ArgsLen(args: seq<string>): nat {
    if args == [] then 0 else |args[0]| + ArgsLen(args[1..])
  }

  /** fmt.Sprintf with exactly as many arguments as the format has verbs. */
  function Sprintf(f: seq<Directive>, args: seq<string>): string
    requires Verbs(f) == |args|
    decreases |f|
  {
    if f == [] then ""
    else match f[0]
      case Literal(t) => t + Sprintf(f[1..], args)
      case Padded(n) => PadRight(args[0], n) + Sprintf(f[1..], args[1..])
      case Verb => args[0] + Sprintf(f[1..], args[1..])
  }

  /** A format without a `%-Ns` verb. */
  predicate Unpadded(f: seq<Directive>) {
    forall k :: 0 <= k < |f| ==> !f[k].Padded?
  }

  /**
   * Sprintf never cuts anything: the output is at least as long as the
   * literal text and the arguments together, and exactly that long when no
   * verb pads.
   */
  lemma {:induction false} SprintfLength(f: seq<Directive>, args: seq<string>)
    requires Verbs(f) == |args|
    ensures |Sprintf(f, args)| >= TextLen(f) + ArgsLen(args)
    ensures Unpadded(f) ==> |Sprintf(f, args)| == TextLen(f) + ArgsLen(args)
    decreases |f|
  {
    if f != [] {
      if f[0].Literal? {
        SprintfLength(f[1..], args);
      } else {
        SprintfLength(f[1..], args[1..]);
      }
      if Unpadded(f) {
        assert Unpadded(f[1..]) by {
          forall k | 0 <= k < |f| - 1
            ensures !f[1..][k].Padded?
          {
            assert f[1..][k] == f[k + 1];
          }
        }
      }
    }
  }

  /** A verb followed by a literal consumes one argument. */
  lemma VerbsPair(d: Directive, t: string)
    requires !d.Literal?
    ensures Verbs([d, Literal(t)]) == 1
  {
    assert [d, Literal(t)][1..] == [Literal(t)];
    assert Verbs([Literal(t)]) == 0 by {
      assert [Literal(t)][1..] == [];
    }
  }

  /** A verb followed by a literal renders its argument and then the literal. */
  lemma SprintfPair(d: Directive, t: string, e: string)
    requires !d.Literal?
    ensures Verbs([d, Literal(t)]) == 1
    ensures Sprintf([d, Literal(t)], [e]) == (if d.Verb? then e else PadRight(e, d.width)) + t
  {
    VerbsPair(d, t);
    assert [d, Literal(t)][1..] == [Literal(t)];
    assert Sprintf([Literal(t)], []) == t by {
      assert [Literal(t)][1..] == [];
    }
    assert [e][1..] == [];
  }

  /** Rendering a concatenated format renders each part with its own arguments. */
  lemma {:induction false} SprintfAppend(f: seq<Directive>, g: seq<Directive>, a: seq<string>, b: seq<string>)
    requires Verbs(f) == |a| && Verbs(g) == |b|
    ensures Verbs(f + g) == |a + b|
    ensures Sprintf(f + g, a + b) == Sprintf(f, a) + Sprintf(g, b)
    decreases |f|
  {
    VerbsAppend(f, g);
    if f == [] {
      assert f + g == g && a + b == b;
    } else {
      assert (f + g)[1..] == f[1..] + g;
      VerbsAppend(f[1..], g);
      if f[0].Literal? {
        SprintfAppend(f[1..], g, a, b);
      } else {
        assert (a + b)[1..] == a[1..] + b;
        SprintfAppend(f[1..], g, a[1..], b);
      }
    }
  }
}
