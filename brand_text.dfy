/** The brand strings and the literal replace-all that rewrites one into the other.

    The script rewrites with a global regular expression built from the source
    brand, a pattern with no metacharacters, so the rewrite is a left-to-right,
    non-overlapping, case-sensitive literal replace-all; its guard is plain
    substring search. Both are modelled here as recursive functions on strings.
 */
module BrandText {

  /** The brand string the page is rewritten away from. */
  const Source: string := "Open WebUI"

  /** The brand string that replaces it. */
  const Target: string := "Canary Builds"

  /** `p` is a prefix of `s`. */
  predicate IsPrefix(p: string, s: string)
  {
    |p| <= |s| && s[..|p|] == p
  }

  /** `s.includes(p)`: some position of `s`, scanned from the left, starts a copy of `p`. */
  predicate Includes(s: string, p: string)
    decreases |s|
  {
    IsPrefix(p, s) || (s != [] && Includes(s[1..], p))
  }

  /** Reference definition of an occurrence of `p` in `s` at index `i`. */
  ghost predicate OccursAt(s: string, p: string, i: int)
  {
    0 <= i && i + |p| <= |s| && s[i..i + |p|] == p
  }

  /** The string after every occurrence of `Source` is replaced by `Target`,
      scanning left to right and resuming after each replaced occurrence. */
  function ReplaceAll(s: string): (r: string)
    ensures |r| >= |s|
    decreases |s|
  {
    if s == [] then []
    else if IsPrefix(Source, s) then Target + ReplaceAll(s[|Source|..])
    else [s[0]] + ReplaceAll(s[1..])
  }

  /** The recursive scan agrees with the positional definition of an occurrence. */
  lemma {:induction false} IncludesIffOccurs(s: string, p: string)
    ensures Includes(s, p) <==> exists i :: OccursAt(s, p, i)
    decreases |s|
  {
    if IsPrefix(p, s) {
      assert OccursAt(s, p, 0);
    } else if s != [] {
      IncludesIffOccurs(s[1..], p);
      if exists i :: OccursAt(s, p, i) {
        var i :| OccursAt(s, p, i);
        assert i != 0;
        assert s[1..][i - 1..i - 1 + |p|] == s[i..i + |p|];
        assert OccursAt(s[1..], p, i - 1);
      }
      if exists j :: OccursAt(s[1..], p, j) {
        var j :| OccursAt(s[1..], p, j);
        assert s[j + 1..j + 1 + |p|] == s[1..][j..j + |p|];
        assert OccursAt(s, p, j + 1);
      }
    }
  }

  /** A string that includes `p` is at least as long as `p`. */
  lemma {:induction false} IncludesLength(s: string, p: string)
    requires Includes(s, p)
    ensures |s| >= |p|
    decreases |s|
  {
    if !IsPrefix(p, s) {
      IncludesLength(s[1..], p);
    }
  }

  /** A prefix of the replaced string that avoids the first letter of `Target`
      was already a prefix of the original string. */
  lemma {:induction false} PrefixBeforeTarget(t: string, w: string)
    requires Target[0] !in w
    requires IsPrefix(w, ReplaceAll(t))
    ensures IsPrefix(w, t)
    decreases |t|
  {
    if w != [] && t != [] {
      assert w[0] == ReplaceAll(t)[0] && w[0] in w;
      if IsPrefix(Source, t) {
        assert false;
      } else {
        var rest := ReplaceAll(t[1..]);
        assert ReplaceAll(t) == [t[0]] + rest;
        assert w == ReplaceAll(t)[..|w|];
        assert |w| - 1 <= |rest|;
        assert w[1..] == rest[..|w| - 1];
        assert IsPrefix(w[1..], rest);
        PrefixBeforeTarget(t[1..], w[1..]);
        assert w == [t[0]] + w[1..];
        assert t[..|w|] == [t[0]] + t[1..][..|w| - 1];
      }
    }
  }

  /** Prepending text without the first letter of `Source` cannot create an occurrence. */
  lemma {:induction false} NoOccurrenceAcross(u: string, rest: string)
    requires Source[0] !in u
    requires !Includes(rest, Source)
    ensures !Includes(u + rest, Source)
    decreases |u|
  {
    if u == [] {
      assert u + rest == rest;
    } else {
      assert (u + rest)[0] == u[0];
      assert (u + rest)[1..] == u[1..] + rest;
      NoOccurrenceAcross(u[1..], rest);
    }
  }

  /** The target brand does not name the source brand. */
  lemma TargetNotSource(t: string)
    requires t == Target
    ensures !Includes(t, Source)
  {
    NoOccurrenceAcross(t, "");
    assert t + "" == t;
  }

  /** No residue: the replaced string contains no occurrence of `Source`.
      This rests on `Target` having no 'O' and `Source` having no 'C'. */
  lemma {:induction false} NoResidue(s: string)
    ensures !Includes(ReplaceAll(s), Source)
    decreases |s|
  {
    if s == [] {
    } else if IsPrefix(Source, s) {
      NoResidue(s[|Source|..]);
      NoOccurrenceAcross(Target, ReplaceAll(s[|Source|..]));
    } else {
      var rest := ReplaceAll(s[1..]);
      NoResidue(s[1..]);
      var r := [s[0]] + rest;
      assert r[1..] == rest;
      if IsPrefix(Source, r) {
        assert rest[..|Source| - 1] == Source[1..];
        PrefixBeforeTarget(s[1..], Source[1..]);
      }
    }
  }

  /** A string with no occurrence of `Source` is returned unchanged. */
  lemma {:induction false} ReplaceAllUnchanged(s: string)
    requires !Includes(s, Source)
    ensures ReplaceAll(s) == s
    decreases |s|
  {
    if s != [] {
      ReplaceAllUnchanged(s[1..]);
      assert s == [s[0]] + s[1..];
    }
  }

  /** Text without the first letter of `Source` is copied through unchanged,
      and the scan resumes right after it. */
  lemma {:induction false} ReplaceAllSkips(u: string, v: string)
    requires Source[0] !in u
    ensures ReplaceAll(u + v) == u + ReplaceAll(v)
    decreases |u|
  {
    if u == [] {
      assert u + v == v;
    } else {
      assert (u + v)[0] == u[0];
      assert (u + v)[1..] == u[1..] + v;
      assert u[0] in u;
      ReplaceAllSkips(u[1..], v);
      assert u == [u[0]] + u[1..];
    }
  }

  /** The first occurrence of `Source` becomes `Target`: what precedes it is
      kept, and the replace carries on with what follows it. */
  lemma ReplaceAllOccurrence(u: string, v: string)
    requires Source[0] !in u
    ensures ReplaceAll(u + Source + v) == u + Target + ReplaceAll(v)
  {
    assert u + Source + v == u + (Source + v);
    ReplaceAllSkips(u, Source + v);
    assert IsPrefix(Source, Source + v);
    assert (Source + v)[|Source|..] == v;
  }

  /** One step of the scan before the first occurrence: the leading letter of
      `u` does not start an occurrence, so it is copied through, and the rest
      of `u` still comes before the first occurrence. */
  lemma FirstStep(u: string, v: string)
    requires u != [] && !Includes(u + Source[..|Source| - 1], Source)
    ensures ReplaceAll(u + Source + v) == [u[0]] + ReplaceAll(u[1..] + Source + v)
    ensures !Includes(u[1..] + Source[..|Source| - 1], Source)
  {
    var s := u + Source + v;
    var w := u + Source[..|Source| - 1];
    assert s[..|Source|] == w[..|Source|];
    assert s[1..] == u[1..] + Source + v;
    assert w[1..] == u[1..] + Source[..|Source| - 1];
  }

  /** The first occurrence of `Source`, wherever it is: when `u` followed by
      all but the last letter of `Source` holds no occurrence, `u` is copied
      through verbatim (each of its letters, an 'O' included, fails to start
      one), the occurrence becomes `Target`, and the replace carries on with
      `v`. With `ReplaceAllUnchanged` this fixes the result on every input. */
  lemma {:induction false} ReplaceAllFirst(u: string, v: string)
    requires !Includes(u + Source[..|Source| - 1], Source)
    ensures ReplaceAll(u + Source + v) == u + Target + ReplaceAll(v)
    decreases |u|
  {
    if u == [] {
      assert u + Source + v == Source + v;
      ReplaceAllOccurrence(u, v);
    } else {
      FirstStep(u, v);
      ReplaceAllFirst(u[1..], v);
      var r := ReplaceAll(v);
      assert [u[0]] + (u[1..] + Target + r) == u + Target + r by {
        assert u == [u[0]] + u[1..];
      }
    }
  }

  /** Body text naming the brand at its end: "Welcome to Open WebUI" becomes
      "Welcome to Canary Builds". */
  lemma ReplaceAllWelcome(s: string, lead: string)
    requires lead == "Welcome to " && s == lead + Source
    ensures ReplaceAll(s) == lead + Target
  {
    assert s == lead + Source + [];
    ReplaceAllOccurrence(lead, []);
    assert lead + Target + [] == lead + Target;
  }

  /** A title naming the brand at its start: "Open WebUI - Settings" becomes
      "Canary Builds - Settings". */
  lemma ReplaceAllSettings(s: string, rest: string)
    requires rest == " - Settings" && s == Source + rest
    ensures ReplaceAll(s) == Target + rest
  {
    assert s == [] + Source + rest;
    ReplaceAllOccurrence([], rest);
    ReplaceAllSkips(rest, []);
    assert rest + [] == rest;
  }

  /** Replacing again returns the same string. */
  lemma ReplaceAllIdempotent(s: string)
    ensures ReplaceAll(ReplaceAll(s)) == ReplaceAll(s)
  {
    NoResidue(s);
    ReplaceAllUnchanged(ReplaceAll(s));
  }

  /** The replace changes its argument exactly when the argument includes `Source`,
      so a write guarded by the includes-check is never a no-op write. */
  lemma ReplaceAllChangesIff(s: string)
    ensures ReplaceAll(s) != s <==> Includes(s, Source)
  {
    NoResidue(s);
    if !Includes(s, Source) {
      ReplaceAllUnchanged(s);
    }
  }
}
