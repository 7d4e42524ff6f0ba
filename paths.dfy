/**
 * POSIX path and ASCII case helpers used by the converter to name its
 * output file: `basename`, `splitext` and `join` with the semantics of
 * Python's `posixpath`, and the ASCII part of `str.lower` / `str.upper`.
 */
module Paths {

  const Sep: char := '/'
  const ExtSep: char := '.'

  /** Index of the last occurrence of `c` in `s`, or -1 (Python's `str.rfind`). */
  function RFind(s: string, c: char): (r: int)
    ensures -1 <= r < |s|
    ensures r >= 0 ==> s[r] == c
    ensures forall j :: r < j < |s| ==> s[j] != c
  {
    if s == [] then -1
    else if s[|s| - 1] == c then |s| - 1
    else RFind(s[..|s| - 1], c)
  }

  /** The final path component: everything after the last separator. */
  function Basename(p: string): (b: string)
    ensures Sep !in b
    ensures |b| <= |p| && p[|p| - |b|..] == b
    ensures |b| < |p| ==> p[|p| - |b| - 1] == Sep
  {
    p[RFind(p, Sep) + 1..]
  }

  predicate AllDots(s: string)
  {
    forall i :: 0 <= i < |s| ==> s[i] == ExtSep
  }

  /** No separator occurs in `p` at or after index `j`. */
  predicate InFinalComponent(p: string, j: int)
  {
    forall m :: 0 <= m < |p| && j <= m ==> p[m] != Sep
  }

  /**
   * `k` is a dot of the final component of `p` that may start an extension:
   * some character before it in that component is not a dot (so a leading
   * dot, as in ".profile", never starts one).
   */
  predicate ExtensionDot(p: string, k: int)
  {
    && 0 <= k < |p|
    && p[k] == ExtSep
    && exists j :: 0 <= j < k && p[j] != ExtSep && InFinalComponent(p, j)
  }

  lemma ExtensionDotWitness(p: string, sepIndex: int, dotIndex: int)
    requires -1 <= sepIndex < dotIndex < |p|
    requires p[dotIndex] == ExtSep
    requires forall j :: sepIndex < j < |p| ==> p[j] != Sep
    requires !AllDots(p[sepIndex + 1..dotIndex])
    ensures ExtensionDot(p, dotIndex)
  {
    var seg := p[sepIndex + 1..dotIndex];
    var i :| 0 <= i < |seg| && seg[i] != ExtSep;
    var j := sepIndex + 1 + i;
    assert p[j] == seg[i];
    assert InFinalComponent(p, j);
  }

  lemma NoExtensionDot(p: string, sepIndex: int, dotIndex: int, k: int)
    requires -1 <= sepIndex < |p| && -1 <= dotIndex < |p|
    requires sepIndex >= 0 ==> p[sepIndex] == Sep
    requires forall j :: dotIndex < j < |p| ==> p[j] != ExtSep
    requires dotIndex > sepIndex ==> AllDots(p[sepIndex + 1..dotIndex])
    ensures !ExtensionDot(p, k)
  {
    if 0 <= k < |p| && p[k] == ExtSep {
      assert k <= dotIndex;
      forall j | 0 <= j < k && p[j] != ExtSep ensures !InFinalComponent(p, j) {
        if j > sepIndex {
          assert false;
        }
        assert p[sepIndex] == Sep;
      }
    }
  }

  /**
   * Python's `posixpath.splitext`: split at the last dot of the final
   * component unless every character before that dot in the component is
   * a dot; otherwise the extension is empty.
   */
  function SplitExt(p: string): (r: (string, string))
    ensures r.0 + r.1 == p
    ensures r.1 != [] ==> ExtensionDot(p, |r.0|) && ExtSep !in r.1[1..]
    ensures r.1 == [] ==> forall k :: !ExtensionDot(p, k)
  {
    var sepIndex := RFind(p, Sep);
    var dotIndex := RFind(p, ExtSep);
    if dotIndex > sepIndex && !AllDots(p[sepIndex + 1..dotIndex]) then
      ExtensionDotWitness(p, sepIndex, dotIndex);
      assert p[..dotIndex] + p[dotIndex..] == p;
      (p[..dotIndex], p[dotIndex..])
    else
      assert forall k :: !ExtensionDot(p, k) by {
        forall k ensures !ExtensionDot(p, k) {
          NoExtensionDot(p, sepIndex, dotIndex, k);
        }
      }
      (p, [])
  }

  /** Python's `posixpath.join` of two components. */
  function Join(a: string, b: string): (r: string)
    ensures |r| >= |b| && r[|r| - |b|..] == b
    ensures |b| > 0 && b[0] == Sep ==> r == b
    ensures !(|b| > 0 && b[0] == Sep) && a == [] ==> r == b
    ensures !(|b| > 0 && b[0] == Sep) && a != [] ==>
              r[..|r| - |b|] == (if a[|a| - 1] == Sep then a else a + [Sep])
  {
    if |b| > 0 && b[0] == Sep then b
    else if a == [] || a[|a| - 1] == Sep then a + b
    else a + [Sep] + b
  }

  /** Joining a name that holds no separator puts that name last. */
  lemma JoinedBasename(a: string, b: string)
    requires Sep !in b
    ensures Basename(Join(a, b)) == b
  {
    var p := Join(a, b);
    assert |b| < |p| ==> p[|p| - |b| - 1] == Sep;
    BasenameIsUnique(p, b);
  }

  /** The base name is the only suffix without a separator that follows one (or is everything). */
  lemma BasenameIsUnique(p: string, b: string)
    requires Sep !in b && |b| <= |p| && p[|p| - |b|..] == b
    requires |b| < |p| ==> p[|p| - |b| - 1] == Sep
    ensures Basename(p) == b
  {
  }

  function LowerChar(c: char): char
  {
    if 'A' <= c <= 'Z' then (c as int + 32) as char else c
  }

  function UpperChar(c: char): char
  {
    if 'a' <= c <= 'z' then (c as int - 32) as char else c
  }

  /** ASCII `str.lower`. */
  function Lower(s: string): string
  {
    seq(|s|, i requires 0 <= i < |s| => LowerChar(s[i]))
  }

  /** ASCII `str.upper`. */
  function Upper(s: string): string
  {
    seq(|s|, i requires 0 <= i < |s| => UpperChar(s[i]))
  }

  predicate IsUpperWord(w: string)
  {
    forall i :: 0 <= i < |w| ==> 'A' <= w[i] <= 'Z'
  }

  /**
   * Case-insensitive comparison against an upper-case word can be made on
   * either side: upper-casing `s` gives `w` exactly when lower-casing `s`
   * gives the lower-case `w`.
   */
  lemma UpperMatchesIffLowerMatches(s: string, w: string)
    requires IsUpperWord(w)
    ensures Upper(s) == w <==> Lower(s) == Lower(w)
  {
    if Lower(s) == Lower(w) {
      assert |s| == |w|;
      forall i | 0 <= i < |s| ensures Upper(s)[i] == w[i] {
        assert Lower(s)[i] == Lower(w)[i];
      }
    }
    if Upper(s) == w {
      forall i | 0 <= i < |s| ensures Lower(s)[i] == Lower(w)[i] {
        assert UpperChar(s[i]) == w[i];
      }
    }
  }

  /** An upper-case word is its own upper-casing. */
  lemma UpperOfUpperWord(w: string)
    requires IsUpperWord(w)
    ensures Upper(w) == w
  {
  }
}
