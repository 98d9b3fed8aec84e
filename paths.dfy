/**
 * The text form of archive paths, as ZipManager.js builds them with template
 * strings, and what can be said about collisions between them.
 */
module Paths {
  import opened History

  /** The decimal digit character for `d`. */
  function DigitChar(d: nat): (c: char)
    requires d < 10
    ensures '0' <= c <= '9'
  {
    ('0' as int + d) as char
  }

  /** Decimal notation of a natural number, most significant digit first, no leading zeros. */
  function NatToString(n: nat): (s: string)
    ensures 1 <= |s|
    ensures n >= 10 <==> 2 <= |s|
    ensures forall i :: 0 <= i < |s| ==> '0' <= s[i] <= '9'
  {
    if n < 10 then [DigitChar(n)] else NatToString(n / 10) + [DigitChar(n % 10)]
  }

  /** How a JavaScript template string renders an integer version. */
  function IntToString(i: int): (s: string)
    ensures 1 <= |s|
    ensures s[0] == '-' <==> i < 0
    ensures forall k :: 0 <= k < |s| ==> s[k] == '-' || '0' <= s[k] <= '9'
  {
    if i < 0 then "-" + NatToString(-i) else NatToString(i)
  }

  lemma {:induction false} NatToStringInjective(a: nat, b: nat)
    requires NatToString(a) == NatToString(b)
    ensures a == b
  {
    if a < 10 && b < 10 {
      assert NatToString(a)[0] == NatToString(b)[0];
    } else if a >= 10 && b >= 10 {
      var sa, sb := NatToString(a), NatToString(b);
      assert sa[|sa| - 1] == sb[|sb| - 1];
      assert sa[..|sa| - 1] == NatToString(a / 10);
      assert sb[..|sb| - 1] == NatToString(b / 10);
      NatToStringInjective(a / 10, b / 10);
    }
  }

  lemma IntToStringInjective(a: int, b: int)
    requires IntToString(a) == IntToString(b)
    ensures a == b
  {
    assert (a < 0) == (b < 0) by {
      assert IntToString(a)[0] == IntToString(b)[0];
    }
    if a < 0 {
      assert IntToString(a)[1..] == NatToString(-a);
      assert IntToString(b)[1..] == NatToString(-b);
      NatToStringInjective(-a, -b);
    } else {
      NatToStringInjective(a, b);
    }
  }

  /** The directory part of a document path below `<id>/`, slash included. */
  function Directory(p: Path): string
    requires !p.ManifestPath?
  {
    match p
    case EndPath(_, _) => "content/end/"
    case StartPath(_, _) => "content/start/"
    case UpdatePath(_, _) => "updates/"
  }

  /** A document path up to and including its last `/`. */
  function Head(p: Path): string
    requires !p.ManifestPath?
  {
    p.id + "/" + Directory(p)
  }

  /**
   * The path string ZipManager.js passes to `addBuffer`: the template strings
   * `${id}/content/end/${version}`, `${id}/content/start/${v}`,
   * `${id}/updates/${update.v}` and the literal `manifest.json`. A document
   * path starts with its id followed by `/`.
   */
  function Render(p: Path): (r: string)
    ensures !p.ManifestPath? ==> |p.id| < |r| && r[..|p.id|] == p.id && r[|p.id|] == '/'
  {
    if p.ManifestPath? then "manifest.json" else Head(p) + IntToString(p.v)
  }

  /** The length of the part of `w` after its last `/` (all of `w` when it has none). */
  function LastSegmentLength(w: string): (n: nat)
    ensures n <= |w|
    ensures forall i :: |w| - n <= i < |w| ==> w[i] != '/'
    ensures n < |w| ==> w[|w| - n - 1] == '/'
    decreases |w|
  {
    if w == [] || w[|w| - 1] == '/' then 0 else 1 + LastSegmentLength(w[..|w| - 1])
  }

  /** Text without a `/` appended after a `/` is exactly the last segment. */
  lemma LastSegmentOfJoin(s: string, t: string)
    requires 0 < |s| && s[|s| - 1] == '/'
    requires forall i :: 0 <= i < |t| ==> t[i] != '/'
    ensures LastSegmentLength(s + t) == |t|
  {
    var w := s + t;
    assert w[|s| - 1] == '/';
    assert forall i :: |s| <= i < |w| ==> w[i] == t[i - |s|];
  }

  /**
   * The last segment of a document path is its version; the manifest's name
   * has no `/`, so it is all last segment.
   */
  lemma LastSegmentOfRender(p: Path)
    ensures p.ManifestPath? ==> LastSegmentLength(Render(p)) == |Render(p)|
    ensures !p.ManifestPath? ==>
      && LastSegmentLength(Render(p)) == |IntToString(p.v)|
      && Render(p) == Head(p) + IntToString(p.v)
      && |IntToString(p.v)| < |Render(p)|
  {
    if p.ManifestPath? {
      var w := Render(p);
      assert forall i :: 0 <= i < |w| ==> w[i] != '/';
    } else {
      LastSegmentOfJoin(Head(p), IntToString(p.v));
    }
  }

  /**
   * The directory part is told apart by the letter before its closing `/`,
   * so two document paths with the same head have the same kind and id.
   */
  lemma HeadInjective(p: Path, q: Path)
    requires !p.ManifestPath? && !q.ManifestPath?
    requires Head(p) == Head(q)
    ensures p.id == q.id && p.EndPath? == q.EndPath? && p.StartPath? == q.StartPath?
  {
    var h := Head(p);
    assert h[|h| - 2] == Directory(p)[|Directory(p)| - 2];
    assert Head(q)[|h| - 2] == Directory(q)[|Directory(q)| - 2];
    assert Directory(p) == Directory(q);
    assert p.id == h[..|p.id|] && q.id == h[..|q.id|];
  }

  /**
   * Distinct archive paths render as distinct strings, whatever characters
   * the document ids contain: the part after the last `/` is the version,
   * the letter before that `/` is the kind, and what precedes the kind's
   * directory is the id. In particular no document path renders as
   * `manifest.json`.
   */
  lemma RenderInjective(p: Path, q: Path)
    requires Render(p) == Render(q)
    ensures p == q
  {
    LastSegmentOfRender(p);
    LastSegmentOfRender(q);
    if !p.ManifestPath? && !q.ManifestPath? {
      var w := Render(p);
      var n := |IntToString(p.v)|;
      assert IntToString(p.v) == w[|w| - n..] == IntToString(q.v);
      IntToStringInjective(p.v, q.v);
      assert Head(p) == w[..|w| - n] == Head(q);
      HeadInjective(p, q);
    }
  }
}
