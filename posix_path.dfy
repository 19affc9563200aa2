/** `os.path.basename` and `os.path.splitext` as the POSIX flavour of Python's
    `os.path` computes them: `/` separates components and `.` starts an extension.
    Lemmas marked `{:induction false}` that do not recurse carry it to keep
    Dafny's automatic induction out of their proofs, which only call other lemmas. */
module PosixPath {
  import opened PyStr

  /** `s.rfind(c)`: the index of the last `c` in `s`, or -1 when there is none. */
  function RFind(s: string, c: char): (r: int)
    ensures -1 <= r < |s|
    ensures r >= 0 ==> s[r] == c
    ensures forall i :: r < i < |s| ==> s[i] != c
    decreases |s|
  {
    if s == [] then -1
    else if s[|s| - 1] == c then |s| - 1
    else RFind(s[..|s| - 1], c)
  }

  /** `os.path.basename(p)`: everything after the last `/`. */
  function Basename(p: string): (b: string)
    ensures EndsWith(p, b)
    ensures forall i :: 0 <= i < |b| ==> b[i] != '/'
    ensures |b| < |p| ==> p[|p| - |b| - 1] == '/'
  {
    p[RFind(p, '/') + 1..]
  }

  predicate AllDots(s: string) {
    forall i :: 0 <= i < |s| ==> s[i] == '.'
  }

  /** `ext` is the extension of the final component `b`: a suffix of `b` that
      starts at its last dot, with some non-dot character in front of that dot. */
  predicate IsExtensionOf(ext: string, b: string) {
    |ext| > 0 && EndsWith(b, ext) && ext[0] == '.'
    && (forall i :: 1 <= i < |ext| ==> ext[i] != '.')
    && (exists j :: 0 <= j < |b| - |ext| && b[j] != '.')
  }

  /** Every dot of the final component `b` has only dots in front of it
      (`.bashrc`, `..x`, `Makefile`): `b` has no extension. */
  predicate HasNoExtension(b: string) {
    forall i, j :: 0 <= j < i < |b| && b[i] == '.' ==> b[j] == '.'
  }

  /** `os.path.splitext(p)`: the pair (root, ext). `SplitExtSpec` says
      what the extension is. */
  function SplitExt(p: string): (r: (string, string))
    ensures r.0 + r.1 == p
  {
    var sep := RFind(p, '/');
    var dot := RFind(p, '.');
    if dot > sep && !AllDots(p[sep + 1..dot]) then
      SlicesJoin(p, dot);
      (p[..dot], p[dot..])
    else
      (p, "")
  }

  lemma SlicesJoin(p: string, k: int)
    requires 0 <= k <= |p|
    ensures p[..k] + p[k..] == p
  {
  }

  /** A non-empty extension is a suffix of the final component that starts at
      its last dot, after a non-dot character; an empty one means that the
      final component has only dots in front of each of its dots. */
  lemma SplitExtSpec(p: string)
    ensures SplitExt(p).1 != "" ==> IsExtensionOf(SplitExt(p).1, Basename(p))
    ensures SplitExt(p).1 == "" ==> HasNoExtension(Basename(p))
  {
    var sep := RFind(p, '/');
    var dot := RFind(p, '.');
    if dot > sep && !AllDots(p[sep + 1..dot]) {
      ExtensionAtLastDot(p, sep, dot);
      assert Basename(p) == p[sep + 1..];
      assert SplitExt(p).1 == p[dot..];
    } else {
      NoExtensionWithoutLastDot(p, sep, dot);
      assert SplitExt(p).1 == "";
    }
  }

  lemma ExtensionAtLastDot(p: string, sep: int, dot: int)
    requires -1 <= sep < dot < |p| && p[dot] == '.'
    requires forall i :: dot < i < |p| ==> p[i] != '.'
    requires !AllDots(p[sep + 1..dot])
    ensures IsExtensionOf(p[dot..], p[sep + 1..])
  {
    var b, d := p[sep + 1..], dot - sep - 1;
    assert p[dot..] == b[d..] && p[sep + 1..dot] == b[..d];
    forall i | d < i < |b| ensures b[i] != '.' {
      assert b[i] == p[sep + 1 + i];
    }
    LastDotExtension(b, d);
  }

  /** A dot with no dot after it and a non-dot character somewhere before it
      starts the extension. */
  lemma LastDotExtension(b: string, d: int)
    requires 0 <= d < |b| && b[d] == '.'
    requires forall i :: d < i < |b| ==> b[i] != '.'
    requires !AllDots(b[..d])
    ensures IsExtensionOf(b[d..], b)
  {
    var j :| 0 <= j < d && b[..d][j] != '.';
    assert b[j] != '.';
  }

  lemma NoExtensionWithoutLastDot(p: string, sep: int, dot: int)
    requires sep == RFind(p, '/') && dot == RFind(p, '.')
    requires !(dot > sep && !AllDots(p[sep + 1..dot]))
    ensures HasNoExtension(Basename(p))
  {
    var b := p[sep + 1..];
    forall i, j | 0 <= j < i < |b| && b[i] == '.' ensures b[j] == '.' {
      assert p[sep + 1 + i] == '.';
      assert p[sep + 1..dot][j] == b[j];
    }
  }

  /** The extension of a final component is unique, and a component with one
      is not one without: the contract of `SplitExt` determines its result. */
  lemma {:induction false} ExtensionUnique(e1: string, e2: string, b: string)
    requires IsExtensionOf(e1, b)
    ensures IsExtensionOf(e2, b) ==> e1 == e2
    ensures !HasNoExtension(b)
  {
    var k := |b| - |e1|;
    assert b[k] == '.';
  }

  lemma BasenameIdempotent(p: string)
    ensures Basename(Basename(p)) == Basename(p)
  {
    var b := Basename(p);
    assert RFind(b, '/') == -1;
  }

  /** The extension depends on the final component only. */
  lemma {:induction false} ExtensionOfFinalComponent(p: string, q: string)
    requires Basename(p) == Basename(q)
    ensures SplitExt(p).1 == SplitExt(q).1
  {
    var b, e, f := Basename(p), SplitExt(p).1, SplitExt(q).1;
    SplitExtSpec(p);
    SplitExtSpec(q);
    if e != "" {
      ExtensionUnique(e, f, b);
    } else if f != "" {
      ExtensionUnique(f, e, b);
    }
  }

  /** `os.path.splitext(os.path.basename(p))[1] == os.path.splitext(p)[1]` */
  lemma ExtensionOfBasename(p: string)
    ensures SplitExt(Basename(p)).1 == SplitExt(p).1
  {
    BasenameIdempotent(p);
    ExtensionOfFinalComponent(Basename(p), p);
  }

  /** Whatever meets the contract of `SplitExt` is its extension. */
  lemma {:induction false} ExtensionIs(p: string, e: string)
    requires IsExtensionOf(e, Basename(p))
    ensures SplitExt(p).1 == e
  {
    var x := SplitExt(p).1;
    SplitExtSpec(p);
    if x == "" {
      ExtensionUnique(e, x, Basename(p));
    } else {
      ExtensionUnique(x, e, Basename(p));
    }
  }

  lemma {:induction false} NoExtensionIs(p: string)
    requires HasNoExtension(Basename(p))
    ensures SplitExt(p).1 == ""
  {
    var x := SplitExt(p).1;
    SplitExtSpec(p);
    if x != "" {
      ExtensionUnique(x, x, Basename(p));
    }
  }

  /** Lower-casing a path leaves its `/` and `.` where they are, so it moves neither the
      final component nor the extension: it lower-cases both. */
  lemma RFindLower(s: string, c: char)
    requires Caseless(c)
    ensures RFind(Lower(s), c) == RFind(s, c)
  {
    var r, t := RFind(s, c), RFind(Lower(s), c);
    if r >= 0 { LowerKeepsCaseless(s[r], c); }
    if t >= 0 { LowerKeepsCaseless(s[t], c); }
  }

  lemma BasenameLower(p: string)
    ensures Basename(Lower(p)) == Lower(Basename(p))
  {
    RFindLower(p, '/');
    LowerSlice(p, RFind(p, '/') + 1, |p|);
  }

  lemma {:induction false} IsExtensionOfLower(e: string, b: string)
    requires IsExtensionOf(e, b)
    ensures IsExtensionOf(Lower(e), Lower(b))
  {
    var k := |b| - |e|;
    LowerSlice(b, k, |b|);
    var j :| 0 <= j < k && b[j] != '.';
    LowerKeepsCaseless(b[j], '.');
    forall i | 1 <= i < |e| ensures Lower(e)[i] != '.' {
      LowerKeepsCaseless(e[i], '.');
    }
  }

  lemma {:induction false} HasNoExtensionLower(b: string)
    requires HasNoExtension(b)
    ensures HasNoExtension(Lower(b))
  {
    forall i, j | 0 <= j < i < |b| && Lower(b)[i] == '.' ensures Lower(b)[j] == '.' {
      LowerKeepsCaseless(b[i], '.');
      LowerKeepsCaseless(b[j], '.');
    }
  }

  /** `os.path.splitext(p.lower())[1] == os.path.splitext(p)[1].lower()` */
  lemma {:induction false} ExtensionLower(p: string)
    ensures SplitExt(Lower(p)).1 == Lower(SplitExt(p).1)
  {
    var e, f := SplitExt(p).1, SplitExt(Lower(p)).1;
    var b := Basename(p);
    SplitExtSpec(p);
    SplitExtSpec(Lower(p));
    BasenameLower(p);
    if e != "" {
      IsExtensionOfLower(e, b);
      ExtensionUnique(Lower(e), f, Lower(b));
    } else {
      HasNoExtensionLower(b);
      if f != "" {
        ExtensionUnique(f, e, Lower(b));
      }
    }
  }
}
