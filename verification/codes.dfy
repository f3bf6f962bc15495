/** Hierarchical error codes: a local segment attached to an optional parent,
    the full dot-joined path rebuilt from the parent chain, validated
    construction of roots and children, and the ancestor search. */
module Codes {
  import opened Wrappers
  import opened DotPath

  /** A code: a root with its segment, or a segment attached to a parent code.
      The stored segment never includes the parent's path. */
  datatype Code = Root(segment: string) | Node(segment: string, parent: Code)

  /** Why constructing a code failed: the source panics with one of these. */
  datatype PathError =
    | ParentPathInRoot(codeStr: string)
    | WrongParentPath(got: string, expected: string, codeStr: string)

  /** The full path of a code: its ancestors' segments and its own, root first,
      joined with the separator. This is the code's identity for comparison,
      for registry keys and on the wire. */
  function CodeStr(c: Code): string
  {
    match c
    case Root(s) => s
    case Node(s, p) => CodeStr(p) + [Sep] + s
  }

  /** The stored segments from the root down to `c`. */
  function Segments(c: Code): (r: seq<string>)
    ensures |r| >= 1 && r[|r| - 1] == c.segment
  {
    match c
    case Root(s) => [s]
    case Node(s, p) => Segments(p) + [s]
  }

  /** `c` and then its ancestors, nearest first, ending at its root. */
  function Chain(c: Code): (r: seq<Code>)
    ensures |r| >= 1 && r[0] == c && r[|r| - 1] == Top(c)
  {
    match c
    case Root(_) => [c]
    case Node(_, p) => [c] + Chain(p)
  }

  /** The root of the hierarchy `c` belongs to. */
  function Top(c: Code): (r: Code)
    ensures r.Root?
  {
    match c
    case Root(_) => c
    case Node(_, p) => Top(p)
  }

  /** Every stored segment is free of the separator, as NewCode and Child guarantee. */
  predicate Valid(c: Code)
  {
    Sep !in c.segment && (c.Node? ==> Valid(c.parent))
  }

  /** checkCodePath: a code string with no separator is always accepted; with
      one, it is rejected on a root, and on a child it is accepted exactly when
      its second-to-last piece is the parent's stored segment. Pieces further
      left are not examined. */
  function CheckCodePath(c: Code): (r: Option<PathError>)
    ensures r.None? <==>
      (Sep !in c.segment || (c.Node? && ParentSegment(c.segment) == c.parent.segment))
  {
    SplitPieces(c.segment);
    var paths := Split(c.segment);
    if |paths| == 1 then None
    else if c.Root? then Some(ParentPathInRoot(c.segment))
    else if paths[|paths| - 2] != c.parent.segment then
      Some(WrongParentPath(paths[|paths| - 2], c.parent.segment, c.segment))
    else None
  }

  /** NewCode: a root code, refused when the segment contains the separator. */
  function NewCode(codeRep: string): (r: Result<Code, PathError>)
    ensures r.Success? <==> Sep !in codeRep
    ensures r.Success? ==> Valid(r.value) && CodeStr(r.value) == codeRep && Chain(r.value) == [r.value]
    ensures r.Failure? ==> r.error == ParentPathInRoot(codeRep)
  {
    var code := Root(codeRep);
    match CheckCodePath(code)
    case Some(e) => Failure(e)
    case None => Success(code)
  }

  /** Child: a code under `parent`. The string may be qualified with the parent's
      segment ("parent.local"); after validation only its last piece is stored. */
  function Child(parent: Code, childStr: string): (r: Result<Code, PathError>)
    ensures r.Success? <==> (Sep !in childStr || ParentSegment(childStr) == parent.segment)
    ensures r.Success? ==> r.value.Node? && r.value.parent == parent && r.value.segment == LastSegment(childStr)
    ensures r.Success? ==> CodeStr(r.value) == CodeStr(parent) + [Sep] + LastSegment(childStr)
    ensures r.Success? && Valid(parent) ==> Valid(r.value)
    ensures Sep !in childStr ==> r == Success(Node(childStr, parent))
    ensures r.Failure? ==>
      Sep in childStr && r.error == WrongParentPath(ParentSegment(childStr), parent.segment, childStr)
  {
    SplitPieces(childStr);
    var child := Node(childStr, parent);
    match CheckCodePath(child)
    case Some(e) => Failure(e)
    case None =>
      var paths := Split(childStr);
      Success(Node(paths[|paths| - 1], parent))
  }

  /** `i` is the first position on the chain of `c` whose code passes `test`. */
  ghost predicate FirstPassing(c: Code, test: Code -> bool, i: int)
  {
    0 <= i < |Chain(c)| && test(Chain(c)[i]) && forall j :: 0 <= j < i ==> !test(Chain(c)[j])
  }

  /** findAncestor: the nearest code on the chain from `c` up to its root that
      passes `test`, `c` itself included; None when none does. */
  function FindAncestor(c: Code, test: Code -> bool): (r: Option<Code>)
    ensures r.None? <==> forall i :: 0 <= i < |Chain(c)| ==> !test(Chain(c)[i])
    ensures forall i :: FirstPassing(c, test, i) ==> r == Some(Chain(c)[i])
  {
    if test(c) then
      assert test(Chain(c)[0]);
      Some(c)
    else match c
      case Root(_) => None
      case Node(_, p) =>
        FirstPassingInParent(c, test);
        FindAncestor(p, test)
  }

  /** Past a child that fails the test, the first passing position is one
      further than in its parent's chain. */
  lemma FirstPassingInParent(c: Code, test: Code -> bool)
    requires c.Node? && !test(c)
    ensures forall i :: 0 <= i < |Chain(c.parent)| ==> Chain(c.parent)[i] == Chain(c)[i + 1]
    ensures forall i :: FirstPassing(c, test, i) ==> i >= 1 && FirstPassing(c.parent, test, i - 1)
  {
    var p := c.parent;
    assert Chain(c) == [c] + Chain(p);
    forall i | FirstPassing(c, test, i)
      ensures i >= 1 && FirstPassing(p, test, i - 1)
    {
      assert i != 0;
      forall j | 0 <= j < i - 1
        ensures !test(Chain(p)[j])
      {
        assert Chain(p)[j] == Chain(c)[j + 1];
      }
    }
  }

  /** IsAncestor: `ancestor` is `c` itself or one of its ancestors. */
  function IsAncestor(c: Code, ancestor: Code): (r: bool)
    ensures r <==> ancestor in Chain(c)
  {
    FindAncestor(c, an => an == ancestor).Some?
  }

  // ---------------------------------------------------------------------------
  // Properties of the hierarchy

  /** A child built from a qualified string is the child built from its last piece. */
  lemma ChildQualified(parent: Code, local: string)
    requires Sep !in parent.segment && Sep !in local
    ensures Child(parent, parent.segment + [Sep] + local) == Child(parent, local)
    ensures Child(parent, local) == Success(Node(local, parent))
    ensures CodeStr(Child(parent, local).value) == CodeStr(parent) + [Sep] + local
  {
    QualifiedSegments(parent.segment, local);
  }

  /** A qualified string naming some other parent segment is refused. */
  lemma ChildWrongParent(parent: Code, other: string, local: string)
    requires Sep !in other && Sep !in local && other != parent.segment
    ensures Child(parent, other + [Sep] + local).Failure?
  {
    QualifiedSegments(other, local);
  }

  /** Only the piece next to the last is checked: pieces further left of a
      qualified string may name anything. */
  lemma ChildIgnoresOuterPieces(parent: Code, outer: string, local: string)
    requires Sep !in parent.segment && Sep !in local
    ensures Child(parent, outer + [Sep] + parent.segment + [Sep] + local) == Success(Node(local, parent))
  {
    var tail := parent.segment + [Sep] + local;
    assert outer + [Sep] + parent.segment + [Sep] + local == outer + [Sep] + tail;
    SplitConcat(outer, tail);
    SplitConcat(parent.segment, local);
    SplitPieces(parent.segment);
    SplitPieces(local);
    var pieces := Split(outer) + [parent.segment, local];
    assert Split(outer + [Sep] + tail) == pieces;
    assert (outer + [Sep] + tail)[|outer|] == Sep;
    assert pieces[|pieces| - 2] == parent.segment && pieces[|pieces| - 1] == local;
  }

  /** A qualified string is refused whenever its second-to-last piece is not
      the parent's segment, whatever pieces stand further left. */
  lemma WrongParentAnyPrefix(parent: Code, outer: string, other: string, local: string)
    requires Sep !in other && Sep !in local && other != parent.segment
    ensures Child(parent, outer + [Sep] + other + [Sep] + local).Failure?
  {
    var tail := other + [Sep] + local;
    assert outer + [Sep] + other + [Sep] + local == outer + [Sep] + tail;
    SplitConcat(outer, tail);
    SplitConcat(other, local);
    SplitPieces(other);
    SplitPieces(local);
    var pieces := Split(outer) + [other, local];
    assert Split(outer + [Sep] + tail) == pieces;
    assert (outer + [Sep] + tail)[|outer|] == Sep;
    assert pieces[|pieces| - 2] == other;
  }

  /** Splitting a valid code's full path gives its stored segments back. */
  lemma {:induction false} SplitCodeStr(c: Code)
    requires Valid(c)
    ensures Split(CodeStr(c)) == Segments(c)
  {
    SplitPieces(c.segment);
    match c
    case Root(s) =>
    case Node(s, p) =>
      SplitCodeStr(p);
      SplitConcat(CodeStr(p), s);
  }

  /** A code is determined by its list of stored segments. */
  lemma {:induction false} SegmentsInjective(a: Code, b: Code)
    requires Segments(a) == Segments(b)
    ensures a == b
  {
    match a
    case Root(s) =>
    case Node(s, p) =>
      if b.Node? {
        var sa, sb := Segments(a), Segments(b);
        assert Segments(p) == sa[..|sa| - 1];
        assert Segments(b.parent) == sb[..|sb| - 1];
        SegmentsInjective(p, b.parent);
      }
  }

  /** For valid codes, comparing full paths is comparing codes: two valid codes
      with the same path are the same code. */
  lemma CodeStrInjective(a: Code, b: Code)
    requires Valid(a) && Valid(b)
    ensures CodeStr(a) == CodeStr(b) <==> a == b
  {
    if CodeStr(a) == CodeStr(b) {
      SplitCodeStr(a);
      SplitCodeStr(b);
      SegmentsInjective(a, b);
    }
  }

  /** A root on the chain of `c` is the root of `c`'s hierarchy. */
  lemma {:induction false} RootOnChainIsTop(c: Code, r: Code)
    requires r.Root? && r in Chain(c)
    ensures Top(c) == r
  {
    match c
    case Root(_) =>
    case Node(_, p) =>
      assert r in Chain(p);
      RootOnChainIsTop(p, r);
  }

  /** The full path of a child contains the separator right after its parent's path. */
  lemma NodePathHasSep(c: Code)
    requires c.Node?
    ensures |CodeStr(c)| > |CodeStr(c.parent)| && CodeStr(c)[|CodeStr(c.parent)|] == Sep
    ensures Sep in CodeStr(c)
  {
  }

  /** A separator-free string has no prefix ending in a separator. */
  lemma NoSepPrefix(x: string, s: string)
    requires Sep !in s
    ensures !(x + [Sep] <= s)
  {
    assert (x + [Sep])[|x|] == Sep;
  }

  /** A prefix ending in a separator of `pp.s` with `s` separator-free ends at
      or before that separator. */
  lemma PrefixStopsAtSep(x: string, pp: string, s: string)
    requires Sep !in s && x + [Sep] <= pp + [Sep] + s
    ensures |x| <= |pp|
  {
    var pc := pp + [Sep] + s;
    assert (x + [Sep])[|x|] == Sep;
    assert pc[..|x| + 1] == x + [Sep];
    assert forall k :: |pp| < k < |pc| ==> pc[k] == s[k - |pp| - 1];
  }

  /** Ancestry of valid codes read off their full paths: `a` is on the chain of
      `c` exactly when `c`'s path is `a`'s path or extends it past a separator. */
  lemma {:induction false} IsAncestorByPath(c: Code, a: Code)
    requires Valid(c) && Valid(a)
    ensures IsAncestor(c, a) <==> CodeStr(c) == CodeStr(a) || CodeStr(a) + [Sep] <= CodeStr(c)
  {
    CodeStrInjective(c, a);
    var pa := CodeStr(a) + [Sep];
    match c
    case Root(s) =>
      NoSepPrefix(CodeStr(a), s);
    case Node(s, p) =>
      IsAncestorByPath(p, a);
      CodeStrInjective(p, a);
      var pp, pc := CodeStr(p), CodeStr(c);
      assert pc == pp + [Sep] + s;
      if pa <= pc && pc != CodeStr(a) {
        PrefixStopsAtSep(CodeStr(a), pp, s);
        if |CodeStr(a)| < |pp| {
          assert pa <= pp;
        } else if |CodeStr(a)| == |pp| {
          assert pc[..|pp|] == pp;
          assert CodeStr(a) == pc[..|pp|];
        }
      }
      if pa <= pp {
        assert pa <= pc;
      }
      if CodeStr(a) == pp {
        assert pa <= pc;
      }
  }
}
