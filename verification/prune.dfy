/** Pruning one namespace out of an element tree (`trim_namespace_from_tree`
    in src/penai/utils/svg.py, `strip_penpot_from_tree` and
    `strip_penpot_from_svg` in src/penai/utils.py), and the file-extension
    check of the two `temp_file_for_content` helpers. */
module Prune {
  import opened Wrappers
  import opened Values
  import opened Xml
  import Chars

  /** A child the loop removes: its prefix is set, non-empty and equal to the
      namespace prefix. */
  predicate Removed(c: Node, ns: string) {
    c.prefix.Some? && c.prefix.value != "" && c.prefix.value == ns
  }

  /** No element strictly below `n` would be removed. */
  predicate Clean(n: Node, ns: string) {
    forall i :: 0 <= i < |n.children| ==> !Removed(n.children[i], ns) && Clean(n.children[i], ns)
  }

  /** The positions, from `from` on, of the children that survive, in order. */
  function KeptFrom(cs: seq<Node>, ns: string, from: nat): (idx: seq<nat>)
    requires from <= |cs|
    ensures forall i :: 0 <= i < |idx| ==> from <= idx[i] < |cs| && !Removed(cs[idx[i]], ns)
    ensures forall i, j :: 0 <= i < j < |idx| ==> idx[i] < idx[j]
    ensures forall j :: from <= j < |cs| && !Removed(cs[j], ns) ==> j in idx
    decreases |cs| - from
  {
    if from == |cs| then []
    else if Removed(cs[from], ns) then KeptFrom(cs, ns, from + 1)
    else [from] + KeptFrom(cs, ns, from + 1)
  }

  /** The positions of the surviving children: increasing, and every child
      without the prefix is among them. */
  function KeptIndices(cs: seq<Node>, ns: string): (idx: seq<nat>)
    ensures forall i :: 0 <= i < |idx| ==> idx[i] < |cs| && !Removed(cs[idx[i]], ns)
    ensures forall i, j :: 0 <= i < j < |idx| ==> idx[i] < idx[j]
    ensures forall j :: 0 <= j < |cs| && !Removed(cs[j], ns) ==> j in idx
  {
    KeptFrom(cs, ns, 0)
  }

  /** The children that survive, in their original order. */
  function Kept(cs: seq<Node>, ns: string): (r: seq<Node>)
    ensures |r| <= |cs|
  {
    var idx := KeptIndices(cs, ns);
    KeptIndicesCount(cs, ns);
    seq(|idx|, i requires 0 <= i < |idx| => cs[idx[i]])
  }

  /** Strictly increasing positions below `|cs|` are at most `|cs|` many. */
  lemma KeptIndicesCount(cs: seq<Node>, ns: string)
    ensures |KeptIndices(cs, ns)| <= |cs|
  {
    var idx := KeptIndices(cs, ns);
    IncreasingBounded(idx, |cs|);
  }

  lemma {:induction false} IncreasingBounded(idx: seq<nat>, n: nat)
    requires forall i :: 0 <= i < |idx| ==> idx[i] < n
    requires forall i, j :: 0 <= i < j < |idx| ==> idx[i] < idx[j]
    ensures |idx| <= n
  {
    if |idx| > 0 {
      var last := idx[|idx| - 1];
      IncreasingBounded(idx[..|idx| - 1], last);
    }
  }

  /** `trim_namespace_from_tree`: every child with the prefix is removed with
      its whole subtree, every other child is trimmed in turn; the element
      itself stays. */
  function Trim(n: Node, ns: string): (r: Node)
    ensures Label(r) == Label(n) && r.attrs == n.attrs
    ensures |r.children| == |KeptIndices(n.children, ns)|
    ensures forall i :: 0 <= i < |r.children| ==> r.children[i] == Trim(n.children[KeptIndices(n.children, ns)[i]], ns)
    ensures Clean(r, ns)
    decreases n, 1
  {
    n.(children := TrimChildren(n.children, ns))
  }

  function TrimChildren(cs: seq<Node>, ns: string): (r: seq<Node>)
    ensures |r| == |KeptIndices(cs, ns)|
    ensures forall i :: 0 <= i < |r| ==> r[i] == Trim(cs[KeptIndices(cs, ns)[i]], ns)
    ensures forall i :: 0 <= i < |r| ==> !Removed(r[i], ns) && Clean(r[i], ns)
    decreases cs, 0
  {
    var idx := KeptIndices(cs, ns);
    seq(|idx|, i requires 0 <= i < |idx| => Trim(cs[idx[i]], ns))
  }

  /** The surviving children, trimmed: the children of a trimmed element are
      exactly the children without the prefix, in order, each trimmed. */
  lemma TrimKeepsOrder(n: Node, ns: string)
    ensures |Trim(n, ns).children| == |Kept(n.children, ns)|
    ensures forall i :: 0 <= i < |Kept(n.children, ns)| ==> Trim(n, ns).children[i] == Trim(Kept(n.children, ns)[i], ns)
  {
  }

  /** In a clean tree no element on any path below the root carries the prefix. */
  lemma {:induction false} CleanBelowRoot(n: Node, ns: string, p: Path)
    requires Clean(n, ns) && ValidPath(n, p) && |p| > 0
    ensures !Removed(At(n, p), ns)
    decreases |p|
  {
    if |p| > 1 {
      CleanBelowRoot(n.children[p[0]], ns, p[1..]);
    }
  }

  /** After trimming, no strict descendant carries the prefix. */
  lemma TrimRemovesPrefix(n: Node, ns: string, p: Path)
    requires ValidPath(Trim(n, ns), p) && |p| > 0
    ensures !Removed(At(Trim(n, ns), p), ns)
  {
    CleanBelowRoot(Trim(n, ns), ns, p);
  }

  /** When no child has the prefix, every position survives. */
  lemma {:induction false} KeptAll(cs: seq<Node>, ns: string, from: nat)
    requires from <= |cs|
    requires forall i :: 0 <= i < |cs| ==> !Removed(cs[i], ns)
    ensures |KeptFrom(cs, ns, from)| == |cs| - from
    ensures forall i :: 0 <= i < |cs| - from ==> KeptFrom(cs, ns, from)[i] == from + i
    decreases |cs| - from
  {
    if from < |cs| {
      KeptAll(cs, ns, from + 1);
      var rest := KeptFrom(cs, ns, from + 1);
      assert !Removed(cs[from], ns);
      assert KeptFrom(cs, ns, from) == [from] + rest;
    }
  }

  /** A tree that is already clean is left exactly as it was. */
  lemma {:induction false} TrimCleanIsIdentity(n: Node, ns: string)
    requires Clean(n, ns)
    ensures Trim(n, ns) == n
    decreases n
  {
    KeptAll(n.children, ns, 0);
    var r := Trim(n, ns);
    forall i | 0 <= i < |n.children|
      ensures r.children[i] == n.children[i]
    {
      TrimCleanIsIdentity(n.children[i], ns);
    }
    assert r.children == n.children;
  }

  /** Trimming twice is trimming once. */
  lemma TrimIdempotent(n: Node, ns: string)
    ensures Trim(Trim(n, ns), ns) == Trim(n, ns)
  {
    TrimCleanIsIdentity(Trim(n, ns), ns);
  }

  /** A namespace given as the empty string matches no prefix, so nothing is removed. */
  lemma EmptyNamespaceRemovesNothing(n: Node)
    ensures Trim(n, "") == n
  {
    EmptyClean(n);
    TrimCleanIsIdentity(n, "");
  }

  lemma {:induction false} EmptyClean(n: Node)
    ensures Clean(n, "")
    decreases n
  {
    forall i | 0 <= i < |n.children|
      ensures Clean(n.children[i], "")
    {
      EmptyClean(n.children[i]);
    }
  }

  const PenpotPrefix := "penpot"

  /** `strip_penpot_from_tree`, and `strip_penpot_from_svg` applied to a
      document root: the same pruning for the `penpot` prefix. */
  function StripPenpot(root: Node): (r: Node)
    ensures Label(r) == Label(root) && r.attrs == root.attrs
    ensures forall p :: ValidPath(r, p) && |p| > 0 ==> At(r, p).prefix != Some(PenpotPrefix)
    ensures |r.children| == |Kept(root.children, PenpotPrefix)|
    ensures forall i :: 0 <= i < |r.children| ==> r.children[i] == Trim(Kept(root.children, PenpotPrefix)[i], PenpotPrefix)
  {
    var r := Trim(root, PenpotPrefix);
    forall p | ValidPath(r, p) && |p| > 0
      ensures At(r, p).prefix != Some(PenpotPrefix)
    {
      TrimRemovesPrefix(root, PenpotPrefix, p);
    }
    r
  }

  // ---------------------------------------------------------------------------
  // File extensions

  /** The guard at the top of `temp_file_for_content`: an extension must be
      empty or start with a dot. */
  function CheckExtension(extension: string): (r: Result<string, Error>)
    ensures r.Failure? <==> extension != "" && (|extension| == 0 || extension[0] != '.')
    ensures r.Failure? ==> r.error == BadExtension
    ensures r.Success? ==> r.value == extension
  {
    if extension != "" && !Chars.StartsWith(extension, ".") then Failure(BadExtension) else Success(extension)
  }

  /** Every dotted extension and the empty one pass; a bare name such as "svg" does not. */
  lemma DottedExtensionsPass(name: string)
    ensures CheckExtension("." + name).Success?
    ensures CheckExtension("").Success?
    ensures name != "" && name[0] != '.' ==> CheckExtension(name).Failure?
  {
  }
}
