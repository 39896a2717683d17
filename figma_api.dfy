/** The two pure helpers of the design-document client: collecting the ids of
    image nodes in a document tree, and extracting the file id from a URL. */
module FigmaApi {
  import opened Wrappers

  // ---------------------------------------------------------------------------
  // Image nodes
  // ---------------------------------------------------------------------------

  /** The node type that marks an image. */
  const ImageType: string := "IMAGE"

  /** A document node as far as the walk looks at it: its id, its type tag and
      its `children` field, which a node may lack altogether. */
  datatype Node = Node(id: string, nodeType: string, children: Children)

  /** The `children` field of a node: missing, or present with the children
      in document order. */
  datatype Children = Missing | Present(nodes: seq<Node>)

  /** The children the walk visits: none when the field is missing. */
  function ChildList(n: Node): seq<Node> {
    match n.children
    case Missing => []
    case Present(cs) => cs
  }

  /** The node's own id when it is an image, and nothing otherwise. */
  function OwnImageId(n: Node): seq<string> {
    if n.nodeType == ImageType then [n.id] else []
  }

  /** The image ids of one subtree, in pre-order: the node's own id when it is
      an image, then its children's ids, child by child. */
  function ImageIds(n: Node): (r: seq<string>)
    ensures n.nodeType == ImageType ==> |r| > 0 && r[0] == n.id
    ensures n.children.Missing? ==> r == (if n.nodeType == ImageType then [n.id] else [])
    decreases n, |ChildList(n)| + 1
  {
    OwnImageId(n) + ImageIdsOfChildren(n, |ChildList(n)|)
  }

  /** The image ids of the first `k` children of `n`, concatenated in order. */
  function ImageIdsOfChildren(n: Node, k: nat): seq<string>
    requires k <= |ChildList(n)|
    decreases n, k
  {
    if k == 0 then []
    else ImageIdsOfChildren(n, k - 1) + ImageIds(n.children.nodes[k - 1])
  }

  /** Every node of the subtree, in pre-order (the root first). This is the
      reference the image walk is compared with. */
  function AllNodes(n: Node): (r: seq<Node>)
    ensures |r| > 0 && r[0] == n
    decreases n, |ChildList(n)| + 1
  {
    [n] + AllNodesOfChildren(n, |ChildList(n)|)
  }

  /** Every node below the first `k` children of `n`, in pre-order. */
  function AllNodesOfChildren(n: Node, k: nat): seq<Node>
    requires k <= |ChildList(n)|
    decreases n, k
  {
    if k == 0 then []
    else AllNodesOfChildren(n, k - 1) + AllNodes(n.children.nodes[k - 1])
  }

  /** The nodes of `ns` whose type is the image type, in order. */
  function ImagesIn(ns: seq<Node>): (r: seq<Node>)
    ensures |r| <= |ns|
  {
    if ns == [] then []
    else ImagesIn(ns[..|ns| - 1]) + (if ns[|ns| - 1].nodeType == ImageType then [ns[|ns| - 1]] else [])
  }

  /** The ids of `ns`, in order. */
  function IdsOf(ns: seq<Node>): (r: seq<string>)
    ensures |r| == |ns|
    ensures forall i :: 0 <= i < |ns| ==> r[i] == ns[i].id
  {
    seq(|ns|, i requires 0 <= i < |ns| => ns[i].id)
  }

  lemma {:induction false} ImagesInAppend(a: seq<Node>, b: seq<Node>)
    ensures ImagesIn(a + b) == ImagesIn(a) + ImagesIn(b)
    decreases |b|
  {
    if b == [] {
      assert a + b == a;
    } else {
      assert (a + b)[..|a + b| - 1] == a + b[..|b| - 1];
      ImagesInAppend(a, b[..|b| - 1]);
    }
  }

  lemma {:induction false} ImagesInMembership(ns: seq<Node>, m: Node)
    ensures m in ImagesIn(ns) <==> m in ns && m.nodeType == ImageType
    decreases |ns|
  {
    if ns != [] {
      assert ns == ns[..|ns| - 1] + [ns[|ns| - 1]];
      ImagesInMembership(ns[..|ns| - 1], m);
    }
  }

  /** The walk's result is the ids of the image nodes of the pre-order node
      list: the same ids, in the same order, one per image node. */
  lemma {:induction false} ImageIdsArePreOrderImages(n: Node)
    ensures ImageIds(n) == IdsOf(ImagesIn(AllNodes(n)))
    decreases n, |ChildList(n)| + 1
  {
    var below := AllNodesOfChildren(n, |ChildList(n)|);
    ChildrenImageIdsArePreOrderImages(n, |ChildList(n)|);
    ImagesInAppend([n], below);
    IdsOfAppend(ImagesIn([n]), ImagesIn(below));
    OwnImageIdIsImagesIn(n);
  }

  lemma OwnImageIdIsImagesIn(n: Node)
    ensures IdsOf(ImagesIn([n])) == OwnImageId(n)
  {
    assert [n][..0] == [];
  }

  lemma {:induction false} ChildrenImageIdsArePreOrderImages(n: Node, k: nat)
    requires k <= |ChildList(n)|
    ensures ImageIdsOfChildren(n, k) == IdsOf(ImagesIn(AllNodesOfChildren(n, k)))
    decreases n, k
  {
    if k > 0 {
      var child := n.children.nodes[k - 1];
      var before, below := AllNodesOfChildren(n, k - 1), AllNodes(child);
      assert AllNodesOfChildren(n, k) == before + below;
      assert ImageIdsOfChildren(n, k) == ImageIdsOfChildren(n, k - 1) + ImageIds(child);
      ChildrenImageIdsArePreOrderImages(n, k - 1);
      ImageIdsArePreOrderImages(child);
      ImagesInAppend(before, below);
      IdsOfAppend(ImagesIn(before), ImagesIn(below));
    }
  }

  lemma IdsOfAppend(a: seq<Node>, b: seq<Node>)
    ensures IdsOf(a + b) == IdsOf(a) + IdsOf(b)
  {
  }

  /** An id is returned exactly when some image node of the tree carries it;
      the root counts as a node of the tree. */
  lemma ImageIdsMembership(n: Node, x: string)
    ensures x in ImageIds(n) <==> exists m :: m in AllNodes(n) && m.nodeType == ImageType && m.id == x
  {
    ImageIdsArePreOrderImages(n);
    var images := ImagesIn(AllNodes(n));
    if x in ImageIds(n) {
      var i :| 0 <= i < |images| && IdsOf(images)[i] == x;
      ImagesInMembership(AllNodes(n), images[i]);
    }
    forall m | m in AllNodes(n) && m.nodeType == ImageType && m.id == x
      ensures x in ImageIds(n)
    {
      ImagesInMembership(AllNodes(n), m);
      var i :| 0 <= i < |images| && images[i] == m;
      assert IdsOf(images)[i] == x;
    }
  }

  /** One id per image node, duplicates counted separately; a tree without
      image nodes yields the empty list. */
  lemma ImageIdsCount(n: Node)
    ensures |ImageIds(n)| == |ImagesIn(AllNodes(n))|
    ensures (forall m :: m in AllNodes(n) ==> m.nodeType != ImageType) ==> ImageIds(n) == []
  {
    ImageIdsArePreOrderImages(n);
    if forall m :: m in AllNodes(n) ==> m.nodeType != ImageType {
      if ImagesIn(AllNodes(n)) != [] {
        ImagesInMembership(AllNodes(n), ImagesIn(AllNodes(n))[0]);
      }
    }
  }

  /** The shared accumulator of the recursive walk. */
  class ImageCollector {
    var imageNodes: seq<string>

    constructor ()
      ensures imageNodes == []
    {
      imageNodes := [];
    }

    /** Appends the image ids of `node`'s subtree, in pre-order. */
    method Traverse(node: Node)
      modifies this
      ensures imageNodes == old(imageNodes) + ImageIds(node)
      decreases node
    {
      if node.nodeType == ImageType {
        imageNodes := imageNodes + [node.id];
      }
      ghost var start := imageNodes;
      assert start == old(imageNodes) + OwnImageId(node);
      if node.children.Present? {
        var cs := node.children.nodes;
        var i := 0;
        while i < |cs|
          invariant 0 <= i <= |cs|
          invariant imageNodes == start + ImageIdsOfChildren(node, i)
        {
          Traverse(cs[i]);
          i := i + 1;
        }
      }
    }
  }

  /** The ids of every image node of `document`, in pre-order. */
  method ExtractImageNodes(document: Node) returns (imageNodes: seq<string>)
    ensures imageNodes == ImageIds(document)
  {
    var collector := new ImageCollector();
    collector.Traverse(document);
    imageNodes := collector.imageNodes;
  }

  // ---------------------------------------------------------------------------
  // File id in a URL
  // ---------------------------------------------------------------------------

  /** `[a-zA-Z0-9]`. */
  predicate IsAlnum(c: char) {
    ('a' <= c <= 'z') || ('A' <= c <= 'Z') || ('0' <= c <= '9')
  }

  /** The characters the regular-expression `.` does not match. */
  predicate IsLineTerminator(c: char) {
    c == '\n' || c == '\r' || c == '\U{2028}' || c == '\U{2029}'
  }

  /** The alternatives of the path-kind group, in the order they are tried. */
  const Kinds: seq<string> := ["file", "proto", "design"]

  /** `w` occurs in `s` at position `i`. */
  predicate HasAt(s: string, i: nat, w: string) {
    i + |w| <= |s| && s[i..i + |w|] == w
  }

  lemma NotAtFirstChar(s: string, i: nat, w: string)
    requires |w| > 0 && i < |s| && s[i] != w[0]
    ensures !HasAt(s, i, w)
  {
  }

  /** The length of the longest run of `[a-zA-Z0-9]` starting at `i`: what the
      greedy `+` consumes, when it is not zero. */
  function AlnumRunLength(s: string, i: nat): (n: nat)
    requires i <= |s|
    ensures i + n <= |s|
    ensures forall j :: i <= j < i + n ==> IsAlnum(s[j])
    ensures i + n == |s| || !IsAlnum(s[i + n])
    decreases |s| - i
  {
    if i < |s| && IsAlnum(s[i]) then 1 + AlnumRunLength(s, i + 1) else 0
  }

  /** The first alternative of `file|proto|design` that occurs at `q`. */
  function KindAt(url: string, q: nat): (r: Option<string>)
    ensures r.Some? ==> r.value in Kinds && HasAt(url, q, r.value)
    ensures r.None? ==> forall kind :: kind in Kinds ==> !HasAt(url, q, kind)
  {
    if HasAt(url, q, Kinds[0]) then Some(Kinds[0])
    else if HasAt(url, q, Kinds[1]) then Some(Kinds[1])
    else if HasAt(url, q, Kinds[2]) then Some(Kinds[2])
    else None
  }

  /** One attempt of the pattern `figma.com\/(file|proto|design)\/([a-zA-Z0-9]+)`
      anchored at `p`: the text of the second group when the attempt succeeds. */
  function MatchAt(url: string, p: nat): (r: Option<string>)
    ensures r.Some? ==> IsFileId(r.value)
  {
    if !(HasAt(url, p, "figma") && p + 5 < |url| && !IsLineTerminator(url[p + 5]) && HasAt(url, p + 6, "com/")) then None
    else
      match KindAt(url, p + 10)
      case None => None
      case Some(kind) =>
        var slash := p + 10 + |kind|;
        if !HasAt(url, slash, "/") then None
        else
          var n := AlnumRunLength(url, slash + 1);
          if n == 0 then None else Some(url[slash + 1..slash + 1 + n])
  }

  /** The pattern matches at `p`, taking the alternative `kind` for the first
      group and `id` for the second, greedy, group. */
  predicate MatchesWith(url: string, p: nat, kind: string, id: string) {
    var idStart := p + 11 + |kind|;
    && HasAt(url, p, "figma")
    && p + 5 < |url| && !IsLineTerminator(url[p + 5])
    && HasAt(url, p + 6, "com/")
    && HasAt(url, p + 10, kind)
    && HasAt(url, p + 10 + |kind|, "/")
    && HasAt(url, idStart, id)
    && IsFileId(id)
    && (idStart + |id| == |url| || !IsAlnum(url[idStart + |id|]))
  }

  /** Declarative statement of a match at `p` with second group `id`. */
  ghost predicate MatchesAt(url: string, p: nat, id: string) {
    exists kind :: kind in Kinds && MatchesWith(url, p, kind, id)
  }

  /** The anchored attempt succeeds with `id` exactly when the pattern, with its
      greedy last group, matches at `p` with that group. */
  lemma MatchAtIsPattern(url: string, p: nat, id: string)
    ensures MatchAt(url, p) == Some(id) <==> MatchesAt(url, p, id)
  {
    if MatchAt(url, p) == Some(id) {
      MatchAtSound(url, p);
    }
    if MatchesAt(url, p, id) {
      var kind :| kind in Kinds && MatchesWith(url, p, kind, id);
      MatchAtComplete(url, p, kind, id);
    }
  }

  lemma MatchAtSound(url: string, p: nat)
    requires MatchAt(url, p).Some?
    ensures MatchesWith(url, p, KindAt(url, p + 10).value, MatchAt(url, p).value)
  {
  }

  lemma MatchAtComplete(url: string, p: nat, kind: string, id: string)
    requires kind in Kinds && MatchesWith(url, p, kind, id)
    ensures MatchAt(url, p) == Some(id)
  {
    var idStart := p + 11 + |kind|;
    assert HasAt(url, p, "figma") && HasAt(url, p + 6, "com/");
    assert HasAt(url, p + 10 + |kind|, "/") && HasAt(url, idStart, id);
    KindAtOfKind(url, p + 10, kind);
    GreedyRunIsId(url, idStart, id);
  }

  /** A non-empty alphanumeric `id` at `i` that is not followed by another
      letter or digit is what the greedy run at `i` consumes. */
  lemma GreedyRunIsId(url: string, i: nat, id: string)
    requires HasAt(url, i, id) && IsFileId(id)
    requires i + |id| == |url| || !IsAlnum(url[i + |id|])
    ensures AlnumRunLength(url, i) == |id| && url[i..i + |id|] == id
  {
    forall j | i <= j < i + |id|
      ensures IsAlnum(url[j])
    {
      assert url[j] == url[i..i + |id|][j - i];
    }
    AlnumRunBounds(url, i, |id|);
  }

  /** The alternatives start with different letters, so the first one that
      occurs is the one that occurs. */
  lemma KindAtOfKind(url: string, q: nat, kind: string)
    requires kind in Kinds && HasAt(url, q, kind)
    ensures KindAt(url, q) == Some(kind)
  {
    assert url[q] == kind[0] by { assert url[q] == url[q..q + |kind|][0]; }
    if kind != Kinds[0] {
      NotAtFirstChar(url, q, Kinds[0]);
    }
    if kind == Kinds[2] {
      NotAtFirstChar(url, q, Kinds[1]);
    }
  }

  /** A run of `k` alphanumerics followed by a non-alphanumeric (or the end)
      is exactly the greedy run. */
  lemma {:induction false} AlnumRunBounds(s: string, i: nat, k: nat)
    requires i + k <= |s|
    requires forall j :: i <= j < i + k ==> IsAlnum(s[j])
    requires i + k == |s| || !IsAlnum(s[i + k])
    ensures AlnumRunLength(s, i) == k
    decreases k
  {
    if k > 0 {
      AlnumRunBounds(s, i + 1, k - 1);
    }
  }

  /** Tries the anchored pattern at `p`, `p + 1`, ... and returns the first
      success: the leftmost match. */
  function ScanFrom(url: string, p: nat): (r: Option<string>)
    requires p <= |url|
    ensures r.Some? ==> IsFileId(r.value)
    decreases |url| - p
  {
    if MatchAt(url, p).Some? then MatchAt(url, p)
    else if p == |url| then None
    else ScanFrom(url, p + 1)
  }

  /** `extractFigmaFileId`: the second group of the leftmost match, or null. */
  function ExtractFigmaFileId(url: string): (r: Option<string>)
    ensures r.Some? ==> IsFileId(r.value)
  {
    ScanFrom(url, 0)
  }

  /** A non-empty run of ASCII letters and digits. */
  predicate IsFileId(id: string) {
    |id| > 0 && forall j :: 0 <= j < |id| ==> IsAlnum(id[j])
  }

  /** A successful scan from `p` stops at the first position that matches. */
  lemma {:induction false} ScanFromIsLeftmost(url: string, p: nat)
    requires p <= |url|
    requires ScanFrom(url, p).Some?
    ensures exists q :: p <= q <= |url| && MatchAt(url, q) == ScanFrom(url, p)
               && forall q' :: p <= q' < q ==> MatchAt(url, q').None?
    decreases |url| - p
  {
    if MatchAt(url, p).None? {
      ScanFromIsLeftmost(url, p + 1);
      var q :| p + 1 <= q <= |url| && MatchAt(url, q) == ScanFrom(url, p + 1)
               && forall q' :: p + 1 <= q' < q ==> MatchAt(url, q').None?;
      assert forall q' :: p <= q' < q ==> MatchAt(url, q').None?;
    }
  }

  /** A failed scan from `p` means no position from `p` on matches. */
  lemma {:induction false} ScanFromNone(url: string, p: nat)
    requires p <= |url|
    ensures ScanFrom(url, p).None? <==> forall q :: p <= q <= |url| ==> MatchAt(url, q).None?
    decreases |url| - p
  {
    if p < |url| {
      ScanFromNone(url, p + 1);
    }
  }

  /** The result is the id of the leftmost match: some match at `p` yields it,
      and no position before `p` matches at all. */
  lemma ExtractFigmaFileIdIsLeftmost(url: string, id: string)
    requires ExtractFigmaFileId(url) == Some(id)
    ensures exists p :: 0 <= p <= |url| && MatchesAt(url, p, id)
              && forall q, id' :: 0 <= q < p ==> !MatchesAt(url, q, id')
  {
    ScanFromIsLeftmost(url, 0);
    var p :| 0 <= p <= |url| && MatchAt(url, p) == Some(id)
             && forall q' :: 0 <= q' < p ==> MatchAt(url, q').None?;
    MatchAtIsPattern(url, p, id);
    forall q, id' | 0 <= q < p
      ensures !MatchesAt(url, q, id')
    {
      MatchAtIsPattern(url, q, id');
    }
  }

  /** The result is null exactly when the pattern matches nowhere, in
      particular when the character after the last `/` is not alphanumeric. */
  lemma ExtractFigmaFileIdNull(url: string)
    ensures ExtractFigmaFileId(url).None? <==> forall p, id :: 0 <= p <= |url| ==> !MatchesAt(url, p, id)
  {
    ScanFromNone(url, 0);
    if ExtractFigmaFileId(url).None? {
      forall p, id | 0 <= p <= |url|
        ensures !MatchesAt(url, p, id)
      {
        MatchAtIsPattern(url, p, id);
      }
    } else {
      var id := ExtractFigmaFileId(url).value;
      ExtractFigmaFileIdIsLeftmost(url, id);
    }
  }

  /** Positions that cannot start `figma` cannot start a match. */
  lemma NoMatchWithoutF(url: string, p: nat, k: nat)
    requires p <= k <= |url|
    requires 'f' !in url[p..k]
    ensures forall q :: p <= q < k ==> MatchAt(url, q).None?
  {
    forall q | p <= q < k
      ensures MatchAt(url, q).None?
    {
      assert url[q] == url[p..k][q - p];
      NotAtFirstChar(url, q, "figma");
    }
  }

  /** The scan passes over positions where the pattern does not match. */
  lemma {:induction false} ScanSkips(url: string, p: nat, k: nat)
    requires p <= k <= |url|
    requires forall q :: p <= q < k ==> MatchAt(url, q).None?
    ensures ScanFrom(url, p) == ScanFrom(url, k)
    decreases k - p
  {
    if p < k {
      ScanSkips(url, p, k - 1);
      ScanStep(url, k - 1);
    }
  }

  /** One position where the attempt fails moves the scan one step on. */
  lemma ScanStep(url: string, p: nat)
    requires p < |url| && MatchAt(url, p).None?
    ensures ScanFrom(url, p) == ScanFrom(url, p + 1)
  {
  }

  /** When `a + w` begins `s`, `w` occurs in `s` right after `a`. */
  lemma HasAtEnd(a: string, w: string, s: string)
    requires a + w <= s
    ensures HasAt(s, |a|, w)
  {
    assert s[|a|..|a| + |w|] == (a + w)[|a|..|a| + |w|];
  }

  /** With no `f` before `p`, a successful attempt at `p` is what the scan
      returns. */
  lemma FirstMatchAfterNoF(url: string, p: nat)
    requires p <= |url| && 'f' !in url[..p] && MatchAt(url, p).Some?
    ensures ExtractFigmaFileId(url) == MatchAt(url, p)
  {
    NoMatchWithoutF(url, 0, p);
    ScanSkips(url, 0, p);
  }

  /** A URL made of a host part without the letter `f`, then `figma`, any
      non-line-terminator, `com/`, a path kind, `/`, an id and a tail that does
      not start with a letter or digit yields that id. For example
      `https://www.figma.com/file/ABC123/Title` gives `ABC123`, and, since the
      `.` is unescaped, `figmaXcom/proto/a1` gives `a1`. */
  lemma ExtractFromShape(host: string, sep: char, kind: string, id: string, tail: string)
    requires 'f' !in host && !IsLineTerminator(sep) && kind in Kinds && IsFileId(id)
    requires tail == [] || !IsAlnum(tail[0])
    ensures ExtractFigmaFileId(host + "figma" + [sep] + "com/" + kind + "/" + id + tail) == Some(id)
  {
    var url := host + "figma" + [sep] + "com/" + kind + "/" + id + tail;
    ShapeMatchesAfterHost(host, sep, kind, id, tail);
    assert url[..|host|] == host;
    FirstMatchAfterNoF(url, |host|);
  }

  /** The attempt right after the host part succeeds with `id`. */
  lemma ShapeMatchesAfterHost(host: string, sep: char, kind: string, id: string, tail: string)
    requires !IsLineTerminator(sep) && kind in Kinds && IsFileId(id)
    requires tail == [] || !IsAlnum(tail[0])
    ensures MatchAt(host + "figma" + [sep] + "com/" + kind + "/" + id + tail, |host|) == Some(id)
  {
    var url := host + "figma" + [sep] + "com/" + kind + "/" + id + tail;
    ShapeHead(host, sep, kind, id, tail);
    ShapeTail(host, sep, kind, id, tail);
    assert MatchesWith(url, |host|, kind, id);
    MatchAtComplete(url, |host|, kind, id);
  }

  /** The shape's `figma`, separator and `com/` sit right after the host. */
  lemma ShapeHead(host: string, sep: char, kind: string, id: string, tail: string)
    ensures var url := host + "figma" + [sep] + "com/" + kind + "/" + id + tail;
      HasAt(url, |host|, "figma") && url[|host| + 5] == sep && HasAt(url, |host| + 6, "com/")
  {
    var url := host + "figma" + [sep] + "com/" + kind + "/" + id + tail;
    HasAtEnd(host, "figma", url);
    HasAtEnd(host + "figma" + [sep], "com/", url);
  }

  /** The shape's path kind, `/` and id follow, and the id is not followed by
      a letter or digit. */
  lemma ShapeTail(host: string, sep: char, kind: string, id: string, tail: string)
    requires tail == [] || !IsAlnum(tail[0])
    ensures var url := host + "figma" + [sep] + "com/" + kind + "/" + id + tail;
      var idStart := |host| + 11 + |kind|;
      && HasAt(url, |host| + 10, kind) && HasAt(url, |host| + 10 + |kind|, "/") && HasAt(url, idStart, id)
      && (idStart + |id| == |url| || !IsAlnum(url[idStart + |id|]))
  {
    var url := host + "figma" + [sep] + "com/" + kind + "/" + id + tail;
    HasAtEnd(host + "figma" + [sep] + "com/", kind, url);
    HasAtEnd(host + "figma" + [sep] + "com/" + kind, "/", url);
    HasAtEnd(host + "figma" + [sep] + "com/" + kind + "/", id, url);
  }

  /** When the character after the final `/` is not a letter or digit, the
      attempt there gives null even though everything before it matched. */
  lemma NoIdAfterSlash(host: string, sep: char, kind: string, tail: string)
    requires kind in Kinds && (tail == [] || !IsAlnum(tail[0]))
    ensures MatchAt(host + "figma" + [sep] + "com/" + kind + "/" + tail, |host|).None?
  {
    var url := host + "figma" + [sep] + "com/" + kind + "/" + tail;
    HasAtEnd(host + "figma" + [sep] + "com/", kind, url);
    KindAtOfKind(url, |host| + 10, kind);
    if MatchAt(url, |host|).Some? {
      MatchAtSound(url, |host|);
      assert false;
    }
  }
}
