/** The comment record and `buildCommentTree`, which turns a flat list of
    comments (in creation order) into a forest of reply threads.

    A node's `replies` hold the ids of its child nodes rather than the nodes
    themselves: in `buildCommentTree` every node is one shared object reached both
    through the id map and through its parent's `replies`, and an id stands
    for that shared node. This also keeps the result meaningful when the
    parent links form a cycle or a comment names itself as its parent. */
module CommentTree {
  import opened Wrappers

  /** `Comment`; timestamps are integer milliseconds. */
  datatype Comment = Comment(
    id: int,
    postId: int,
    parentId: Option<int>,
    handle: string,
    content: string,
    createdAt: int,
    updatedAt: int,
    isDeleted: bool,
    deletedAt: Option<int>)

  /** `CommentNode`: the comment's own fields plus its replies, in order. */
  datatype CommentNode = CommentNode(comment: Comment, replies: seq<int>)

  /** The id-to-node map the builder fills, and the root list it returns. */
  datatype Forest = Forest(nodes: map<int, CommentNode>, roots: seq<int>)

  function IdSet(cs: seq<Comment>): set<int> {
    set c | c in cs :: c.id
  }

  predicate DistinctIds(cs: seq<Comment>) {
    forall i, j :: 0 <= i < j < |cs| ==> cs[i].id != cs[j].id
  }

  /** A comment is placed among the roots when it has no parent id or when
      its parent id is not one of `ids`. */
  predicate IsRootIn(c: Comment, ids: set<int>) {
    c.parentId.None? || c.parentId.value !in ids
  }

  /** The ids of the comments of `xs` that are roots with respect to `ids`,
      in the order of `xs`. */
  function RootsIn(xs: seq<Comment>, ids: set<int>): seq<int> {
    if xs == [] then []
    else
      var last := xs[|xs| - 1];
      RootsIn(xs[..|xs| - 1], ids) + (if IsRootIn(last, ids) then [last.id] else [])
  }

  /** The ids of the comments of `xs` whose parent id is `p`, in the order of `xs`. */
  function RepliesOf(xs: seq<Comment>, p: int): seq<int> {
    if xs == [] then []
    else
      var last := xs[|xs| - 1];
      RepliesOf(xs[..|xs| - 1], p) + (if last.parentId == Some(p) then [last.id] else [])
  }

  /** `f` is the forest built from `cs`: one node per comment, carrying that
      comment's fields and the ids of the comments naming it as parent, and
      the roots being the comments without a parent present in `cs`. */
  ghost predicate IsTreeOf(f: Forest, cs: seq<Comment>) {
    && f.nodes.Keys == IdSet(cs)
    && (forall i :: 0 <= i < |cs| ==>
          f.nodes[cs[i].id] == CommentNode(cs[i], RepliesOf(cs, cs[i].id)))
    && f.roots == RootsIn(cs, IdSet(cs))
  }

  /** The first pass of `buildCommentTree`: a node with the comment's own
      fields and no replies, under each comment's id. */
  method NewNodeMap(comments: seq<Comment>) returns (nodes: map<int, CommentNode>)
    requires DistinctIds(comments)
    ensures nodes.Keys == IdSet(comments)
    ensures forall j :: 0 <= j < |comments| ==> nodes[comments[j].id] == CommentNode(comments[j], [])
  {
    nodes := map[];
    var i := 0;
    while i < |comments|
      invariant 0 <= i <= |comments|
      invariant nodes.Keys == IdSet(comments[..i])
      invariant forall j :: 0 <= j < i ==> nodes[comments[j].id] == CommentNode(comments[j], [])
    {
      var c := comments[i];
      assert comments[..i + 1] == comments[..i] + [c];
      IdSetStep(comments[..i], c);
      nodes := nodes[c.id := CommentNode(c, [])];
      i := i + 1;
    }
    assert comments[..i] == comments;
  }

  /** `buildCommentTree`: after the first pass, a second pass appends each
      node to its parent's replies, or to the roots when the parent id is
      null or not in the map. Ids must be distinct: with a repeated id the
      map entry would be overwritten and the same node pushed twice. */
  method BuildCommentTree(comments: seq<Comment>) returns (forest: Forest)
    requires DistinctIds(comments)
    ensures IsTreeOf(forest, comments)
  {
    var nodes := NewNodeMap(comments);
    ghost var ids := IdSet(comments);
    var roots: seq<int> := [];
    PlacedNone(comments, nodes);
    var i := 0;
    while i < |comments|
      invariant 0 <= i <= |comments|
      invariant PlacedUpTo(comments, i, nodes, roots)
    {
      var c := comments[i];
      assert c.id in nodes by { assert comments[i] in comments; }
      var node := nodes[c.id];
      if c.parentId.None? {
        RootStep(comments, i, nodes, roots);
        roots := roots + [node.comment.id];
      } else if c.parentId.value in nodes {
        var p := c.parentId.value;
        var parent := nodes[p];
        ghost var before := nodes;
        nodes := nodes[p := parent.(replies := parent.replies + [node.comment.id])];
        AttachStep(comments, i, before, nodes, roots);
      } else {
        RootStep(comments, i, nodes, roots);
        roots := roots + [node.comment.id];
      }
      i := i + 1;
    }
    assert comments[..i] == comments;
    forest := Forest(nodes, roots);
  }

  /** The state of the second pass after the first `i` comments: every node
      still carries its comment, its replies are those among the first `i`,
      and the roots are the roots among the first `i`. */
  ghost predicate PlacedUpTo(cs: seq<Comment>, i: int, nodes: map<int, CommentNode>, roots: seq<int>)
    requires 0 <= i <= |cs|
  {
    && nodes.Keys == IdSet(cs)
    && (forall j :: 0 <= j < |cs| ==>
          cs[j].id in nodes && nodes[cs[j].id] == CommentNode(cs[j], RepliesOf(cs[..i], cs[j].id)))
    && roots == RootsIn(cs[..i], IdSet(cs))
  }

  /** The first pass leaves the second pass at its start. */
  lemma PlacedNone(cs: seq<Comment>, nodes: map<int, CommentNode>)
    requires nodes.Keys == IdSet(cs)
    requires forall j :: 0 <= j < |cs| ==> nodes[cs[j].id] == CommentNode(cs[j], [])
    ensures PlacedUpTo(cs, 0, nodes, [])
  {
    assert cs[..0] == [];
    forall j | 0 <= j < |cs| ensures cs[j].id in nodes {
      assert cs[j] in cs;
    }
  }

  /** Comment `i` has no parent in the map: it joins the roots and no reply
      list changes. */
  lemma RootStep(cs: seq<Comment>, i: int, nodes: map<int, CommentNode>, roots: seq<int>)
    requires 0 <= i < |cs| && PlacedUpTo(cs, i, nodes, roots)
    requires cs[i].parentId.None? || cs[i].parentId.value !in nodes
    ensures PlacedUpTo(cs, i + 1, nodes, roots + [cs[i].id])
  {
    assert cs[..i + 1] == cs[..i] + [cs[i]];
    RootsStep(cs[..i], cs[i], IdSet(cs));
    NoReplyStep(cs, i);
  }

  /** Comment `i` is appended to its parent's replies: the reply lists of the
      first `i` comments become those of the first `i + 1`, and the roots
      stay as they are. */
  lemma AttachStep(cs: seq<Comment>, i: int, before: map<int, CommentNode>, after: map<int, CommentNode>, roots: seq<int>)
    requires 0 <= i < |cs| && PlacedUpTo(cs, i, before, roots)
    requires cs[i].parentId.Some? && cs[i].parentId.value in before
    requires var p := cs[i].parentId.value;
      after == before[p := before[p].(replies := before[p].replies + [cs[i].id])]
    ensures PlacedUpTo(cs, i + 1, after, roots)
  {
    assert cs[..i + 1] == cs[..i] + [cs[i]];
    RootsStep(cs[..i], cs[i], IdSet(cs));
    forall j | 0 <= j < |cs|
      ensures after[cs[j].id] == CommentNode(cs[j], RepliesOf(cs[..i + 1], cs[j].id))
    {
      RepliesStep(cs[..i], cs[i], cs[j].id);
    }
  }

  // ---------------------------------------------------------------------
  // Facts about the placement functions

  /** An id of the input is the id of some input position. */
  lemma IdIndex(cs: seq<Comment>, x: int) returns (j: int)
    requires x in IdSet(cs)
    ensures 0 <= j < |cs| && cs[j].id == x
  {
    var c :| c in cs && c.id == x;
    j :| 0 <= j < |cs| && cs[j] == c;
  }

  lemma IdSetStep(xs: seq<Comment>, c: Comment)
    ensures IdSet(xs + [c]) == IdSet(xs) + {c.id}
  {
    assert forall d :: d in xs + [c] <==> d in xs || d == c;
  }

  lemma RootsStep(xs: seq<Comment>, c: Comment, ids: set<int>)
    ensures RootsIn(xs + [c], ids) == RootsIn(xs, ids) + (if IsRootIn(c, ids) then [c.id] else [])
  {
    assert (xs + [c])[..|xs|] == xs;
  }

  lemma RepliesStep(xs: seq<Comment>, c: Comment, p: int)
    ensures RepliesOf(xs + [c], p) == RepliesOf(xs, p) + (if c.parentId == Some(p) then [c.id] else [])
  {
    assert (xs + [c])[..|xs|] == xs;
  }

  /** A comment whose parent id names no comment of `cs` adds to no reply list. */
  lemma NoReplyStep(cs: seq<Comment>, i: int)
    requires 0 <= i < |cs|
    requires cs[i].parentId.None? || cs[i].parentId.value !in IdSet(cs)
    ensures forall j :: 0 <= j < |cs| ==> RepliesOf(cs[..i + 1], cs[j].id) == RepliesOf(cs[..i], cs[j].id)
  {
    forall j | 0 <= j < |cs| ensures RepliesOf(cs[..i + 1], cs[j].id) == RepliesOf(cs[..i], cs[j].id) {
      assert cs[..i + 1] == cs[..i] + [cs[i]];
      RepliesStep(cs[..i], cs[i], cs[j].id);
      assert cs[j] in cs;
    }
  }

  lemma {:induction false} RootsMember(xs: seq<Comment>, ids: set<int>, x: int)
    ensures x in RootsIn(xs, ids) <==> exists c :: c in xs && c.id == x && IsRootIn(c, ids)
  {
    if xs != [] {
      var init := xs[..|xs| - 1];
      RootsMember(init, ids, x);
      assert xs == init + [xs[|xs| - 1]];
    }
  }

  lemma {:induction false} RepliesMember(xs: seq<Comment>, p: int, x: int)
    ensures x in RepliesOf(xs, p) <==> exists c :: c in xs && c.id == x && c.parentId == Some(p)
  {
    if xs != [] {
      var init := xs[..|xs| - 1];
      RepliesMember(init, p, x);
      assert xs == init + [xs[|xs| - 1]];
    }
  }

  /** With distinct ids, a root comment's id occurs exactly once among the
      roots and a non-root's not at all. */
  lemma {:induction false} RootsCount(xs: seq<Comment>, ids: set<int>, i: int)
    requires DistinctIds(xs) && 0 <= i < |xs|
    ensures multiset(RootsIn(xs, ids))[xs[i].id] == if IsRootIn(xs[i], ids) then 1 else 0
  {
    var init := xs[..|xs| - 1];
    var last := xs[|xs| - 1];
    var tail := if IsRootIn(last, ids) then [last.id] else [];
    assert RootsIn(xs, ids) == RootsIn(init, ids) + tail;
    if i == |xs| - 1 {
      RootsMember(init, ids, last.id);
      assert multiset(RootsIn(init, ids))[last.id] == 0;
    } else {
      RootsCount(init, ids, i);
      assert init[i] == xs[i];
    }
  }

  /** With distinct ids, a comment's id occurs exactly once in the replies of
      the id it names as parent, and in no other reply list. */
  lemma {:induction false} RepliesCount(xs: seq<Comment>, p: int, i: int)
    requires DistinctIds(xs) && 0 <= i < |xs|
    ensures multiset(RepliesOf(xs, p))[xs[i].id] == if xs[i].parentId == Some(p) then 1 else 0
  {
    var init := xs[..|xs| - 1];
    var last := xs[|xs| - 1];
    var tail := if last.parentId == Some(p) then [last.id] else [];
    assert RepliesOf(xs, p) == RepliesOf(init, p) + tail;
    if i == |xs| - 1 {
      RepliesMember(init, p, last.id);
      assert multiset(RepliesOf(init, p))[last.id] == 0;
    } else {
      RepliesCount(init, p, i);
      assert init[i] == xs[i];
    }
  }

  // ---------------------------------------------------------------------
  // Properties of the built forest

  /** A comment with a null parent id is a root, and so is one whose parent
      id does not belong to the input; every other comment is not. */
  lemma RootPlacement(cs: seq<Comment>, f: Forest, i: int)
    requires IsTreeOf(f, cs) && 0 <= i < |cs|
    ensures cs[i].parentId.None? ==> cs[i].id in f.roots
    ensures cs[i].parentId.Some? && cs[i].parentId.value !in IdSet(cs) ==> cs[i].id in f.roots
    ensures DistinctIds(cs) && cs[i].parentId.Some? && cs[i].parentId.value in IdSet(cs)
            ==> cs[i].id !in f.roots
  {
    RootsMember(cs, IdSet(cs), cs[i].id);
    if DistinctIds(cs) {
      RootsCount(cs, IdSet(cs), i);
    }
  }

  /** A comment whose parent is present is among that parent's replies. */
  lemma ReplyPlacement(cs: seq<Comment>, f: Forest, i: int)
    requires IsTreeOf(f, cs) && 0 <= i < |cs|
    requires cs[i].parentId.Some? && cs[i].parentId.value in IdSet(cs)
    ensures cs[i].parentId.value in f.nodes
    ensures cs[i].id in f.nodes[cs[i].parentId.value].replies
  {
    var p := cs[i].parentId.value;
    var j :| 0 <= j < |cs| && cs[j].id == p;
    RepliesMember(cs, p, cs[i].id);
  }

  /** Every input comment is placed exactly once: either once among the
      roots and in no reply list, or once in its parent's replies, in no
      other reply list and not among the roots. */
  lemma PlacedExactlyOnce(cs: seq<Comment>, f: Forest, i: int)
    requires DistinctIds(cs) && IsTreeOf(f, cs) && 0 <= i < |cs|
    ensures IsRootIn(cs[i], IdSet(cs)) ==>
              && multiset(f.roots)[cs[i].id] == 1
              && forall p :: p in f.nodes ==> multiset(f.nodes[p].replies)[cs[i].id] == 0
    ensures !IsRootIn(cs[i], IdSet(cs)) ==>
              && multiset(f.roots)[cs[i].id] == 0
              && cs[i].parentId.value in f.nodes
              && multiset(f.nodes[cs[i].parentId.value].replies)[cs[i].id] == 1
              && forall p :: p in f.nodes && p != cs[i].parentId.value ==>
                               multiset(f.nodes[p].replies)[cs[i].id] == 0
  {
    var ids := IdSet(cs);
    RootsCount(cs, ids, i);
    forall p | p in f.nodes
      ensures multiset(f.nodes[p].replies)[cs[i].id] == if cs[i].parentId == Some(p) then 1 else 0
    {
      var j :| 0 <= j < |cs| && cs[j].id == p;
      RepliesCount(cs, p, i);
    }
  }

  /** Roots keep the input order: of two root comments, the earlier one's id
      comes first in `roots`. */
  lemma {:induction false} RootsKeepInputOrder(xs: seq<Comment>, ids: set<int>, j: int, k: int)
    returns (a: nat, b: nat)
    requires 0 <= j < k < |xs| && IsRootIn(xs[j], ids) && IsRootIn(xs[k], ids)
    ensures a < b < |RootsIn(xs, ids)|
    ensures RootsIn(xs, ids)[a] == xs[j].id && RootsIn(xs, ids)[b] == xs[k].id
  {
    var init := xs[..|xs| - 1];
    assert RootsIn(xs, ids) == RootsIn(init, ids) + (if IsRootIn(xs[|xs| - 1], ids) then [xs[|xs| - 1].id] else []);
    if k == |xs| - 1 {
      RootsMember(init, ids, xs[j].id);
      assert xs[j] in init;
      a :| 0 <= a < |RootsIn(init, ids)| && RootsIn(init, ids)[a] == xs[j].id;
      b := |RootsIn(init, ids)|;
    } else {
      a, b := RootsKeepInputOrder(init, ids, j, k);
    }
  }

  /** Replies keep the input order: of two replies to the same parent, the
      earlier comment's id comes first in that parent's `replies`. */
  lemma {:induction false} RepliesKeepInputOrder(xs: seq<Comment>, p: int, j: int, k: int)
    returns (a: nat, b: nat)
    requires 0 <= j < k < |xs| && xs[j].parentId == Some(p) && xs[k].parentId == Some(p)
    ensures a < b < |RepliesOf(xs, p)|
    ensures RepliesOf(xs, p)[a] == xs[j].id && RepliesOf(xs, p)[b] == xs[k].id
  {
    var init := xs[..|xs| - 1];
    assert RepliesOf(xs, p) == RepliesOf(init, p) + (if xs[|xs| - 1].parentId == Some(p) then [xs[|xs| - 1].id] else []);
    if k == |xs| - 1 {
      RepliesMember(init, p, xs[j].id);
      assert xs[j] in init;
      a :| 0 <= a < |RepliesOf(init, p)| && RepliesOf(init, p)[a] == xs[j].id;
      b := |RepliesOf(init, p)|;
    } else {
      a, b := RepliesKeepInputOrder(init, p, j, k);
    }
  }

  // ---------------------------------------------------------------------
  // Counting: roots plus all reply lists hold as many ids as the input

  /** The ids of `cs`, in order. */
  function IdList(cs: seq<Comment>): (ps: seq<int>)
    ensures |ps| == |cs| && forall i :: 0 <= i < |cs| ==> ps[i] == cs[i].id
  {
    if cs == [] then [] else [cs[0].id] + IdList(cs[1..])
  }

  /** The total length of the reply lists of the nodes `ps`. */
  function ReplyTotal(f: Forest, ps: seq<int>): nat
    requires forall k :: 0 <= k < |ps| ==> ps[k] in f.nodes
  {
    if ps == [] then 0 else |f.nodes[ps[0]].replies| + ReplyTotal(f, ps[1..])
  }

  function ReplyTotalIn(xs: seq<Comment>, ps: seq<int>): nat {
    if ps == [] then 0 else |RepliesOf(xs, ps[0])| + ReplyTotalIn(xs, ps[1..])
  }

  /** How many of `ps` equal the parent id `parent`. */
  function ParentHits(ps: seq<int>, parent: Option<int>): nat {
    if ps == [] then 0 else (if parent == Some(ps[0]) then 1 else 0) + ParentHits(ps[1..], parent)
  }

  lemma {:induction false} ParentHitsDistinct(ps: seq<int>, parent: Option<int>)
    requires forall a, b :: 0 <= a < b < |ps| ==> ps[a] != ps[b]
    ensures ParentHits(ps, parent) == if parent.Some? && parent.value in ps then 1 else 0
  {
    if ps != [] {
      ParentHitsDistinct(ps[1..], parent);
      if parent == Some(ps[0]) {
        assert ps[0] !in ps[1..];
      } else {
        assert parent.Some? && parent.value in ps ==> parent.value in ps[1..];
      }
    }
  }

  lemma {:induction false} ReplyTotalStep(init: seq<Comment>, c: Comment, ps: seq<int>)
    ensures ReplyTotalIn(init + [c], ps) == ReplyTotalIn(init, ps) + ParentHits(ps, c.parentId)
  {
    if ps != [] {
      assert (init + [c])[..|init + [c]| - 1] == init;
      ReplyTotalStep(init, c, ps[1..]);
    }
  }

  lemma {:induction false} CountsAddUp(xs: seq<Comment>, ps: seq<int>)
    requires forall a, b :: 0 <= a < b < |ps| ==> ps[a] != ps[b]
    ensures |RootsIn(xs, set p | p in ps)| + ReplyTotalIn(xs, ps) == |xs|
  {
    var ids := set p | p in ps;
    if xs == [] {
      ReplyTotalEmpty(ps);
    } else {
      var init := xs[..|xs| - 1];
      var c := xs[|xs| - 1];
      assert xs == init + [c];
      CountsAddUp(init, ps);
      ReplyTotalStep(init, c, ps);
      ParentHitsDistinct(ps, c.parentId);
    }
  }

  lemma {:induction false} ReplyTotalEmpty(ps: seq<int>)
    ensures ReplyTotalIn([], ps) == 0
  {
    if ps != [] { ReplyTotalEmpty(ps[1..]); }
  }

  lemma {:induction false} ReplyTotalMatches(cs: seq<Comment>, f: Forest, ps: seq<int>)
    requires IsTreeOf(f, cs)
    requires forall k :: 0 <= k < |ps| ==> ps[k] in f.nodes
    ensures ReplyTotal(f, ps) == ReplyTotalIn(cs, ps)
  {
    if ps != [] {
      assert ps[0] in IdSet(cs);
      var c :| c in cs && c.id == ps[0];
      var j :| 0 <= j < |cs| && cs[j] == c;
      ReplyTotalMatches(cs, f, ps[1..]);
    }
  }

  lemma InputCountsAddUp(cs: seq<Comment>)
    requires DistinctIds(cs)
    ensures |RootsIn(cs, IdSet(cs))| + ReplyTotalIn(cs, IdList(cs)) == |cs|
  {
    var ps := IdList(cs);
    assert forall a, b :: 0 <= a < b < |ps| ==> ps[a] != ps[b];
    forall p | p in IdSet(cs) ensures p in ps {
      var j := IdIndex(cs, p);
      assert ps[j] == p;
    }
    assert (set p | p in ps) == IdSet(cs);
    CountsAddUp(cs, ps);
  }

  /** `roots.length` plus the lengths of every node's `replies` is the number
      of input comments: nothing is lost and nothing is duplicated. */
  lemma PlacementCount(cs: seq<Comment>, f: Forest)
    requires DistinctIds(cs) && IsTreeOf(f, cs)
    ensures forall k :: 0 <= k < |cs| ==> IdList(cs)[k] in f.nodes
    ensures |f.roots| + ReplyTotal(f, IdList(cs)) == |cs|
  {
    var ps := IdList(cs);
    forall k | 0 <= k < |cs| ensures ps[k] in f.nodes {
      assert cs[k] in cs;
      assert ps[k] in IdSet(cs);
    }
    ReplyTotalMatches(cs, f, ps);
    InputCountsAddUp(cs);
  }

  // ---------------------------------------------------------------------
  // Reachability when the parent links are acyclic

  /** `path` starts at a root and each later id is a reply of the one before. */
  ghost predicate IsPath(f: Forest, path: seq<int>) {
    && |path| > 0
    && path[0] in f.roots
    && forall k :: 0 <= k < |path| - 1 ==>
         path[k] in f.nodes && path[k + 1] in f.nodes[path[k]].replies
  }

  /** The parent links are acyclic, witnessed by a rank that strictly grows
      from every present parent to its child (a finite graph has such a
      rank exactly when it has no cycle). */
  ghost predicate RankedParents(cs: seq<Comment>, rank: int -> nat) {
    forall i :: 0 <= i < |cs| && !IsRootIn(cs[i], IdSet(cs)) ==>
      rank(cs[i].parentId.value) < rank(cs[i].id)
  }

  /** If the parent graph is acyclic, every input comment is reached from a
      root by following `replies`. */
  lemma {:induction false} ReachableFromRoot(cs: seq<Comment>, f: Forest, rank: int -> nat, i: int)
    returns (path: seq<int>)
    requires IsTreeOf(f, cs) && RankedParents(cs, rank) && 0 <= i < |cs|
    ensures IsPath(f, path) && path[|path| - 1] == cs[i].id
    decreases rank(cs[i].id)
  {
    var c := cs[i];
    if IsRootIn(c, IdSet(cs)) {
      RootsMember(cs, IdSet(cs), c.id);
      path := [c.id];
    } else {
      var p := c.parentId.value;
      var j :| 0 <= j < |cs| && cs[j].id == p;
      var up := ReachableFromRoot(cs, f, rank, j);
      RepliesMember(cs, p, c.id);
      path := up + [c.id];
      assert forall k :: 0 <= k < |up| ==> path[k] == up[k];
    }
  }

  /** The index of the first comment of `cs` with id `x` (or `|cs|`). */
  function IndexOf(cs: seq<Comment>, x: int): (k: nat)
    ensures k <= |cs| && (k < |cs| ==> cs[k].id == x)
    ensures forall j :: 0 <= j < k ==> cs[j].id != x
  {
    if cs == [] then 0 else if cs[0].id == x then 0 else 1 + IndexOf(cs[1..], x)
  }

  /** Every reply's parent was created before it (the order in which the
      server lists a post's comments when each reply names an existing comment). */
  ghost predicate ParentsPrecede(cs: seq<Comment>) {
    forall i :: 0 <= i < |cs| && !IsRootIn(cs[i], IdSet(cs)) ==>
      exists j :: 0 <= j < i && cs[j].id == cs[i].parentId.value
  }

  /** When parents precede their replies, every comment is reachable from a root. */
  lemma ReachableInCreationOrder(cs: seq<Comment>, f: Forest, i: int) returns (path: seq<int>)
    requires DistinctIds(cs) && IsTreeOf(f, cs) && ParentsPrecede(cs) && 0 <= i < |cs|
    ensures IsPath(f, path) && path[|path| - 1] == cs[i].id
  {
    var rank := (x: int) => IndexOf(cs, x);
    forall k | 0 <= k < |cs| && !IsRootIn(cs[k], IdSet(cs))
      ensures rank(cs[k].parentId.value) < rank(cs[k].id)
    {
      var j :| 0 <= j < k && cs[j].id == cs[k].parentId.value;
      assert IndexOf(cs, cs[k].id) == k;
      assert IndexOf(cs, cs[j].id) <= j;
    }
    path := ReachableFromRoot(cs, f, rank, i);
  }
}
