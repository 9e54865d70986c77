/** Thread roots and reply lists of a set of posts. */
module Threads {
  import opened Common

  datatype Post = Post(id: int, parentId: Option<int>, createdAt: int)

  /** `new Map(id -> post)`; of posts that share an id the last one stays. */
  function Index(posts: seq<Post>): (index: map<int, Post>)
    ensures forall id :: id in index ==> index[id] in posts && index[id].id == id
    ensures forall p :: p in posts ==> p.id in index
    ensures |index| <= |posts|
  {
    if posts == [] then map[]
    else
      var last := posts[|posts| - 1];
      Index(posts[..|posts| - 1])[last.id := last]
  }

  /** The parent, when it is set and present. */
  function Parent(index: map<int, Post>, id: int): Option<int>
    requires id in index
    ensures Parent(index, id).Some? ==> Parent(index, id).value in index
  {
    var parent := index[id].parentId;
    if parent.Some? && parent.value in index then parent else None
  }

  /** `isTopLevel`. */
  predicate IsTopLevel(post: Post, index: map<int, Post>)
  {
    post.parentId == None || post.parentId.value !in index
  }

  /** k parent steps, staying put at a post without present parent. */
  ghost function Ancestor(index: map<int, Post>, id: int, k: nat): (a: int)
    requires id in index
    ensures a in index
    decreases k
  {
    if k == 0 then id
    else
      var parent := Parent(index, id);
      if parent == None then id else Ancestor(index, parent.value, k - 1)
  }

  ghost predicate Reaches(index: map<int, Post>, id: int, a: int)
    requires id in index
  {
    exists k: nat :: Ancestor(index, id, k) == a
  }

  ghost predicate OnCycle(index: map<int, Post>, id: int)
    requires id in index
  {
    Parent(index, id).Some? && exists k: nat :: 1 <= k && Ancestor(index, id, k) == id
  }

  ghost predicate Acyclic(index: map<int, Post>)
  {
    forall id :: id in index ==> !OnCycle(index, id)
  }

  /** Where a finite map of roots stands: closed under parents, and right about everything it holds. */
  ghost predicate Settled(index: map<int, Post>, roots: map<int, int>)
  {
    forall id :: id in roots ==>
      && id in index
      && roots[id] in roots && roots[roots[id]] == roots[id]
      && (Parent(index, id) == None ==> roots[id] == id)
      && (Parent(index, id).Some? ==> Parent(index, id).value in roots && roots[Parent(index, id).value] == roots[id])
      && Reaches(index, id, roots[id])
      && roots[id] in index
      && (Parent(index, roots[id]).Some? ==> OnCycle(index, roots[id]))
  }

  // -------------------------------------------------------------- root finding --

  lemma {:induction false} AncestorAdd(index: map<int, Post>, id: int, j: nat, k: nat)
    requires id in index
    ensures Ancestor(index, id, j + k) == Ancestor(index, Ancestor(index, id, j), k)
    decreases j
  {
    if j != 0 {
      if Parent(index, id).Some? {
        AncestorAdd(index, Parent(index, id).value, j - 1, k);
      } else if k != 0 {
        assert Ancestor(index, id, k) == id;
      }
    }
  }

  /** A stretch of parent links. */
  ghost predicate Chain(index: map<int, Post>, path: seq<int>)
  {
    && (forall i :: 0 <= i < |path| ==> path[i] in index)
    && (forall i :: 0 <= i < |path| - 1 ==> Parent(index, path[i]) == Some(path[i + 1]))
  }

  lemma {:induction false} AncestorAlong(index: map<int, Post>, path: seq<int>, i: nat, j: nat)
    requires Chain(index, path) && i <= j < |path|
    ensures Ancestor(index, path[i], j - i) == path[j]
    decreases j - i
  {
    if i < j {
      AncestorAlong(index, path, i + 1, j);
    }
  }

  /** How the walk along `path` may end, and with which root. */
  ghost predicate Ends(index: map<int, Post>, roots: map<int, int>, path: seq<int>, root: int)
    requires path != [] && Chain(index, path)
  {
    var parent := Parent(index, path[|path| - 1]);
    || (parent == None && root == path[|path| - 1])
    || (parent.Some? && parent.value in roots && root == roots[parent.value])
    || (parent == Some(root) && root in path)
  }

  ghost function Elements(path: seq<int>): set<int>
  {
    set i | 0 <= i < |path| :: path[i]
  }

  ghost function Extended(roots: map<int, int>, path: seq<int>, root: int): map<int, int>
  {
    roots + map id | id in Elements(path) :: root
  }

  lemma EndReached(index: map<int, Post>, roots: map<int, int>, path: seq<int>, root: int)
    requires Settled(index, roots) && path != [] && Chain(index, path) && Ends(index, roots, path, root)
    ensures root in index && Reaches(index, path[|path| - 1], root)
    ensures Parent(index, root).Some? ==> OnCycle(index, root)
  {
    var last := path[|path| - 1];
    var parent := Parent(index, last);
    if parent == None {
      assert Ancestor(index, last, 0) == root;
    } else if parent.value in roots && root == roots[parent.value] {
      var k: nat :| root == Ancestor(index, parent.value, k);
      assert Ancestor(index, last, k + 1) == root;
    } else {
      assert Ancestor(index, root, 0) == root;
      assert Ancestor(index, last, 1) == root;
      var m :| 0 <= m < |path| && path[m] == root;
      AncestorAlong(index, path, m, |path| - 1);
      AncestorAdd(index, root, |path| - 1 - m, 1);
      assert Ancestor(index, root, |path| - 1 - m + 1) == root;
    }
  }

  /** Handing the root to the whole path keeps everything settled. */
  lemma ExtendedIsSettled(index: map<int, Post>, roots: map<int, int>, path: seq<int>, root: int)
    requires Settled(index, roots) && path != [] && Chain(index, path) && Ends(index, roots, path, root)
    requires forall i :: 0 <= i < |path| ==> path[i] !in roots
    ensures Settled(index, Extended(roots, path, root))
  {
    hide Reaches, Ends, OnCycle;
    var more := Extended(roots, path, root);
    EndReached(index, roots, path, root);
    forall id | id in Elements(path)
      ensures Reaches(index, id, root)
      ensures Parent(index, id) == None ==> root == id
      ensures Parent(index, id).Some? ==> Parent(index, id).value in more && more[Parent(index, id).value] == root
    {
      var i :| 0 <= i < |path| && path[i] == id;
      PathEntry(index, roots, path, root, i);
    }
    RootIsKept(index, roots, path, root);
  }

  lemma PathEntry(index: map<int, Post>, roots: map<int, int>, path: seq<int>, root: int, i: nat)
    requires path != [] && Chain(index, path) && Ends(index, roots, path, root) && i < |path|
    requires Reaches(index, path[|path| - 1], root)
    requires forall i :: 0 <= i < |path| ==> path[i] !in roots
    ensures Reaches(index, path[i], root)
    ensures var parent, more := Parent(index, path[i]), Extended(roots, path, root);
      if parent == None then root == path[i] else parent.value in more && more[parent.value] == root
  {
    var last := |path| - 1;
    AncestorAlong(index, path, i, last);
    var k: nat :| Ancestor(index, path[last], k) == root;
    AncestorAdd(index, path[i], last - i, k);
    if i < last {
      assert Parent(index, path[i]) == Some(path[i + 1]);
      assert path[i + 1] in Elements(path);
    }
  }

  lemma SettledAt(index: map<int, Post>, roots: map<int, int>, id: int)
    requires Settled(index, roots) && id in roots
    ensures id in index && roots[id] in roots && roots[roots[id]] == roots[id] && roots[id] in index
  {
  }

  lemma RootIsKept(index: map<int, Post>, roots: map<int, int>, path: seq<int>, root: int)
    requires Settled(index, roots) && path != [] && Chain(index, path) && Ends(index, roots, path, root)
    requires forall i :: 0 <= i < |path| ==> path[i] !in roots
    ensures root in Extended(roots, path, root) && Extended(roots, path, root)[root] == root
  {
    var last := path[|path| - 1];
    assert last in Elements(path);
    if root in path {
      var i :| 0 <= i < |path| && path[i] == root;
      assert path[i] in Elements(path);
    } else if Parent(index, last).Some? {
      SettledAt(index, roots, Parent(index, last).value);
    }
  }

  lemma ElementsSnoc(path: seq<int>, x: int)
    ensures Elements(path + [x]) == Elements(path) + {x}
  {
    var more := path + [x];
    forall y | y in Elements(path) + {x} ensures y in Elements(more) {
      if y == x {
        assert more[|path|] == x;
      } else {
        var i :| 0 <= i < |path| && path[i] == y;
        assert more[i] == y;
      }
    }
  }

  /** The `for (const id of path)` loops. */
  method Propagate(roots: map<int, int>, path: seq<int>, root: int) returns (more: map<int, int>)
    ensures more == Extended(roots, path, root)
  {
    more := roots;
    for i := 0 to |path|
      invariant more == Extended(roots, path[..i], root)
    {
      assert path[..i + 1] == path[..i] + [path[i]];
      ElementsSnoc(path[..i], path[i]);
      more := more[path[i] := root];
    }
    assert path[..|path|] == path;
  }

  lemma {:induction false} ElementsSize(path: seq<int>)
    requires forall i, j :: 0 <= i < j < |path| ==> path[i] != path[j]
    ensures |Elements(path)| == |path|
  {
    if path != [] {
      var front, last := path[..|path| - 1], path[|path| - 1];
      ElementsSize(front);
      assert Elements(path) == Elements(front) + {last};
      assert last !in Elements(front);
    }
  }

  lemma ExtendedSize(roots: map<int, int>, path: seq<int>, root: int)
    requires forall i :: 0 <= i < |path| ==> path[i] !in roots
    requires forall i, j :: 0 <= i < j < |path| ==> path[i] != path[j]
    ensures |Extended(roots, path, root)| == |roots| + |path|
  {
    ElementsSize(path);
    assert Extended(roots, path, root).Keys == roots.Keys + Elements(path);
    assert roots.Keys !! Elements(path);
    assert |roots.Keys + Elements(path)| == |roots.Keys| + |Elements(path)|;
  }

  /** The posts a walk has passed: a chain from the start, without repetition, none of them resolved before. */
  ghost predicate Walked(index: map<int, Post>, roots: map<int, int>, start: int, path: seq<int>)
  {
    && Chain(index, path)
    && (path != [] ==> path[0] == start)
    && (forall i :: 0 <= i < |path| ==> path[i] !in roots)
    && (forall i, j :: 0 <= i < j < |path| ==> path[i] != path[j])
  }

  /** Where the walk stands next: at the start, or at the parent of the last post passed. */
  ghost predicate At(index: map<int, Post>, start: int, path: seq<int>, cur: int)
    requires Chain(index, path)
  {
    cur in index && if path == [] then cur == start else Parent(index, path[|path| - 1]) == Some(cur)
  }

  lemma WalkOn(index: map<int, Post>, roots: map<int, int>, start: int, path: seq<int>, cur: int)
    requires Walked(index, roots, start, path) && At(index, start, path, cur)
    requires cur !in roots && cur !in Elements(path)
    ensures Walked(index, roots, start, path + [cur])
    ensures Elements(path + [cur]) == Elements(path) + {cur}
  {
    ElementsSnoc(path, cur);
  }

  /** The first post on a cycle that the walk from `id` meets. */
  ghost predicate EntryAt(index: map<int, Post>, id: int, c: int, k: nat)
    requires id in index
  {
    && Ancestor(index, id, k) == c && OnCycle(index, c)
    && forall m: nat :: m < k ==> !OnCycle(index, Ancestor(index, id, m))
  }

  ghost predicate IsEntry(index: map<int, Post>, id: int, c: int)
    requires id in index
  {
    exists k: nat :: EntryAt(index, id, c, k)
  }

  /** Where a root that a walk hands out may come from: it was handed out before, ends the walk, or is the post at which
      the walk from the start enters a cycle not seen before. */
  ghost predicate Origin(index: map<int, Post>, roots: map<int, int>, start: int, root: int)
    requires start in index
  {
    || (root in roots && roots[root] == root)
    || (root in index && Parent(index, root) == None)
    || (root !in roots && IsEntry(index, start, root))
  }

  /** From a post on the closed end of a path the walk never leaves that end. */
  lemma {:induction false} LoopClosed(index: map<int, Post>, path: seq<int>, m: nat, k: nat) returns (q: nat)
    requires Chain(index, path) && m < |path| && Parent(index, path[|path| - 1]) == Some(path[m])
    ensures m <= q < |path| && Ancestor(index, path[m], k) == path[q]
  {
    if k == 0 {
      q := m;
    } else {
      q := LoopClosed(index, path, m, k - 1);
      AncestorAdd(index, path[m], k - 1, 1);
      assert q < |path| - 1 ==> Parent(index, path[q]) == Some(path[q + 1]);
      StepOne(index, path[q]);
      q := if q == |path| - 1 then m else q + 1;
    }
  }

  lemma StepOne(index: map<int, Post>, id: int)
    requires id in index && Parent(index, id).Some?
    ensures Ancestor(index, id, 1) == Parent(index, id).value
  {
    assert Ancestor(index, Parent(index, id).value, 0) == Parent(index, id).value;
  }

  /** Posts before the closed end of a path without repetition are on no cycle. */
  lemma BeforeLoop(index: map<int, Post>, path: seq<int>, m: nat, h: nat)
    requires Chain(index, path) && h < m < |path| && Parent(index, path[|path| - 1]) == Some(path[m])
    requires forall i, j :: 0 <= i < j < |path| ==> path[i] != path[j]
    ensures !OnCycle(index, path[h])
  {
    if OnCycle(index, path[h]) {
      var period: nat :| 1 <= period && Ancestor(index, path[h], period) == path[h];
      var far := period * (m - h);
      CycleRepeats(index, path[h], period, m - h);
      TimesAtLeast(period, m - h);
      AncestorAlong(index, path, h, m);
      AncestorAdd(index, path[h], m - h, far - (m - h));
      var q := LoopClosed(index, path, m, far - (m - h));
    }
  }

  lemma WalkOrigin(index: map<int, Post>, roots: map<int, int>, start: int, path: seq<int>, root: int)
    requires Settled(index, roots) && Walked(index, roots, start, path) && path != [] && Ends(index, roots, path, root)
    ensures start in index && Origin(index, roots, start, root)
  {
    var parent := Parent(index, path[|path| - 1]);
    if parent == Some(root) && root in path {
      var m :| 0 <= m < |path| && path[m] == root;
      assert m < |path| - 1 ==> Parent(index, path[m]) == Some(path[m + 1]);
      EndReached(index, roots, path, root);
      AncestorAlong(index, path, 0, m);
      forall h: nat | h < m ensures !OnCycle(index, Ancestor(index, start, h)) {
        AncestorAlong(index, path, 0, h);
        BeforeLoop(index, path, m, h);
      }
      assert EntryAt(index, start, root, m);
    } else if parent.Some? {
      SettledAt(index, roots, parent.value);
    }
  }

  /** What a walk from `start` adds. */
  ghost predicate Grows(index: map<int, Post>, roots: map<int, int>, start: int, more: map<int, int>)
    requires start in index
  {
    && (forall id :: id in roots ==> id in more && more[id] == roots[id])
    && (forall id :: id in more && id !in roots ==> Origin(index, roots, start, more[id]))
  }

  lemma WalkDone(index: map<int, Post>, roots: map<int, int>, start: int, path: seq<int>, root: int)
    requires Settled(index, roots) && Walked(index, roots, start, path) && path != [] && Ends(index, roots, path, root)
    ensures var more := Extended(roots, path, root);
      && Settled(index, more) && start in more && |more| == |roots| + |path|
      && start in index && Grows(index, roots, start, more)
  {
    hide Settled, Ends, Origin;
    ExtendedIsSettled(index, roots, path, root);
    ExtendedSize(roots, path, root);
    WalkOrigin(index, roots, start, path, root);
    assert path[0] in Elements(path);
  }

  /** The walk from one start: the inner `while (true)`. */
  method Resolve(index: map<int, Post>, roots: map<int, int>, start: int) returns (more: map<int, int>, ghost steps: nat)
    requires start in index && start !in roots && Settled(index, roots)
    ensures Settled(index, more) && start in more && Grows(index, roots, start, more)
    ensures steps <= 2 * (|more| - |roots|)
  {
    hide Settled, Walked, Extended, Grows;
    var path: seq<int> := [];
    var visited: set<int> := {};
    var cur := start;
    steps := 0;
    WalkStarts(index, roots, start);
    while true
      invariant steps == |path|
      invariant Walked(index, roots, start, path) && Chain(index, path) && At(index, start, path, cur)
      invariant visited == Elements(path)
      decreases index.Keys - visited
    {
      steps := steps + 1;
      if cur in roots {
        more := Propagate(roots, path, roots[cur]);
        WalkDone(index, roots, start, path, roots[cur]);
        return;
      }
      if cur in visited {
        more := Propagate(roots, path, cur);
        WalkDone(index, roots, start, path, cur);
        more := more[cur := cur];
        AlreadyThere(roots, path, cur);
        return;
      }
      WalkOn(index, roots, start, path, cur);
      WalkedChain(index, roots, start, path + [cur]);
      visited := visited + {cur};
      path := path + [cur];

      var node := index[cur];
      if node.parentId == None {
        more := Propagate(roots, path, cur);
        WalkDone(index, roots, start, path, cur);
        return;
      }
      if node.parentId.value !in index {
        more := Propagate(roots, path, cur);
        WalkDone(index, roots, start, path, cur);
        return;
      }
      cur := node.parentId.value;
    }
  }

  lemma WalkStarts(index: map<int, Post>, roots: map<int, int>, start: int)
    ensures Walked(index, roots, start, []) && Elements([]) == {}
  {
  }

  lemma WalkedChain(index: map<int, Post>, roots: map<int, int>, start: int, path: seq<int>)
    requires Walked(index, roots, start, path)
    ensures Chain(index, path)
  {
  }

  lemma AlreadyThere(roots: map<int, int>, path: seq<int>, cur: int)
    requires cur in Elements(path)
    ensures Extended(roots, path, cur)[cur := cur] == Extended(roots, path, cur)
  {
  }

  /** The root is where the earliest listed post that leads to it enters its cycle. */
  ghost predicate LedBy(posts: seq<Post>, index: map<int, Post>, j: nat, root: int)
    requires j < |posts| && forall p :: p in posts ==> p.id in index
  {
    IsEntry(index, posts[j].id, root) && forall h :: 0 <= h < j ==> !Reaches(index, posts[h].id, root)
  }

  /** Every root on a cycle was chosen so, among the first n posts. */
  ghost predicate CyclesSettled(posts: seq<Post>, index: map<int, Post>, n: nat, roots: map<int, int>)
    requires n <= |posts| && forall p :: p in posts ==> p.id in index
  {
    forall id :: id in roots && roots[id] in index && OnCycle(index, roots[id]) ==>
      exists j :: 0 <= j < n && LedBy(posts, index, j, roots[id])
  }

  lemma {:induction false} SettledClosed(index: map<int, Post>, roots: map<int, int>, id: int, k: nat)
    requires Settled(index, roots) && id in roots && id in index
    ensures Ancestor(index, id, k) in roots
    decreases k
  {
    if k != 0 && Parent(index, id).Some? {
      SettledClosed(index, roots, Parent(index, id).value, k - 1);
    }
  }

  lemma OriginLed(posts: seq<Post>, index: map<int, Post>, i: nat, roots: map<int, int>, root: int)
    requires i < |posts| && forall p :: p in posts ==> p.id in index
    requires Settled(index, roots) && CyclesSettled(posts, index, i, roots)
    requires forall h :: 0 <= h < i ==> posts[h].id in roots
    requires Origin(index, roots, posts[i].id, root) && root in index && OnCycle(index, root)
    ensures exists j :: 0 <= j < i + 1 && LedBy(posts, index, j, root)
  {
    if root !in roots {
      forall h | 0 <= h < i ensures !Reaches(index, posts[h].id, root) {
        if Reaches(index, posts[h].id, root) {
          var k: nat :| Ancestor(index, posts[h].id, k) == root;
          SettledClosed(index, roots, posts[h].id, k);
        }
      }
      assert LedBy(posts, index, i, root);
    }
  }

  lemma CyclesStep(posts: seq<Post>, index: map<int, Post>, i: nat, roots: map<int, int>, more: map<int, int>)
    requires i < |posts| && forall p :: p in posts ==> p.id in index
    requires Settled(index, roots) && CyclesSettled(posts, index, i, roots)
    requires forall h :: 0 <= h < i ==> posts[h].id in roots
    requires more == roots || Grows(index, roots, posts[i].id, more)
    ensures CyclesSettled(posts, index, i + 1, more)
  {
    hide Origin, LedBy, OnCycle, Settled;
    forall id | id in more && more[id] in index && OnCycle(index, more[id])
      ensures exists j :: 0 <= j < i + 1 && LedBy(posts, index, j, more[id])
    {
      if id !in roots {
        OriginLed(posts, index, i, roots, more[id]);
      }
    }
  }

  /** `computeRootMap`, with the number of inner iterations it made. */
  method ComputeRootMap(posts: seq<Post>) returns (roots: map<int, int>, ghost steps: nat)
    ensures Settled(Index(posts), roots) && roots.Keys == Index(posts).Keys
    ensures CyclesSettled(posts, Index(posts), |posts|, roots)
    ensures steps <= 2 * |posts|
  {
    hide Settled, CyclesSettled, Grows;
    var index := Index(posts);
    roots := map[];
    steps := 0;
    NothingSettled(index);
    NoCycleSettled(posts, index);
    for i := 0 to |posts|
      invariant Settled(index, roots) && CyclesSettled(posts, index, i, roots)
      invariant forall j :: 0 <= j < i ==> posts[j].id in roots
      invariant steps <= 2 * |roots|
    {
      ghost var before := roots;
      if posts[i].id !in roots {
        ghost var walked: nat;
        roots, walked := Resolve(index, roots, posts[i].id);
        steps := steps + walked;
        GrowsKeeps(index, before, posts[i].id, roots);
      }
      CyclesStep(posts, index, i, before, roots);
    }
    SettledKeys(index, roots);
    forall id | id in index ensures id in roots {
      assert index[id] in posts;
    }
    assert roots.Keys == index.Keys;
    assert |roots.Keys| == |roots| && |index.Keys| == |index|;
  }

  lemma GrowsKeeps(index: map<int, Post>, roots: map<int, int>, start: int, more: map<int, int>)
    requires start in index && Grows(index, roots, start, more)
    ensures forall id :: id in roots ==> id in more
  {
  }

  lemma NoCycleSettled(posts: seq<Post>, index: map<int, Post>)
    requires forall p :: p in posts ==> p.id in index
    ensures CyclesSettled(posts, index, 0, map[])
  {
  }

  lemma NothingSettled(index: map<int, Post>)
    ensures Settled(index, map[])
  {
  }

  lemma SettledKeys(index: map<int, Post>, roots: map<int, int>)
    requires Settled(index, roots)
    ensures roots.Keys <= index.Keys
  {
    forall id | id in roots.Keys ensures id in index.Keys {
      assert id in roots;
    }
  }

  // ------------------------------------------------------ against the plain walk --

  /** Following parents as long as there is one; no chain without repetition is longer than the index. */
  ghost function PlainRoot(index: map<int, Post>, id: int): int
    requires id in index
  {
    Ancestor(index, id, |index|)
  }

  lemma {:induction false} Pigeonhole(s: seq<int>, holes: set<int>) returns (i: nat, j: nat)
    requires |s| > |holes| && forall k :: 0 <= k < |s| ==> s[k] in holes
    ensures i < j < |s| && s[i] == s[j]
  {
    var n := |s| - 1;
    if k :| 0 <= k < n && s[k] == s[n] {
      i, j := k, n;
    } else {
      assert |holes - {s[n]}| == |holes| - 1;
      i, j := Pigeonhole(s[..n], holes - {s[n]});
    }
  }

  lemma {:induction false} StaysAtRoot(index: map<int, Post>, id: int, j: nat, k: nat)
    requires id in index && j <= k && Parent(index, Ancestor(index, id, j)) == None
    ensures Ancestor(index, id, k) == Ancestor(index, id, j)
  {
    AncestorAdd(index, id, j, k - j);
  }

  /** The plain walk comes to a post without present parent. */
  ghost predicate WalkStops(index: map<int, Post>, id: int)
    requires id in index
  {
    Parent(index, PlainRoot(index, id)) == None
  }

  ghost predicate MeetsCycle(index: map<int, Post>, id: int)
    requires id in index
  {
    exists k: nat :: OnCycle(index, Ancestor(index, id, k))
  }

  /** The walk stops unless it comes to a cycle. */
  lemma WalkEnds(index: map<int, Post>, id: int)
    requires id in index
    ensures WalkStops(index, id) <==> !MeetsCycle(index, id)
  {
    var n := |index|;
    if !WalkStops(index, id) {
      var s := seq(n + 1, k requires 0 <= k <= n => Ancestor(index, id, k));
      var i, j := Pigeonhole(s, index.Keys);
      RepeatIsCycle(index, id, i, j, n);
    } else if MeetsCycle(index, id) {
      var k: nat :| OnCycle(index, Ancestor(index, id, k));
      CycleNeverEnds(index, id, k, n);
    }
  }

  /** Parent links have no cycle exactly when every walk stops. */
  lemma AcyclicMeansStops(index: map<int, Post>)
    ensures Acyclic(index) <==> forall id :: id in index ==> WalkStops(index, id)
  {
    forall id | id in index ensures WalkStops(index, id) <==> !MeetsCycle(index, id) {
      WalkEnds(index, id);
    }
    if !Acyclic(index) {
      var id :| id in index && OnCycle(index, id);
      assert Ancestor(index, id, 0) == id;
      assert MeetsCycle(index, id);
    }
  }

  lemma RepeatIsCycle(index: map<int, Post>, id: int, i: nat, j: nat, n: nat)
    requires id in index && i < j <= n && Ancestor(index, id, i) == Ancestor(index, id, j)
    requires Parent(index, Ancestor(index, id, n)).Some?
    ensures OnCycle(index, Ancestor(index, id, i))
  {
    if Parent(index, Ancestor(index, id, i)) == None {
      StaysAtRoot(index, id, i, n);
    } else {
      AncestorAdd(index, id, i, j - i);
    }
  }

  /** Where the plain walk stops, the computed root is the post it stops at. */
  lemma RootIsPlainRoot(index: map<int, Post>, roots: map<int, int>, id: int)
    requires Settled(index, roots) && id in roots && WalkStops(index, id)
    ensures roots[id] == PlainRoot(index, id)
    ensures Parent(index, roots[id]) == None
  {
    var k: nat :| roots[id] == Ancestor(index, id, k);
    if k <= |index| {
      if Parent(index, roots[id]).Some? {
        RootHasNoParent(index, id, k);
      }
      StaysAtRoot(index, id, k, |index|);
    } else {
      StaysAtRoot(index, id, |index|, k);
    }
  }

  /** A post that the walk passes on its way to a stop is not on a cycle. */
  lemma RootHasNoParent(index: map<int, Post>, id: int, k: nat)
    requires id in index && WalkStops(index, id)
    ensures !OnCycle(index, Ancestor(index, id, k))
  {
    if OnCycle(index, Ancestor(index, id, k)) {
      CycleNeverEnds(index, id, k, |index|);
    }
  }

  /** When the walk from a post comes to a cycle, at c, the computed root lies on that cycle. */
  lemma RootIsOnCycle(index: map<int, Post>, roots: map<int, int>, id: int, k: nat)
    requires Settled(index, roots) && id in roots && OnCycle(index, Ancestor(index, id, k))
    ensures OnCycle(index, roots[id])
    ensures var c := Ancestor(index, id, k);
      Reaches(index, c, roots[id]) && Reaches(index, roots[id], c)
  {
    var root, c := roots[id], Ancestor(index, id, k);
    var m: nat :| root == Ancestor(index, id, m);
    CycleNeverEnds(index, id, k, m);
    LaterOnCycle(index, id, k, m);
    LaterOnCycle(index, id, m, k);
  }

  /** From a post on a cycle the walk reaches every other post that the same walk meets, earlier or later. */
  lemma LaterOnCycle(index: map<int, Post>, id: int, k: nat, m: nat)
    requires id in index && OnCycle(index, Ancestor(index, id, k)) && OnCycle(index, Ancestor(index, id, m))
    ensures Reaches(index, Ancestor(index, id, k), Ancestor(index, id, m))
  {
    var root := Ancestor(index, id, m);
    var period: nat :| 1 <= period && Ancestor(index, root, period) == root;
    CycleRepeats(index, root, period, k);
    TimesAtLeast(period, k);
    var far := m + period * k;
    AncestorAdd(index, id, m, period * k);
    AncestorAdd(index, id, k, far - k);
    assert Ancestor(index, Ancestor(index, id, k), far - k) == root;
  }

  lemma {:induction false} CycleRepeats(index: map<int, Post>, c: int, period: nat, times: nat)
    requires c in index && Ancestor(index, c, period) == c
    ensures Ancestor(index, c, period * times) == c
  {
    if times != 0 {
      CycleRepeats(index, c, period, times - 1);
      AncestorAdd(index, c, period, period * (times - 1));
      assert period * times == period + period * (times - 1);
    }
  }

  lemma CycleNeverEnds(index: map<int, Post>, id: int, k: nat, m: nat)
    requires id in index && OnCycle(index, Ancestor(index, id, k))
    ensures Parent(index, Ancestor(index, id, m)).Some?
  {
    if Parent(index, Ancestor(index, id, m)) == None {
      if m <= k {
        StaysAtRoot(index, id, m, k);
      } else {
        var c := Ancestor(index, id, k);
        var period: nat :| 1 <= period && Ancestor(index, c, period) == c;
        CycleRepeats(index, c, period, m);
        AncestorAdd(index, id, k, m - k);
        TimesAtLeast(period, m);
        StaysAtRoot(index, c, m - k, period * m);
      }
    }
  }

  lemma TimesAtLeast(period: nat, m: nat)
    requires 1 <= period
    ensures m <= period * m
  {
  }

  /** The walk from a post into a cycle gets, as its root, the post at which the earliest listed post that leads into
      that cycle enters it. */
  lemma RootIsFirstMet(posts: seq<Post>, roots: map<int, int>, id: int)
    requires Settled(Index(posts), roots) && CyclesSettled(posts, Index(posts), |posts|, roots)
    requires id in roots && id in Index(posts) && MeetsCycle(Index(posts), id)
    ensures Reaches(Index(posts), id, roots[id])
    ensures exists j :: 0 <= j < |posts| && LedBy(posts, Index(posts), j, roots[id])
  {
    hide LedBy;
    var index := Index(posts);
    var k: nat :| OnCycle(index, Ancestor(index, id, k));
    RootIsOnCycle(index, roots, id, k);
    SettledAt(index, roots, id);
  }

  lemma ReachesTrans(index: map<int, Post>, a: int, b: int, c: int)
    requires a in index && b in index && Reaches(index, a, b) && Reaches(index, b, c)
    ensures Reaches(index, a, c)
  {
    var j: nat :| Ancestor(index, a, j) == b;
    var k: nat :| Ancestor(index, b, k) == c;
    AncestorAdd(index, a, j, k);
  }

  lemma EntryIsReached(index: map<int, Post>, id: int, c: int)
    requires id in index && IsEntry(index, id, c)
    ensures c in index && Reaches(index, id, c)
  {
    var k: nat :| EntryAt(index, id, c, k);
    assert Ancestor(index, id, k) == c;
  }

  lemma EntryUnique(index: map<int, Post>, id: int, c: int, d: int)
    requires id in index && IsEntry(index, id, c) && IsEntry(index, id, d)
    ensures c == d
  {
    var j: nat :| EntryAt(index, id, c, j);
    var k: nat :| EntryAt(index, id, d, k);
  }

  /** Two roots of one cycle, each led to by an earliest post, are the same. */
  lemma LedUnique(posts: seq<Post>, index: map<int, Post>, j: nat, k: nat, c: int, d: int)
    requires j <= k < |posts| && forall p :: p in posts ==> p.id in index
    requires LedBy(posts, index, j, c) && LedBy(posts, index, k, d) && c in index && Reaches(index, c, d)
    ensures c == d
  {
    EntryIsReached(index, posts[j].id, c);
    ReachesTrans(index, posts[j].id, c, d);
    assert j == k;
    EntryUnique(index, posts[j].id, c, d);
  }

  /** These properties determine the root map: there is no other way to choose the roots. */
  lemma RootMapIsUnique(posts: seq<Post>, a: map<int, int>, b: map<int, int>)
    requires var index := Index(posts);
      && Settled(index, a) && CyclesSettled(posts, index, |posts|, a) && a.Keys == index.Keys
      && Settled(index, b) && CyclesSettled(posts, index, |posts|, b) && b.Keys == index.Keys
    ensures a == b
  {
    hide Settled, CyclesSettled, LedBy, OnCycle, Reaches, Index, PlainRoot, Ancestor;
    var index := Index(posts);
    forall id | id in index ensures id in a && id in b && a[id] == b[id] {
      assert id in a.Keys && id in b.Keys;
      WalkEnds(index, id);
      if WalkStops(index, id) {
        RootIsPlainRoot(index, a, id);
        RootIsPlainRoot(index, b, id);
      } else {
        var n: nat :| OnCycle(index, Ancestor(index, id, n));
        RootsReach(index, a, b, id, n);
        RootIsFirstMet(posts, a, id);
        RootIsFirstMet(posts, b, id);
        var j :| 0 <= j < |posts| && LedBy(posts, index, j, a[id]);
        var k :| 0 <= k < |posts| && LedBy(posts, index, k, b[id]);
        if j <= k {
          LedUnique(posts, index, j, k, a[id], b[id]);
        } else {
          LedUnique(posts, index, k, j, b[id], a[id]);
        }
      }
    }
  }

  lemma RootsReach(index: map<int, Post>, a: map<int, int>, b: map<int, int>, id: int, n: nat)
    requires Settled(index, a) && Settled(index, b) && id in a && id in b && id in index
    requires OnCycle(index, Ancestor(index, id, n))
    ensures a[id] in index && b[id] in index && Reaches(index, a[id], b[id]) && Reaches(index, b[id], a[id])
  {
    hide OnCycle, Ancestor, Reaches;
    SettledAt(index, a, id);
    SettledAt(index, b, id);
    RootIsOnCycle(index, a, id, n);
    RootIsOnCycle(index, b, id, n);
    ReachesTrans(index, a[id], Ancestor(index, id, n), b[id]);
    ReachesTrans(index, b[id], Ancestor(index, id, n), a[id]);
  }

  /** Line 100 of the source equates `isTopLevel` with being one's own root: true exactly when no cycle exists. */
  lemma TopLevelIsOwnRoot(index: map<int, Post>, roots: map<int, int>)
    requires Settled(index, roots) && roots.Keys == index.Keys
    ensures (forall id :: id in index ==> (roots[id] == id <==> IsTopLevel(index[id], index))) <==> Acyclic(index)
  {
    if Acyclic(index) {
      AcyclicMeansStops(index);
      forall id | id in index ensures roots[id] == id <==> IsTopLevel(index[id], index) {
        RootIsPlainRoot(index, roots, id);
      }
    } else {
      var id :| id in index && OnCycle(index, id);
      RootIsOnCycle(index, roots, id, 0);
      var root := roots[id];
      assert roots[root] == root && !IsTopLevel(index[root], index);
    }
  }

  /** Two posts that answer each other: each has a root, neither is top-level. */
  lemma CycleExample()
    ensures var index := map[1 := Post(1, Some(2), 10), 2 := Post(2, Some(1), 20)];
      var roots := map[1 := 1, 2 := 1];
      Settled(index, roots) && roots[1] == 1 && !IsTopLevel(index[1], index)
  {
    var index := map[1 := Post(1, Some(2), 10), 2 := Post(2, Some(1), 20)];
    assert Ancestor(index, 1, 0) == 1;
    assert Ancestor(index, 2, 1) == 1;
    AncestorAdd(index, 1, 1, 1);
    assert Ancestor(index, 1, 2) == 1;
  }

  // ------------------------------------------------------------------ grouping --

  /** Replies to a root, in the order of the posts. */
  ghost function Replies(posts: seq<Post>, roots: map<int, int>, root: int): (replies: seq<Post>)
  {
    if posts == [] then []
    else
      var last := posts[|posts| - 1];
      Replies(posts[..|posts| - 1], roots, root) + if IsReply(roots, last, root) then [last] else []
  }

  predicate IsReply(roots: map<int, int>, p: Post, root: int)
  {
    p.id in roots && roots[p.id] == root && p.id != root
  }

  predicate SortedByTime(s: seq<Post>)
  {
    forall i, j :: 0 <= i < j < |s| ==> s[i].createdAt <= s[j].createdAt
  }

  ghost function AtTime(s: seq<Post>, t: int): seq<Post>
  {
    if s == [] then []
    else AtTime(s[..|s| - 1], t) + if s[|s| - 1].createdAt == t then [s[|s| - 1]] else []
  }

  /** A stable sort by creation time: in order, and equal times keep their order. */
  ghost predicate IsStableSort(before: seq<Post>, after: seq<Post>)
  {
    SortedByTime(after) && forall t :: AtTime(after, t) == AtTime(before, t)
  }

  /** Where a later post goes among sorted earlier ones: behind every post that is not newer. */
  function Insert(sorted: seq<Post>, p: Post): seq<Post>
  {
    if sorted != [] && sorted[|sorted| - 1].createdAt > p.createdAt then
      Insert(sorted[..|sorted| - 1], p) + [sorted[|sorted| - 1]]
    else sorted + [p]
  }

  /** `arr.sort((a, b) => a.createdAt - b.createdAt)`, which ECMAScript requires to be stable. */
  function Sort(s: seq<Post>): seq<Post>
  {
    if s == [] then [] else Insert(Sort(s[..|s| - 1]), s[|s| - 1])
  }

  lemma AtTimeSnoc(s: seq<Post>, p: Post, t: int)
    ensures AtTime(s + [p], t) == AtTime(s, t) + if p.createdAt == t then [p] else []
  {
    assert (s + [p])[..|s|] == s;
  }

  ghost predicate UpTo(s: seq<Post>, t: int)
  {
    forall i :: 0 <= i < |s| ==> s[i].createdAt <= t
  }

  lemma {:induction false} InsertSorted(sorted: seq<Post>, p: Post, t: int)
    requires SortedByTime(sorted) && UpTo(sorted, t) && p.createdAt <= t
    ensures SortedByTime(Insert(sorted, p)) && UpTo(Insert(sorted, p), t)
  {
    if sorted != [] && sorted[|sorted| - 1].createdAt > p.createdAt {
      var front, last := sorted[..|sorted| - 1], sorted[|sorted| - 1];
      InsertSorted(front, p, last.createdAt);
    }
  }

  lemma {:induction false} InsertAdds(sorted: seq<Post>, p: Post)
    ensures multiset(Insert(sorted, p)) == multiset(sorted) + multiset{p}
  {
    if sorted != [] && sorted[|sorted| - 1].createdAt > p.createdAt {
      var front, last := sorted[..|sorted| - 1], sorted[|sorted| - 1];
      InsertAdds(front, p);
      assert sorted == front + [last];
    }
  }

  lemma UpperBound(s: seq<Post>, p: Post) returns (t: int)
    requires SortedByTime(s)
    ensures UpTo(s, t) && p.createdAt <= t
  {
    t := if s != [] && s[|s| - 1].createdAt > p.createdAt then s[|s| - 1].createdAt else p.createdAt;
  }

  lemma {:induction false} InsertIsStable(sorted: seq<Post>, p: Post, t: int)
    ensures AtTime(Insert(sorted, p), t) == AtTime(sorted + [p], t)
  {
    hide AtTime;
    if sorted != [] && sorted[|sorted| - 1].createdAt > p.createdAt {
      var front, last := sorted[..|sorted| - 1], sorted[|sorted| - 1];
      assert sorted == front + [last];
      AtTimeSnoc(front, last, t);
      InsertIsStable(front, p, t);
      AtTimeSnoc(Insert(front, p), last, t);
      AtTimeSnoc(front, p, t);
      AtTimeSnoc(sorted, p, t);
    }
  }

  lemma {:induction false} SortIsStable(s: seq<Post>)
    ensures IsStableSort(s, Sort(s)) && multiset(Sort(s)) == multiset(s)
  {
    if s != [] {
      var front, last := s[..|s| - 1], s[|s| - 1];
      SortIsStable(front);
      assert s == front + [last];
      forall t ensures AtTime(Sort(s), t) == AtTime(s, t) {
        InsertIsStable(Sort(front), last, t);
        AtTimeSnoc(Sort(front), last, t);
        AtTimeSnoc(front, last, t);
      }
      var latest := UpperBound(Sort(front), last);
      InsertSorted(Sort(front), last, latest);
      InsertAdds(Sort(front), last);
    }
  }

  lemma LastAtItsTime(s: seq<Post>)
    requires s != []
    ensures var last, same := s[|s| - 1], AtTime(s, s[|s| - 1].createdAt);
      same != [] && same[|same| - 1] == last && AtTime([], last.createdAt) == []
  {
  }

  /** There is only one stable sort, so any conforming engine computes `Sort`. */
  lemma {:induction false} StableSortIsUnique(s: seq<Post>, a: seq<Post>, b: seq<Post>)
    requires IsStableSort(s, a) && IsStableSort(s, b)
    ensures a == b
    decreases |a|
  {
    if a == [] {
      if b != [] {
        LastAtItsTime(b);
      }
    } else {
      LastOfSorted(a, b);
      var m, n := |a| - 1, |b| - 1;
      assert a == a[..m] + [a[m]] && b == b[..n] + [b[n]];
      forall t ensures AtTime(b[..n], t) == AtTime(a[..m], t) {
        AtTimeSnoc(a[..m], a[m], t);
        AtTimeSnoc(b[..n], b[n], t);
        CancelSuffix(AtTime(a[..m], t), AtTime(b[..n], t), if a[m].createdAt == t then [a[m]] else []);
      }
      StableSortIsUnique(a[..m], a[..m], b[..n]);
    }
  }

  lemma CancelSuffix(x: seq<Post>, y: seq<Post>, suffix: seq<Post>)
    requires x + suffix == y + suffix
    ensures x == y
  {
    assert |x| == |y|;
    assert x == (x + suffix)[..|x|] && y == (y + suffix)[..|y|];
  }

  lemma {:induction false} AtTimeMembers(s: seq<Post>, t: int)
    ensures forall q :: q in AtTime(s, t) ==> q in s && q.createdAt == t
    ensures forall q :: q in s && q.createdAt == t ==> q in AtTime(s, t)
  {
    if s != [] {
      AtTimeMembers(s[..|s| - 1], t);
      assert s == s[..|s| - 1] + [s[|s| - 1]];
    }
  }

  /** The latest time of one list is no later than the latest time of another with the same posts per time. */
  lemma LatestTime(a: seq<Post>, b: seq<Post>)
    requires a != [] && SortedByTime(b) && forall t :: AtTime(a, t) == AtTime(b, t)
    ensures b != [] && a[|a| - 1].createdAt <= b[|b| - 1].createdAt
  {
    hide AtTime, SortedByTime;
    var x := a[|a| - 1];
    LastAtItsTime(a);
    var same := AtTime(b, x.createdAt);
    assert same[|same| - 1] == x;
    AtTimeMembers(b, x.createdAt);
    LastIsLatest(b, x);
  }

  lemma LastIsLatest(b: seq<Post>, x: Post)
    requires SortedByTime(b) && x in b
    ensures x.createdAt <= b[|b| - 1].createdAt
  {
  }

  lemma LastOfSorted(a: seq<Post>, b: seq<Post>)
    requires a != [] && SortedByTime(a) && SortedByTime(b) && forall t :: AtTime(a, t) == AtTime(b, t)
    ensures b != [] && a[|a| - 1] == b[|b| - 1]
  {
    hide AtTime, SortedByTime;
    LatestTime(a, b);
    LatestTime(b, a);
    LastAtItsTime(a);
    LastAtItsTime(b);
  }

  /** What grouping yields: the non-empty reply lists, each sorted. */
  ghost predicate IsGrouping(posts: seq<Post>, roots: map<int, int>, groups: map<int, seq<Post>>)
  {
    && (forall r :: r in groups <==> Replies(posts, roots, r) != [])
    && (forall r :: r in groups ==> groups[r] == Sort(Replies(posts, roots, r)))
  }

  ghost predicate Collected(posts: seq<Post>, roots: map<int, int>, groups: map<int, seq<Post>>)
  {
    && (forall r :: r in groups <==> Replies(posts, roots, r) != [])
    && (forall r :: r in groups ==> groups[r] == Replies(posts, roots, r))
  }

  /** A map's keys in insertion order. */
  ghost predicate KeyOrder(groups: map<int, seq<Post>>, order: seq<int>)
  {
    && (forall r :: r in groups ==> r in order)
    && (forall i :: 0 <= i < |order| ==> order[i] in groups)
    && (forall i, j :: 0 <= i < j < |order| ==> order[i] != order[j])
  }

  lemma RepliesSnoc(posts: seq<Post>, i: nat, roots: map<int, int>, r: int)
    requires i < |posts|
    ensures Replies(posts[..i + 1], roots, r)
         == Replies(posts[..i], roots, r) + if IsReply(roots, posts[i], r) then [posts[i]] else []
  {
    assert posts[..i + 1][..i] == posts[..i];
  }

  lemma CollectNext(posts: seq<Post>, i: nat, roots: map<int, int>, groups: map<int, seq<Post>>)
    requires i < |posts| && Collected(posts[..i], roots, groups)
    ensures var p := posts[i];
      Collected(posts[..i + 1], roots,
        if p.id in roots && roots[p.id] != p.id then
          var root := roots[p.id];
          groups[root := (if root in groups then groups[root] else []) + [p]]
        else groups)
  {
    hide Replies;
    forall r
      ensures Replies(posts[..i + 1], roots, r)
           == Replies(posts[..i], roots, r) + if IsReply(roots, posts[i], r) then [posts[i]] else []
    {
      RepliesSnoc(posts, i, roots, r);
    }
  }

  /** `groupRepliesByRoot`: collect, then sort every list in place. */
  method GroupRepliesByRoot(posts: seq<Post>, roots: map<int, int>) returns (groups: map<int, seq<Post>>)
    ensures IsGrouping(posts, roots, groups)
  {
    hide Sort, Collected, Replies;
    groups := map[];
    var order: seq<int> := [];
    NothingCollected(posts, roots);
    for i := 0 to |posts|
      invariant Collected(posts[..i], roots, groups) && KeyOrder(groups, order)
    {
      CollectNext(posts, i, roots, groups);
      var p := posts[i];
      if p.id in roots && roots[p.id] != p.id {
        var root := roots[p.id];
        var arr := if root in groups then groups[root] else [];
        order := if root in groups then order else order + [root];
        groups := groups[root := arr + [p]];
      }
    }
    assert posts[..|posts|] == posts;
    AllCollected(posts, roots, groups);
    for k := 0 to |order|
      invariant KeyOrder(groups, order)
      invariant forall r :: r in groups <==> Replies(posts, roots, r) != []
      invariant forall j :: 0 <= j < k ==> groups[order[j]] == Sort(Replies(posts, roots, order[j]))
      invariant forall j :: k <= j < |order| ==> groups[order[j]] == Replies(posts, roots, order[j])
    {
      groups := groups[order[k] := Sort(groups[order[k]])];
    }
  }

  lemma NothingCollected(posts: seq<Post>, roots: map<int, int>)
    ensures Collected(posts[..0], roots, map[])
  {
  }

  lemma AllCollected(posts: seq<Post>, roots: map<int, int>, groups: map<int, seq<Post>>)
    requires Collected(posts, roots, groups)
    ensures forall r :: r in groups <==> Replies(posts, roots, r) != []
    ensures forall r :: r in groups ==> groups[r] == Replies(posts, roots, r)
  {
  }

  ghost predicate DistinctIds(posts: seq<Post>)
  {
    forall i, j :: 0 <= i < j < |posts| ==> posts[i].id != posts[j].id
  }

  lemma {:induction false} IndexOfDistinct(posts: seq<Post>)
    requires DistinctIds(posts)
    ensures forall p :: p in posts ==> Index(posts)[p.id] == p
  {
    if posts != [] {
      IndexOfDistinct(posts[..|posts| - 1]);
      assert posts == posts[..|posts| - 1] + [posts[|posts| - 1]];
    }
  }

  lemma {:induction false} RepliesCount(posts: seq<Post>, roots: map<int, int>, root: int, p: Post)
    requires DistinctIds(posts) && p in posts
    ensures multiset(Replies(posts, roots, root))[p] == if IsReply(roots, p, root) then 1 else 0
  {
    var front, last := posts[..|posts| - 1], posts[|posts| - 1];
    assert posts == front + [last];
    if p == last {
      NotInReplies(front, roots, root, p);
    } else {
      RepliesCount(front, roots, root, p);
    }
  }

  lemma {:induction false} NotInReplies(posts: seq<Post>, roots: map<int, int>, root: int, p: Post)
    requires forall i :: 0 <= i < |posts| ==> posts[i].id != p.id
    ensures multiset(Replies(posts, roots, root))[p] == 0
  {
    if posts != [] {
      NotInReplies(posts[..|posts| - 1], roots, root, p);
    }
  }

  /** How often a post is shown in a root's reply list. */
  ghost function Shown(groups: map<int, seq<Post>>, root: int, p: Post): nat
  {
    if root in groups then multiset(groups[root])[p] else 0
  }

  lemma ShownCount(posts: seq<Post>, roots: map<int, int>, groups: map<int, seq<Post>>, root: int, p: Post)
    requires DistinctIds(posts) && p in posts && IsGrouping(posts, roots, groups)
    ensures Shown(groups, root, p) == if IsReply(roots, p, root) then 1 else 0
  {
    RepliesCount(posts, roots, root, p);
    SortIsStable(Replies(posts, roots, root));
  }

  /** A post takes its place: top-level and in no list, or once in the list of one top-level root and in no other. */
  ghost predicate Placed(index: map<int, Post>, groups: map<int, seq<Post>>, p: Post)
  {
    if IsTopLevel(p, index) then forall r :: Shown(groups, r, p) == 0
    else exists root :: root in index && IsTopLevel(index[root], index) && ShownOnlyUnder(groups, root, p)
  }

  ghost predicate ShownOnlyUnder(groups: map<int, seq<Post>>, root: int, p: Post)
  {
    Shown(groups, root, p) == 1 && forall r :: r != root ==> Shown(groups, r, p) == 0
  }

  lemma StoppedRoot(index: map<int, Post>, roots: map<int, int>, id: int)
    requires Settled(index, roots) && id in index && id in roots
    ensures roots[id] in index && (WalkStops(index, id) <==> IsTopLevel(index[roots[id]], index))
    ensures IsTopLevel(index[id], index) ==> roots[id] == id
    ensures WalkStops(index, id) ==> roots[id] == PlainRoot(index, id)
  {
    if WalkStops(index, id) {
      RootIsPlainRoot(index, roots, id);
    } else {
      WalkEnds(index, id);
      var k: nat :| OnCycle(index, Ancestor(index, id, k));
      RootIsOnCycle(index, roots, id, k);
    }
  }

  /** A post takes its place exactly when the walk from it stops: what leads into a cycle is in no top-level root's list. */
  lemma PostPlaced(posts: seq<Post>, roots: map<int, int>, groups: map<int, seq<Post>>, p: Post)
    requires DistinctIds(posts) && p in posts
    requires Settled(Index(posts), roots) && roots.Keys == Index(posts).Keys
    requires IsGrouping(posts, roots, groups)
    ensures Placed(Index(posts), groups, p) <==> WalkStops(Index(posts), p.id)
  {
    hide IsGrouping, Shown, Settled, IsTopLevel, Index, DistinctIds, WalkStops, PlainRoot;
    var index := Index(posts);
    IndexOfDistinct(posts);
    assert p.id in roots.Keys && index[p.id] == p;
    StoppedRoot(index, roots, p.id);
    SettledAt(index, roots, p.id);
    StoppedRoot(index, roots, roots[p.id]);
    forall r ensures Shown(groups, r, p) == if IsReply(roots, p, r) then 1 else 0 {
      ShownCount(posts, roots, groups, r, p);
    }
    if WalkStops(index, p.id) && !IsTopLevel(p, index) {
      assert ShownOnlyUnder(groups, roots[p.id], p);
    }
  }

  /** Every post takes its place exactly when the parent links have no cycle. */
  lemma EveryPostPlaced(posts: seq<Post>, roots: map<int, int>, groups: map<int, seq<Post>>)
    requires DistinctIds(posts)
    requires Settled(Index(posts), roots) && roots.Keys == Index(posts).Keys
    requires IsGrouping(posts, roots, groups)
    ensures (forall p :: p in posts ==> Placed(Index(posts), groups, p)) <==> Acyclic(Index(posts))
  {
    hide Settled, IsGrouping, Acyclic, Placed, WalkStops, Index;
    var index := Index(posts);
    forall p | p in posts ensures Placed(index, groups, p) <==> WalkStops(index, p.id) {
      PostPlaced(posts, roots, groups, p);
    }
    IndexOfDistinct(posts);
    AcyclicMeansStops(index);
    forall id | id in index ensures index[id] in posts && index[id].id == id {
    }
  }

  // ------------------------------------------------------------------ timeline --

  const DISPLAYED: nat := 50

  function TopLevel(posts: seq<Post>, index: map<int, Post>): (top: seq<Post>)
    ensures forall p :: p in top <==> p in posts && IsTopLevel(p, index)
  {
    if posts == [] then []
    else
      var last := posts[|posts| - 1];
      TopLevel(posts[..|posts| - 1], index) + if IsTopLevel(last, index) then [last] else []
  }

  function Negate(p: Post): Post { p.(createdAt := -p.createdAt) }

  function Negated(s: seq<Post>): (t: seq<Post>)
    ensures |t| == |s| && forall i :: 0 <= i < |s| ==> t[i] == Negate(s[i])
  {
    seq(|s|, i requires 0 <= i < |s| => Negate(s[i]))
  }

  /** `sort((a, b) => b.createdAt - a.createdAt)`: comparing the negated times. */
  function SortNewestFirst(s: seq<Post>): seq<Post>
  {
    Negated(Sort(Negated(s)))
  }

  /** The roots the timeline displays: the first fifty top-level posts. */
  function DisplayRoots(posts: seq<Post>, index: map<int, Post>): seq<Post>
  {
    var sorted := SortNewestFirst(TopLevel(posts, index));
    if |sorted| <= DISPLAYED then sorted else sorted[..DISPLAYED]
  }

  ghost predicate EarlierIn(s: seq<Post>, x: Post, y: Post)
  {
    exists m, n :: 0 <= m < n < |s| && s[m] == x && s[n] == y
  }

  /** x comes before y in an ascending stable sort of s. */
  ghost predicate Precedes(s: seq<Post>, x: Post, y: Post)
  {
    x.createdAt < y.createdAt || (x.createdAt == y.createdAt && EarlierIn(s, x, y))
  }

  ghost predicate Ranked(s: seq<Post>, a: seq<Post>)
  {
    forall i, j :: 0 <= i < j < |a| ==> Precedes(s, a[i], a[j])
  }

  lemma InsertUnfold(sorted: seq<Post>, p: Post)
    ensures var n := |sorted| - 1;
      Insert(sorted, p) ==
      if sorted != [] && sorted[n].createdAt > p.createdAt then Insert(sorted[..n], p) + [sorted[n]] else sorted + [p]
  {
  }

  lemma SplitSnoc(sorted: seq<Post>, p: Post, c: nat)
    requires c < |sorted|
    ensures var front, last := sorted[..|sorted| - 1], sorted[|sorted| - 1];
      front[..c] + [p] + front[c..] + [last] == sorted[..c] + [p] + sorted[c..]
  {
    var front, last := sorted[..|sorted| - 1], sorted[|sorted| - 1];
    assert sorted[..c] == front[..c] && sorted[c..] == front[c..] + [last];
  }

  lemma UpToLast(sorted: seq<Post>)
    requires SortedByTime(sorted) && sorted != []
    ensures SortedByTime(sorted[..|sorted| - 1])
    ensures forall i :: 0 <= i < |sorted| ==> sorted[i].createdAt <= sorted[|sorted| - 1].createdAt
  {
  }

  lemma {:induction false} InsertSplit(sorted: seq<Post>, p: Post) returns (c: nat)
    requires SortedByTime(sorted)
    ensures c <= |sorted| && Insert(sorted, p) == sorted[..c] + [p] + sorted[c..]
    ensures forall i :: 0 <= i < c ==> sorted[i].createdAt <= p.createdAt
    ensures forall i :: c <= i < |sorted| ==> sorted[i].createdAt > p.createdAt
  {
    hide Insert, SortedByTime;
    InsertUnfold(sorted, p);
    if sorted != [] {
      UpToLast(sorted);
    }
    if sorted != [] && sorted[|sorted| - 1].createdAt > p.createdAt {
      c := InsertSplit(sorted[..|sorted| - 1], p);
      SplitSnoc(sorted, p, c);
    } else {
      c := |sorted|;
      assert sorted[..c] == sorted && sorted[c..] == [];
    }
  }

  /** Order is kept when a post is added at the end of the list. */
  lemma PrecedesMore(s: seq<Post>, x: Post, y: Post, p: Post)
    ensures Precedes(s, x, y) ==> Precedes(s + [p], x, y)
  {
    var t := s + [p];
    if EarlierIn(s, x, y) {
      var m, n :| 0 <= m < n < |s| && s[m] == x && s[n] == y;
      assert t[m] == x && t[n] == y;
    }
  }

  lemma PrecedesLast(s: seq<Post>, x: Post, p: Post)
    requires x in s
    ensures x.createdAt <= p.createdAt ==> Precedes(s + [p], x, p)
    ensures p.createdAt < x.createdAt ==> Precedes(s + [p], p, x)
  {
    var t := s + [p];
    var m :| 0 <= m < |s| && s[m] == x;
    assert t[m] == x && t[|s|] == p;
  }

  lemma InsertRanked(s: seq<Post>, sorted: seq<Post>, p: Post)
    requires SortedByTime(sorted) && Ranked(s, sorted) && forall q :: q in sorted ==> q in s
    ensures Ranked(s + [p], Insert(sorted, p))
  {
    hide Precedes, Insert;
    var c := InsertSplit(sorted, p);
    hide SortedByTime;
    var a := sorted[..c] + [p] + sorted[c..];
    forall i, j | 0 <= i < j < |a| ensures Precedes(s + [p], a[i], a[j]) {
      if j == c {
        assert a[i] == sorted[i];
        PrecedesLast(s, sorted[i], p);
      } else if i == c {
        assert a[j] == sorted[j - 1];
        PrecedesLast(s, sorted[j - 1], p);
      } else {
        var i', j' := if i < c then i else i - 1, if j < c then j else j - 1;
        assert a[i] == sorted[i'] && a[j] == sorted[j'] && Precedes(s, sorted[i'], sorted[j']);
        PrecedesMore(s, sorted[i'], sorted[j'], p);
      }
    }
  }

  lemma SortOrdered(s: seq<Post>)
    ensures SortedByTime(Sort(s)) && forall q :: q in Sort(s) <==> q in s
  {
    hide Sort, AtTime;
    SortIsStable(s);
    forall q ensures q in Sort(s) <==> q in s {
      assert q in multiset(Sort(s)) <==> q in multiset(s);
    }
  }

  lemma {:induction false} SortRanked(s: seq<Post>)
    ensures Ranked(s, Sort(s))
  {
    hide Insert, Precedes, SortedByTime;
    if s != [] {
      var front, last := s[..|s| - 1], s[|s| - 1];
      SortRanked(front);
      SortOrdered(front);
      hide Ranked;
      InsertRanked(front, Sort(front), last);
      assert s == front + [last];
    }
  }

  ghost predicate NoRepeats(s: seq<Post>)
  {
    forall i, j :: 0 <= i < j < |s| ==> s[i] != s[j]
  }

  lemma PrecedesOneWay(s: seq<Post>, x: Post, y: Post)
    requires NoRepeats(s) && Precedes(s, x, y)
    ensures !Precedes(s, y, x)
  {

  }

  ghost function Before(s: seq<Post>, r: Post): set<Post>
  {
    set q | q in s && Precedes(s, q, r)
  }

  ghost function Members(s: seq<Post>): set<Post> { set q | q in s }

  lemma {:induction false} MembersSize(s: seq<Post>)
    requires NoRepeats(s)
    ensures |Members(s)| == |s|
  {
    if s != [] {
      var front, last := s[..|s| - 1], s[|s| - 1];
      MembersSize(front);
      assert s == front + [last];
      assert Members(s) == Members(front) + {last};
      assert last !in Members(front);
    }
  }

  /** In a ranked list without repetition a post stands behind exactly those that precede it. */
  lemma RankIsPosition(s: seq<Post>, a: seq<Post>, k: nat)
    requires NoRepeats(s) && Ranked(s, a) && Members(a) == Members(s) && k < |a|
    ensures |Before(s, a[k])| == k
  {
    hide Precedes;
    forall i | 0 <= i < |a| ensures Precedes(s, a[i], a[k]) <==> i < k {
      if i < k {
        assert Precedes(s, a[i], a[k]);
      } else if k < i {
        PrecedesOneWay(s, a[k], a[i]);
      } else if Precedes(s, a[k], a[k]) {
        PrecedesOneWay(s, a[k], a[k]);
      }
    }
    forall q | q in Before(s, a[k]) ensures q in Members(a[..k]) {
      assert q in Members(a);
      var i :| 0 <= i < |a| && a[i] == q;
      assert a[..k][i] == q;
    }
    forall q | q in Members(a[..k]) ensures q in Before(s, a[k]) {
      var i :| 0 <= i < k && a[..k][i] == q;
      assert a[i] == q && q in Members(a);
    }
    assert Before(s, a[k]) == Members(a[..k]);
    RankedNoRepeats(s, a);
    MembersSize(a[..k]);
  }

  lemma RankedNoRepeats(s: seq<Post>, a: seq<Post>)
    requires NoRepeats(s) && Ranked(s, a)
    ensures NoRepeats(a)
  {
    hide Precedes;
    forall i, j | 0 <= i < j < |a| ensures a[i] != a[j] {
      assert Precedes(s, a[i], a[j]);
      PrecedesOneWay(s, a[i], a[j]);
    }
  }

  /** x comes before y on the timeline: it is newer, or as new and earlier among the candidates. */
  ghost predicate Newer(s: seq<Post>, x: Post, y: Post)
  {
    x.createdAt > y.createdAt || (x.createdAt == y.createdAt && EarlierIn(s, x, y))
  }

  ghost function NewerThan(s: seq<Post>, r: Post): set<Post>
  {
    set q | q in s && Newer(s, q, r)
  }

  lemma NegatedOrder(s: seq<Post>, x: Post, y: Post)
    ensures Precedes(Negated(s), Negate(x), Negate(y)) <==> Newer(s, x, y)
    ensures Negate(x) in Negated(s) <==> x in s
  {
    var t := Negated(s);
    if EarlierIn(s, x, y) {
      var m, n :| 0 <= m < n < |s| && s[m] == x && s[n] == y;
      assert t[m] == Negate(x) && t[n] == Negate(y);
    }
    if x in s {
      var m :| 0 <= m < |s| && s[m] == x;
      assert t[m] == Negate(x);
    }
  }

  lemma NewerSize(s: seq<Post>, r: Post)
    ensures |NewerThan(s, r)| == |Before(Negated(s), Negate(r))|
  {
    hide Precedes, Newer, Negate;
    var a, b := NewerThan(s, r), Before(Negated(s), Negate(r));
    forall q ensures q in a <==> Negate(q) in b {
      NegatedOrder(s, q, r);
    }
    NegateTwice();
    SameSize(a, b);
  }

  lemma NegateTwice()
    ensures forall p {:trigger Negate(p)} :: Negate(Negate(p)) == p
  {
  }

  lemma {:induction false} SameSize(a: set<Post>, b: set<Post>)
    requires forall q {:trigger Negate(q)} :: q in a <==> Negate(q) in b
    ensures |a| == |b|
    decreases |a|
  {
    if a == {} {
      forall q ensures q !in b {
        assert Negate(Negate(q)) == q;
      }
    } else {
      var x :| x in a;
      assert Negate(x) in b;
      forall q ensures q in a - {x} <==> Negate(q) in b - {Negate(x)} {
        if Negate(q) == Negate(x) {
          assert Negate(Negate(q)) == Negate(Negate(x)) == x;
          assert Negate(Negate(q)) == q;
        }
      }
      SameSize(a - {x}, b - {Negate(x)});
    }
  }

  lemma {:induction false} TopLevelDistinct(posts: seq<Post>, index: map<int, Post>)
    requires DistinctIds(posts)
    ensures DistinctIds(TopLevel(posts, index))
  {
    if posts != [] {
      var front, last := posts[..|posts| - 1], posts[|posts| - 1];
      TopLevelDistinct(front, index);
      assert posts == front + [last];
      var top := TopLevel(front, index);
      forall i | 0 <= i < |top| ensures top[i].id != last.id {
        assert top[i] in front;
      }
    }
  }

  lemma NewestFirstRanked(s: seq<Post>)
    requires DistinctIds(s)
    ensures var a := SortNewestFirst(s);
      && DistinctIds(a) && (forall p :: p in a <==> p in s)
      && forall k :: 0 <= k < |a| ==> |NewerThan(s, a[k])| == k
  {
    hide Sort, Insert, Precedes, Newer, Before, NewerThan;
    var n := Negated(s);
    var b := Sort(n);
    SortRanked(n);
    SortOrdered(n);
    assert Members(b) == Members(n);
    RankedNoRepeats(n, b);
    var a := SortNewestFirst(s);
    forall k | 0 <= k < |a| ensures |NewerThan(s, a[k])| == k && a[k] in s {
      RankIsPosition(n, b, k);
      NewerSize(s, a[k]);
      assert Negate(a[k]) == b[k];
      NegatedOrder(s, a[k], a[k]);
    }
    forall p | p in s ensures p in a {
      NegatedOrder(s, p, p);
      var k :| 0 <= k < |b| && b[k] == Negate(p);
      assert a[k] == p;
    }
    IdsDistinct(s, a);
  }

  lemma IdsDistinct(s: seq<Post>, a: seq<Post>)
    requires DistinctIds(s) && (forall p :: p in a ==> p in s)
    requires forall i, j :: 0 <= i < j < |a| ==> a[i] != a[j]
    ensures DistinctIds(a)
  {
    forall i, j | 0 <= i < j < |a| ensures a[i].id != a[j].id {
      assert a[i] in s && a[j] in s;
    }
  }

  /** The posts that pass, in order. */
  ghost function Filter(posts: seq<Post>, keep: Post -> bool): seq<Post>
  {
    if posts == [] then []
    else
      var last := posts[|posts| - 1];
      Filter(posts[..|posts| - 1], keep) + if keep(last) then [last] else []
  }

  lemma EarlierSnoc(s: seq<Post>, p: Post, x: Post, y: Post)
    ensures EarlierIn(s + [p], x, y) <==> EarlierIn(s, x, y) || (x in s && y == p)
  {
    var t := s + [p];
    if EarlierIn(s, x, y) {
      var m, n :| 0 <= m < n < |s| && s[m] == x && s[n] == y;
      assert t[m] == x && t[n] == y;
    }
    if x in s && y == p {
      var m :| 0 <= m < |s| && s[m] == x;
      assert t[m] == x && t[|s|] == y;
    }
  }

  lemma {:induction false} FilterMembers(posts: seq<Post>, keep: Post -> bool)
    ensures forall p :: p in Filter(posts, keep) <==> p in posts && keep(p)
  {
    if posts != [] {
      FilterMembers(posts[..|posts| - 1], keep);
      assert posts == posts[..|posts| - 1] + [posts[|posts| - 1]];
    }
  }

  lemma {:induction false} FilterOrder(posts: seq<Post>, keep: Post -> bool, x: Post, y: Post)
    ensures EarlierIn(Filter(posts, keep), x, y) <==> keep(x) && keep(y) && EarlierIn(posts, x, y)
  {
    hide EarlierIn;
    if posts == [] {
      NothingEarlier(x, y);
    } else {
      var front, last := posts[..|posts| - 1], posts[|posts| - 1];
      assert posts == front + [last];
      FilterOrder(front, keep, x, y);
      FilterMembers(front, keep);
      EarlierSnoc(front, last, x, y);
      if keep(last) {
        EarlierSnoc(Filter(front, keep), last, x, y);
      } else {
        assert Filter(posts, keep) == Filter(front, keep);
      }
    }
  }

  lemma NothingEarlier(x: Post, y: Post)
    ensures !EarlierIn([], x, y)
  {
  }

  lemma {:induction false} TopLevelIsFilter(posts: seq<Post>, index: map<int, Post>)
    ensures TopLevel(posts, index) == Filter(posts, p => IsTopLevel(p, index))
  {
    if posts != [] {
      TopLevelIsFilter(posts[..|posts| - 1], index);
    }
  }

  lemma {:induction false} RepliesAreFilter(posts: seq<Post>, roots: map<int, int>, root: int)
    ensures Replies(posts, roots, root) == Filter(posts, p => IsReply(roots, p, root))
  {
    if posts != [] {
      RepliesAreFilter(posts[..|posts| - 1], roots, root);
    }
  }

  /** Top-level posts that come before p on the timeline: newer ones, and of the same age those listed earlier. */
  ghost function ShownBefore(posts: seq<Post>, p: Post): set<Post>
  {
    set q | q in posts && (q.parentId == None || q.parentId.value !in Index(posts)) &&
            (q.createdAt > p.createdAt || (q.createdAt == p.createdAt && EarlierIn(posts, q, p)))
  }

  lemma ShownBeforeIsNewer(posts: seq<Post>, p: Post)
    requires p in posts && IsTopLevel(p, Index(posts))
    ensures NewerThan(TopLevel(posts, Index(posts)), p) == ShownBefore(posts, p)
  {
    hide EarlierIn, Index;
    var index := Index(posts);
    var top := TopLevel(posts, index);
    TopLevelIsFilter(posts, index);
    forall q ensures q in NewerThan(top, p) <==> q in ShownBefore(posts, p) {
      FilterOrder(posts, r => IsTopLevel(r, index), q, p);
    }
  }

  /** A post is a displayed root exactly when it is top-level and fewer than fifty top-level posts come before it. */
  lemma DisplayedExactly(posts: seq<Post>, p: Post)
    requires DistinctIds(posts) && p in posts
    ensures p in DisplayRoots(posts, Index(posts)) <==>
            (p.parentId == None || p.parentId.value !in Index(posts)) && |ShownBefore(posts, p)| < 50
  {
    hide SortNewestFirst, NewerThan, Index, ShownBefore;
    var index := Index(posts);
    var top := TopLevel(posts, index);
    TopLevelDistinct(posts, index);
    NewestFirstRanked(top);
    var a, shown := SortNewestFirst(top), DisplayRoots(posts, index);
    if p in top {
      ShownBeforeIsNewer(posts, p);
      var k :| 0 <= k < |a| && a[k] == p;
      if k < DISPLAYED {
        assert shown[k] == p;
      }
    }
  }

  /** The displayed roots stand in the order of the timeline: each has as many before it as its position says. */
  lemma DisplayedInOrder(posts: seq<Post>, k: nat)
    requires DistinctIds(posts) && k < |DisplayRoots(posts, Index(posts))|
    ensures |ShownBefore(posts, DisplayRoots(posts, Index(posts))[k])| == k
  {
    hide SortNewestFirst, NewerThan, Index, ShownBefore;
    var index := Index(posts);
    var top := TopLevel(posts, index);
    TopLevelDistinct(posts, index);
    NewestFirstRanked(top);
    var p := SortNewestFirst(top)[k];
    assert p in top;
    ShownBeforeIsNewer(posts, p);
  }

  ghost predicate LastWith(posts: seq<Post>, id: int, j: nat)
  {
    j < |posts| && posts[j].id == id && forall k :: j < k < |posts| ==> posts[k].id != id
  }

  /** Of posts that share an id the last one is in the index. */
  lemma {:induction false} IndexExactly(posts: seq<Post>, id: int, j: nat)
    requires LastWith(posts, id, j)
    ensures id in Index(posts) && Index(posts)[id] == posts[j]
  {
    var n := |posts| - 1;
    var front := posts[..n];
    if j < n {
      assert posts[n].id != id;
      assert forall k :: j < k < n ==> front[k] == posts[k];
      IndexExactly(front, id, j);
    }
  }

  /** The reply lists: a root has one when some other post has it as root; the list holds exactly those posts, from old to
      new, and of the same age in the order they were listed. */
  lemma GroupsExactly(posts: seq<Post>, roots: map<int, int>, groups: map<int, seq<Post>>, r: int)
    requires IsGrouping(posts, roots, groups)
    ensures r in groups <==> exists p :: p in posts && p.id in roots && roots[p.id] == r && p.id != r
    ensures r in groups ==>
              && (forall p :: p in groups[r] <==> p in posts && p.id in roots && roots[p.id] == r && p.id != r)
              && forall i, j :: 0 <= i < j < |groups[r]| ==>
                   groups[r][i].createdAt < groups[r][j].createdAt ||
                   (groups[r][i].createdAt == groups[r][j].createdAt && EarlierIn(posts, groups[r][i], groups[r][j]))
  {
    hide EarlierIn, Sort;
    var replies := Replies(posts, roots, r);
    var keep := p => IsReply(roots, p, r);
    RepliesAreFilter(posts, roots, r);
    FilterMembers(posts, keep);
    SortOrdered(replies);
    SortRanked(replies);
    hide Replies, Filter;
    assert forall p :: p in replies <==> p in posts && IsReply(roots, p, r);
    if r in groups {
      assert replies[0] in replies;
      forall i, j | 0 <= i < j < |groups[r]|
        ensures groups[r][i].createdAt < groups[r][j].createdAt ||
                (groups[r][i].createdAt == groups[r][j].createdAt && EarlierIn(posts, groups[r][i], groups[r][j]))
      {
        assert Precedes(replies, groups[r][i], groups[r][j]);
        FilterOrder(posts, keep, groups[r][i], groups[r][j]);
      }
    }
  }

  /** How often a post is on the timeline: as a displayed root, and in the lists of displayed roots. */
  ghost function Places(groups: map<int, seq<Post>>, display: seq<Post>, p: Post): nat
  {
    if display == [] then 0
    else
      var last := display[|display| - 1];
      Places(groups, display[..|display| - 1], p) + (if last == p then 1 else 0) + Shown(groups, last.id, p)
  }

  lemma {:induction false} PlacesCount(posts: seq<Post>, roots: map<int, int>, groups: map<int, seq<Post>>, display: seq<Post>, p: Post)
    requires DistinctIds(posts) && p in posts
    requires Settled(Index(posts), roots) && roots.Keys == Index(posts).Keys
    requires IsGrouping(posts, roots, groups)
    requires DistinctIds(display) && forall d :: d in display ==> d in posts && IsTopLevel(d, Index(posts))
    ensures p.id in roots
    ensures Places(groups, display, p) == if exists d :: d in display && d.id == roots[p.id] then 1 else 0
  {
    hide IsGrouping, Shown, Settled, IsTopLevel, Index;
    var index := Index(posts);
    IndexOfDistinct(posts);
    assert p.id in roots.Keys;
    if display != [] {
      var front, last := display[..|display| - 1], display[|display| - 1];
      assert display == front + [last];
      PlacesCount(posts, roots, groups, front, p);
      ShownCount(posts, roots, groups, last.id, p);
      StoppedRoot(index, roots, p.id);
      assert last in display;
      assert index[last.id] == last && index[p.id] == p;
    }
  }

  /** A post is on the timeline, and then once, exactly when the walk from it stops at one of the displayed roots. */
  lemma TimelineShows(posts: seq<Post>, roots: map<int, int>, groups: map<int, seq<Post>>, p: Post)
    requires DistinctIds(posts) && p in posts
    requires Settled(Index(posts), roots) && roots.Keys == Index(posts).Keys
    requires IsGrouping(posts, roots, groups)
    ensures var index := Index(posts);
      var display := DisplayRoots(posts, index);
      Places(groups, display, p) ==
      if WalkStops(index, p.id) && index[PlainRoot(index, p.id)] in display then 1 else 0
  {
    hide IsGrouping, Settled, IsTopLevel, Index, SortNewestFirst, NewerThan, Places, WalkStops, PlainRoot;
    var index := Index(posts);
    var display := DisplayRoots(posts, index);
    TopLevelDistinct(posts, index);
    NewestFirstRanked(TopLevel(posts, index));
    IndexOfDistinct(posts);
    assert p.id in roots.Keys;
    PlacesCount(posts, roots, groups, display, p);
    StoppedRoot(index, roots, p.id);
    forall d | d in display ensures index[d.id] == d && IsTopLevel(d, index) {
      assert d in TopLevel(posts, index);
    }
  }
}
