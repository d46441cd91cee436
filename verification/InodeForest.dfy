/** Trees of inodes, and what `free_inode_children` of `filesystem.c` makes of them. */
module InodeForest {
  import opened Options

  /** An inode, by its address. */
  type Ino = nat

  /** `struct co_inode`, without its names. */
  datatype Inode = Inode(number: int, parent: Option<Ino>, subs: seq<Ino>)

  /** An inode with what is below it, and the siblings that follow it. */
  datatype Forest = Nil | Cons(id: Ino, kids: Forest, rest: Forest)

  function Ids(f: Forest): seq<Ino> {
    if f == Nil then [] else [f.id] + Ids(f.rest)
  }

  function Set(f: Forest): set<Ino> {
    if f == Nil then {} else {f.id} + Set(f.kids) + Set(f.rest)
  }

  /** The inodes are those of the forest, each with the parent and the list of sub-inodes that it has there. */
  ghost predicate Grown(nodes: map<Ino, Inode>, f: Forest, parent: Option<Ino>) {
    f != Nil ==>
      && f.id in nodes && nodes[f.id].parent == parent && nodes[f.id].subs == Ids(f.kids)
      && Grown(nodes, f.kids, Some(f.id)) && Grown(nodes, f.rest, parent)
  }

  /** No inode is in two places. */
  ghost predicate Apart(f: Forest) {
    f != Nil ==> f.id !in Set(f.kids) && f.id !in Set(f.rest) && Set(f.kids) !! Set(f.rest) && Apart(f.kids) && Apart(f.rest)
  }

  /** What `free_inode_children` frees when it is called for this list at this level. */
  function Freed(f: Forest, level: nat): set<Ino>
    decreases f
  {
    if f == Nil || level > 5 then {} else {f.id} + Freed(f.kids, level + 1) + Freed(f.rest, level)
  }

  /** What it leaves for later, in the order of that list: what comes later goes to the front. */
  function Deferred(f: Forest, level: nat, later: Forest): Forest
    decreases f
  {
    if f == Nil then later
    else if level > 5 then Deferred(f.rest, level, Cons(f.id, f.kids, later))
    else Deferred(f.rest, level, Deferred(f.kids, level + 1, later))
  }

  /** A list after `co_list_del` of some of its elements. */
  function Without(q: seq<Ino>, gone: set<Ino>): (r: seq<Ino>)
    ensures forall x :: x in r <==> x in q && x !in gone
  {
    if q == [] then [] else (if q[0] in gone then [] else [q[0]]) + Without(q[1..], gone)
  }

  // ---- lists

  lemma WithoutCons(x: Ino, q: seq<Ino>, gone: set<Ino>)
    ensures Without([x] + q, gone) == (if x in gone then [] else [x]) + Without(q, gone)
  {
    assert ([x] + q)[1..] == q;
  }

  lemma {:induction false} WithoutTwice(q: seq<Ino>, a: set<Ino>, b: set<Ino>)
    ensures Without(Without(q, a), b) == Without(q, a + b)
  {
    if q != [] {
      var x, w := q[0], Without(q[1..], a);
      WithoutTwice(q[1..], a, b);
      WithoutCons(x, q[1..], a);
      WithoutCons(x, q[1..], a + b);
      WithoutCons(x, w, b);
      assert q == [x] + q[1..];
      hide Without;
      assert x in a ==> Without(q, a) == w;
    }
  }

  lemma {:induction false} WithoutNone(q: seq<Ino>, gone: set<Ino>)
    requires forall x | x in q :: x !in gone
    ensures Without(q, gone) == q
  {
    if q != [] {
      WithoutNone(q[1..], gone);
    }
  }

  ghost predicate Once(q: seq<Ino>) {
    forall i, j | 0 <= i < j < |q| :: q[i] != q[j]
  }

  lemma {:induction false} WithoutOnce(q: seq<Ino>, gone: set<Ino>)
    requires Once(q)
    ensures Once(Without(q, gone))
  {
    if q != [] {
      WithoutOnce(q[1..], gone);
      assert forall x | x in Without(q[1..], gone) :: x in q[1..] && x != q[0];
    }
  }

  // ---- forests

  lemma {:induction false} IdsInSet(f: Forest)
    ensures forall x | x in Ids(f) :: x in Set(f)
  {
    if f != Nil {
      IdsInSet(f.rest);
    }
  }

  /** A forest stands as long as nobody changes its inodes. */
  lemma {:induction false} StillGrown(n: map<Ino, Inode>, n': map<Ino, Inode>, f: Forest, parent: Option<Ino>)
    requires Grown(n, f, parent) && forall x | x in Set(f) && x in n :: x in n' && n'[x] == n[x]
    ensures Grown(n', f, parent)
  {
    if f != Nil {
      StillGrown(n, n', f.kids, Some(f.id));
      StillGrown(n, n', f.rest, parent);
    }
  }

  lemma {:induction false} FreedInside(f: Forest, level: nat)
    ensures Freed(f, level) <= Set(f)
    ensures level <= 5 && f != Nil ==> f.id in Freed(f, level)
    decreases f
  {
    if f != Nil && level <= 5 {
      FreedInside(f.kids, level + 1);
      FreedInside(f.rest, level);
    }
  }

  /** What is not freed at once is kept for later, and nothing else is. */
  lemma {:induction false} FreedOrDeferred(f: Forest, level: nat, later: Forest)
    requires Apart(f) && Apart(later) && Set(f) !! Set(later)
    ensures Apart(Deferred(f, level, later))
    ensures Set(Deferred(f, level, later)) == Set(later) + (Set(f) - Freed(f, level))
    decreases f
  {
    if f == Nil {
    } else if level > 5 {
      FreedOrDeferred(f.rest, level, Cons(f.id, f.kids, later));
    } else {
      FreedInside(f.kids, level + 1);
      FreedInside(f.rest, level);
      FreedOrDeferred(f.kids, level + 1, later);
      FreedOrDeferred(f.rest, level, Deferred(f.kids, level + 1, later));
    }
  }

  /** How many parents there are between an inode of `f` and the list itself. */
  function Depth(f: Forest, x: Ino): nat {
    if f == Nil || f.id == x then 0 else if x in Set(f.kids) then 1 + Depth(f.kids, x) else Depth(f.rest, x)
  }

  /** A pass that begins at `level` frees what is not below level 5, and nothing else. */
  lemma {:induction false} FreedIsShallow(f: Forest, level: nat)
    requires Apart(f)
    ensures forall x | x in Set(f) :: x in Freed(f, level) <==> level + Depth(f, x) <= 5
    decreases f
  {
    if f != Nil {
      FreedIsShallow(f.kids, level + 1);
      FreedIsShallow(f.rest, level);
      FreedInside(f.kids, level + 1);
      FreedInside(f.rest, level);
      forall x | x in Set(f)
        ensures x in Freed(f, level) <==> level + Depth(f, x) <= 5
      {
        if level > 5 {
          assert Freed(f, level) == {};
        }
      }
    }
  }

  /** The sub-inodes of `x`, with what is below them. */
  function KidsOf(f: Forest, x: Ino): Forest {
    if f == Nil then Nil else if f.id == x then f.kids else if x in Set(f.kids) then KidsOf(f.kids, x) else KidsOf(f.rest, x)
  }

  /** `f` without `x` and what is below it. */
  function Pruned(f: Forest, x: Ino): Forest {
    if f == Nil then Nil else if f.id == x then f.rest else Cons(f.id, Pruned(f.kids, x), Pruned(f.rest, x))
  }

  /** `f` with a new inode `x` at the end of the sub-inodes of `p`. */
  function Grafted(f: Forest, p: Ino, x: Ino): Forest {
    if f == Nil then Nil
    else if f.id == p then Cons(p, Appended(f.kids, x), f.rest)
    else Cons(f.id, Grafted(f.kids, p, x), Grafted(f.rest, p, x))
  }

  function Appended(f: Forest, x: Ino): Forest {
    if f == Nil then Cons(x, Nil, Nil) else Cons(f.id, f.kids, Appended(f.rest, x))
  }

  lemma {:induction false} KidsInside(f: Forest, x: Ino)
    requires Apart(f) && x in Set(f)
    ensures Apart(KidsOf(f, x)) && Set(KidsOf(f, x)) <= Set(f) && x !in Set(KidsOf(f, x))
  {
    if f.id != x {
      if x in Set(f.kids) {
        KidsInside(f.kids, x);
      } else {
        KidsInside(f.rest, x);
      }
    }
  }

  lemma {:induction false} KidsGrown(n: map<Ino, Inode>, f: Forest, parent: Option<Ino>, x: Ino)
    requires Grown(n, f, parent) && x in Set(f)
    ensures x in n && n[x].subs == Ids(KidsOf(f, x)) && Grown(n, KidsOf(f, x), Some(x))
  {
    if f.id != x {
      if x in Set(f.kids) {
        KidsGrown(n, f.kids, Some(f.id), x);
      } else {
        KidsGrown(n, f.rest, parent, x);
      }
    }
  }

  lemma {:induction false} PrunedSet(f: Forest, x: Ino)
    requires Apart(f)
    ensures Apart(Pruned(f, x))
    ensures Set(Pruned(f, x)) == if x in Set(f) then Set(f) - {x} - Set(KidsOf(f, x)) else Set(f)
  {
    if f != Nil && f.id != x {
      PrunedSet(f.kids, x);
      PrunedSet(f.rest, x);
      if x in Set(f.kids) {
        KidsInside(f.kids, x);
      } else if x in Set(f.rest) {
        KidsInside(f.rest, x);
      }
    }
  }

  lemma {:induction false} PrunedIds(f: Forest, x: Ino)
    requires Apart(f)
    ensures Ids(Pruned(f, x)) == Without(Ids(f), {x})
  {
    if f != Nil {
      assert Ids(f)[1..] == Ids(f.rest);
      if f.id == x {
        IdsInSet(f.rest);
        WithoutNone(Ids(f.rest), {x});
      } else {
        PrunedIds(f.rest, x);
      }
    }
  }

  /** `co_list_del(&inode->node)`: off the list of its parent. */
  function Orphaned(nodes: map<Ino, Inode>, x: Ino): map<Ino, Inode>
    requires x in nodes
  {
    if nodes[x].parent.Some? && nodes[x].parent.value in nodes then
      var p := nodes[x].parent.value;
      nodes[p := nodes[p].(subs := Without(nodes[p].subs, {x}))]
    else nodes
  }

  lemma {:induction false} PrunedNone(f: Forest, x: Ino)
    requires x !in Set(f)
    ensures Pruned(f, x) == f
  {
    if f != Nil {
      PrunedNone(f.kids, x);
      PrunedNone(f.rest, x);
    }
  }

  /** The parent of an inode is the parent of the forest, or an inode of the forest that is not below it. */
  lemma {:induction false} ParentAbove(n: map<Ino, Inode>, f: Forest, parent: Option<Ino>, x: Ino)
    requires Grown(n, f, parent) && Apart(f) && x in Set(f)
    ensures x in n
    ensures x in Ids(f) ==> n[x].parent == parent
    ensures x !in Ids(f) ==> n[x].parent.Some? && n[x].parent.value in Set(f) - {x} - Set(KidsOf(f, x))
  {
    if f.id == x {
    } else if x in Set(f.kids) {
      IdsInSet(f.rest);
      KidsInside(f.kids, x);
      ParentAbove(n, f.kids, Some(f.id), x);
    } else {
      KidsInside(f.rest, x);
      ParentAbove(n, f.rest, parent, x);
    }
  }

  /** All that is at or below `x`. */
  function Subtree(f: Forest, x: Ino): set<Ino> {
    {x} + Set(KidsOf(f, x))
  }

  lemma {:induction false} PrunedGrown(n: map<Ino, Inode>, n': map<Ino, Inode>, f: Forest, parent: Option<Ino>, x: Ino)
    requires Grown(n, f, parent) && Apart(f) && x in Set(f) && x in n && (parent.Some? ==> parent.value !in Set(f))
    requires forall y | y in Set(f) - Subtree(f, x) && y in n :: y in n' && n'[y] == Orphaned(n, x)[y]
    ensures Grown(n', Pruned(f, x), parent)
  {
    ParentAbove(n, f, parent, x);
    if f.id == x {
      StillGrown(n, n', f.rest, parent);
    } else if x in Set(f.kids) {
      IdsInSet(f.rest);
      KidsInside(f.kids, x);
      ParentAbove(n, f.kids, Some(f.id), x);
      PrunedNone(f.rest, x);
      StillGrown(n, n', f.rest, parent);
      PrunedGrown(n, n', f.kids, Some(f.id), x);
      PrunedIds(f.kids, x);
      if x !in Ids(f.kids) {
        WithoutNone(Ids(f.kids), {x});
      }
    } else {
      KidsInside(f.rest, x);
      ParentAbove(n, f.rest, parent, x);
      PrunedNone(f.kids, x);
      StillGrown(n, n', f.kids, Some(f.id));
      PrunedGrown(n, n', f.rest, parent, x);
    }
  }

  // ---- what is below an inode, by following parent pointers

  /** The inode that is reached from `y` by `k` steps to the parent. */
  function Up(n: map<Ino, Inode>, y: Ino, k: nat): Option<Ino>
    decreases k
  {
    if k == 0 then Some(y) else if y !in n || n[y].parent == None then None else Up(n, n[y].parent.value, k - 1)
  }

  lemma {:induction false} UpMore(n: map<Ino, Inode>, y: Ino, k: nat, z: Ino)
    requires Up(n, y, k) == Some(z) && z in n
    ensures Up(n, y, k + 1) == n[z].parent
    decreases k
  {
    if n[z].parent.Some? {
      assert Up(n, n[z].parent.value, 0) == n[z].parent;
    }
    if k > 0 {
      UpMore(n, n[y].parent.value, k - 1, z);
    }
  }

  lemma {:induction false} Climb(n: map<Ino, Inode>, f: Forest, x: Ino, y: Ino) returns (k: nat)
    requires Grown(n, f, Some(x)) && y in Set(f)
    ensures Up(n, y, k) == Some(x)
  {
    if y == f.id {
      k := 1;
      assert Up(n, x, 0) == Some(x);
    } else if y in Set(f.kids) {
      k := Climb(n, f.kids, f.id, y);
      UpMore(n, y, k, f.id);
      k := k + 1;
    } else {
      k := Climb(n, f.rest, x, y);
    }
  }

  /** Whose parent is at or below `x` is below `x`. */
  lemma {:induction false} Closed(n: map<Ino, Inode>, f: Forest, parent: Option<Ino>, x: Ino, y: Ino, p: Ino)
    requires Grown(n, f, parent) && Apart(f) && (parent.Some? ==> parent.value !in Set(f))
    requires x in Set(f) && y in Set(f) && y in n && n[y].parent == Some(p) && p in Subtree(f, x)
    ensures y in Subtree(f, x)
  {
    KidsInside(f, x);
    ParentAbove(n, f, parent, y);
    if y in Set(f.kids) {
      ParentAbove(n, f.kids, Some(f.id), y);
      if f.id != x && x in Set(f.kids) {
        Closed(n, f.kids, Some(f.id), x, y, p);
      } else if f.id != x {
        KidsInside(f.rest, x);
      }
    } else if y in Set(f.rest) {
      ParentAbove(n, f.rest, parent, y);
      if f.id != x && x in Set(f.kids) {
        KidsInside(f.kids, x);
      } else if f.id != x {
        Closed(n, f.rest, parent, x, y, p);
      }
    }
  }

  lemma {:induction false} UpInside(n: map<Ino, Inode>, f: Forest, x: Ino, y: Ino, k: nat)
    requires Grown(n, f, None) && Apart(f) && Set(f) == n.Keys && x in n && y in n && Up(n, y, k) == Some(x)
    ensures y in Subtree(f, x)
    decreases k
  {
    if k > 0 {
      ParentAbove(n, f, None, y);
      UpInside(n, f, x, n[y].parent.value, k - 1);
      Closed(n, f, None, x, y, n[y].parent.value);
    }
  }

  /** The subtree of `x` is everything from which parent pointers lead to `x`. */
  lemma SubtreeIsBelow(n: map<Ino, Inode>, f: Forest, x: Ino, y: Ino)
    requires Grown(n, f, None) && Apart(f) && Set(f) == n.Keys && x in n && y in n
    ensures y in Subtree(f, x) <==> exists k: nat :: Up(n, y, k) == Some(x)
  {
    if y in Subtree(f, x) {
      KidsGrown(n, f, None, x);
      if y == x {
        assert Up(n, y, 0) == Some(x);
      } else {
        var k := Climb(n, KidsOf(f, x), x, y);
        assert Up(n, y, k) == Some(x);
      }
    }
    if exists k: nat :: Up(n, y, k) == Some(x) {
      var k: nat :| Up(n, y, k) == Some(x);
      UpInside(n, f, x, y, k);
    }
  }

  // ---- a new inode

  lemma {:induction false} AppendedGrown(n: map<Ino, Inode>, n': map<Ino, Inode>, f: Forest, parent: Option<Ino>, x: Ino)
    requires Grown(n, f, parent) && x !in Set(f) && forall y | y in Set(f) && y in n :: y in n' && n'[y] == n[y]
    requires x in n' && n'[x].parent == parent && n'[x].subs == []
    ensures Grown(n', Appended(f, x), parent) && Ids(Appended(f, x)) == Ids(f) + [x]
    ensures Set(Appended(f, x)) == Set(f) + {x} && (Apart(f) ==> Apart(Appended(f, x)))
  {
    if f != Nil {
      StillGrown(n, n', f.kids, Some(f.id));
      AppendedGrown(n, n', f.rest, parent, x);
    }
  }

  lemma {:induction false} NotGrafted(f: Forest, p: Ino, x: Ino)
    requires p !in Set(f)
    ensures Grafted(f, p, x) == f
  {
    if f != Nil {
      NotGrafted(f.kids, p, x);
      NotGrafted(f.rest, p, x);
    }
  }

  lemma {:induction false} GraftedGrown(n: map<Ino, Inode>, n': map<Ino, Inode>, f: Forest, parent: Option<Ino>, p: Ino, x: Ino)
    requires Grown(n, f, parent) && Apart(f) && p in Set(f) && p in n && x !in Set(f)
    requires forall y | y in Set(f) && y in n && y != p :: y in n' && n'[y] == n[y]
    requires p in n' && n'[p] == n[p].(subs := n[p].subs + [x])
    requires x in n' && n'[x].parent == Some(p) && n'[x].subs == []
    ensures Grown(n', Grafted(f, p, x), parent) && Apart(Grafted(f, p, x)) && Ids(Grafted(f, p, x)) == Ids(f)
    ensures Set(Grafted(f, p, x)) == Set(f) + {x}
  {
    if f.id == p {
      AppendedGrown(n, n', f.kids, Some(p), x);
      StillGrown(n, n', f.rest, parent);
    } else if p in Set(f.kids) {
      GraftedGrown(n, n', f.kids, Some(f.id), p, x);
      NotGrafted(f.rest, p, x);
      StillGrown(n, n', f.rest, parent);
    } else {
      GraftedGrown(n, n', f.rest, parent, p, x);
      NotGrafted(f.kids, p, x);
      StillGrown(n, n', f.kids, Some(f.id));
    }
  }
}
