/** The inodes of a `co_filesystem_t`, and how `free_inode_with_children` of `filesystem.c` takes a tree of them away. */
module FileSystem {
  import opened Options
  import opened InodeForest

  const CO_FS_HASH_TABLE_SIZE := 0x1000

  /** All inodes; `list_inodes`; `inode_hashes`; `inodes_count`. */
  datatype Fs = Fs(nodes: map<Ino, Inode>, flat: seq<Ino>, hashes: seq<seq<Ino>>, count: int)

  /** The inodes with a number in bucket `b` are in it, once each, and nothing else is. */
  ghost predicate Bucket(nodes: map<Ino, Inode>, h: seq<Ino>, b: int) {
    Once(h) && forall x :: x in h <==> x in nodes && nodes[x].number % CO_FS_HASH_TABLE_SIZE == b
  }

  /** Every inode is on the flat list and in its own hash bucket, once each, and nothing else is. */
  ghost predicate Listed(s: Fs) {
    && Once(s.flat) && (forall x :: x in s.flat <==> x in s.nodes)
    && |s.hashes| == CO_FS_HASH_TABLE_SIZE && (forall b | 0 <= b < |s.hashes| :: Bucket(s.nodes, s.hashes[b], b))
    && s.count == |s.nodes|
  }

  lemma BucketCleared(nodes: map<Ino, Inode>, nodes': map<Ino, Inode>, h: seq<Ino>, b: int, gone: set<Ino>)
    requires Bucket(nodes, h, b) && nodes'.Keys == nodes.Keys - gone
    requires forall x | x in nodes' :: nodes'[x].number == nodes[x].number
    ensures Bucket(nodes', Without(h, gone), b)
  {
    WithoutOnce(h, gone);
    hide Once;
    assert forall x | x in nodes' :: x in nodes;
  }

  lemma BucketAdded(nodes: map<Ino, Inode>, nodes': map<Ino, Inode>, h: seq<Ino>, b: int, x: Ino, number: int)
    requires Bucket(nodes, h, b) && x !in nodes && nodes'.Keys == nodes.Keys + {x} && nodes'[x].number == number
    requires forall y | y in nodes :: nodes'[y].number == nodes[y].number
    ensures Bucket(nodes', if number % CO_FS_HASH_TABLE_SIZE == b then h + [x] else h, b)
  {
    assert forall y | y in nodes' :: y in nodes || y == x;
    if number % CO_FS_HASH_TABLE_SIZE == b {
      OnceAdded(h, x);
    }
    hide Once;
  }

  lemma OnceAdded(h: seq<Ino>, x: Ino)
    requires Once(h) && x !in h
    ensures Once(h + [x])
  {
  }

  /** The lists of `t` are those of `s` without the inodes in `gone`. */
  ghost predicate Cleared(s: Fs, t: Fs, gone: set<Ino>) {
    && t.flat == Without(s.flat, gone)
    && |t.hashes| == |s.hashes| && (forall b | 0 <= b < |s.hashes| :: t.hashes[b] == Without(s.hashes[b], gone))
    && t.count == s.count - |gone|
    && t.nodes.Keys == s.nodes.Keys - gone && gone <= s.nodes.Keys
    && (forall x | x in t.nodes :: t.nodes[x].number == s.nodes[x].number)
  }

  lemma ClearedNone(s: Fs)
    ensures Cleared(s, s, {})
  {
    WithoutNone(s.flat, {});
    forall b | 0 <= b < |s.hashes|
      ensures Without(s.hashes[b], {}) == s.hashes[b]
    {
      WithoutNone(s.hashes[b], {});
    }
  }

  lemma ClearedTwice(s: Fs, t: Fs, u: Fs, a: set<Ino>, b: set<Ino>)
    requires Cleared(s, t, a) && Cleared(t, u, b)
    ensures Cleared(s, u, a + b) && a !! b
  {
    hide Without;
    WithoutTwice(s.flat, a, b);
    forall i | 0 <= i < |s.hashes|
      ensures u.hashes[i] == Without(s.hashes[i], a + b)
    {
      WithoutTwice(s.hashes[i], a, b);
    }
    assert a !! b;
  }

  lemma ClearedListed(s: Fs, t: Fs, gone: set<Ino>)
    requires Listed(s) && Cleared(s, t, gone)
    ensures Listed(t)
  {
    WithoutOnce(s.flat, gone);
    hide Once;
    hide Bucket;
    forall b | 0 <= b < |s.hashes|
      ensures Bucket(t.nodes, t.hashes[b], b)
    {
      BucketCleared(s.nodes, t.nodes, s.hashes[b], b, gone);
    }
    assert |t.nodes.Keys| == |s.nodes.Keys| - |gone|;
  }

  /** `free_inode`: off all lists; off the list of its parent only when it has one. */
  function Unlinked(s: Fs, x: Ino): Fs
    requires x in s.nodes && |s.hashes| == CO_FS_HASH_TABLE_SIZE
  {
    var b := s.nodes[x].number % CO_FS_HASH_TABLE_SIZE;
    Fs(Orphaned(s.nodes, x) - {x}, Without(s.flat, {x}), s.hashes[b := Without(s.hashes[b], {x})], s.count - 1)
  }

  lemma UnlinkedClears(s: Fs, x: Ino)
    requires Listed(s) && x in s.nodes
    ensures Cleared(s, Unlinked(s, x), {x})
  {
    hide Once;
    var t := Unlinked(s, x);
    forall b | 0 <= b < |s.hashes|
      ensures t.hashes[b] == Without(s.hashes[b], {x})
    {
      if b != s.nodes[x].number % CO_FS_HASH_TABLE_SIZE {
        assert Bucket(s.nodes, s.hashes[b], b);
        WithoutNone(s.hashes[b], {x});
      }
    }
  }

  /** The list that `free_inode_children` goes through: what is left of it is `f`. */
  ghost predicate ListOf(nodes: map<Ino, Inode>, parent: Option<Ino>, f: Forest) {
    && Grown(nodes, f, parent) && Apart(f)
    && (parent.Some? ==> parent.value in nodes && parent.value !in Set(f) && nodes[parent.value].subs == Ids(f))
  }

  /** The list of what is left for later. */
  ghost predicate Worklist(nodes: map<Ino, Inode>, later: seq<Ino>, g: Forest) {
    Grown(nodes, g, None) && Apart(g) && later == Ids(g)
  }

  /** Nothing changes but what belongs to the forest `f`, and the list it is in. */
  ghost predicate SameElsewhere(n: map<Ino, Inode>, n': map<Ino, Inode>, f: Forest, parent: Option<Ino>) {
    forall x | x in n && x !in Set(f) && Some(x) != parent :: x in n' && n'[x] == n[x]
  }

  /** The parent of the list has lost what was taken off the list, and nothing else. */
  ghost predicate ListNow(n: map<Ino, Inode>, n': map<Ino, Inode>, parent: Option<Ino>, f: Forest) {
    parent.Some? && parent.value in n ==> parent.value in n' && n'[parent.value] == n[parent.value].(subs := Ids(f))
  }

  /** The first inode of a list is put off: off the list, to the front of what is left for later. */
  function PutOff(nodes: map<Ino, Inode>, x: Ino): map<Ino, Inode>
    requires x in nodes
  {
    Orphaned(nodes, x)[x := nodes[x].(parent := None)]
  }

  lemma FirstGone(nodes: map<Ino, Inode>, parent: Option<Ino>, f: Forest)
    requires ListOf(nodes, parent, f) && f != Nil
    ensures f.id in nodes && Some(f.id) != parent && f.id !in Ids(f.rest) && Without(Ids(f), {f.id}) == Ids(f.rest)
  {
    IdsInSet(f.rest);
    WithoutCons(f.id, Ids(f.rest), {f.id});
    WithoutNone(Ids(f.rest), {f.id});
  }

  /** Before a turn: `f` is left of the list, and `g` is for later. */
  ghost predicate At(nodes: map<Ino, Inode>, parent: Option<Ino>, f: Forest, later: seq<Ino>, g: Forest) {
    && ListOf(nodes, parent, f) && Worklist(nodes, later, g)
    && Set(f) !! Set(g) && (parent.Some? ==> parent.value !in Set(g))
  }

  /** From `n` to `n'` the list `f` has become `left`, and nothing has changed elsewhere. */
  ghost predicate Moved(n: map<Ino, Inode>, n': map<Ino, Inode>, parent: Option<Ino>, f: Forest, left: Forest) {
    SameElsewhere(n, n', f, parent) && ListNow(n, n', parent, left)
  }

  lemma MovedTwice(n: map<Ino, Inode>, m: map<Ino, Inode>, u: map<Ino, Inode>, parent: Option<Ino>, f: Forest, r: Forest, q: Forest)
    requires Moved(n, m, parent, f, r) && Moved(m, u, parent, r, q) && Set(r) <= Set(f)
    ensures Moved(n, u, parent, f, q)
  {
  }

  lemma PutOffGrown(n: map<Ino, Inode>, parent: Option<Ino>, f: Forest, later: seq<Ino>, g: Forest)
    requires At(n, parent, f, later, g) && f != Nil && parent.Some?
    ensures f.id in n && Grown(PutOff(n, f.id), f.rest, parent) && Worklist(PutOff(n, f.id), [f.id] + later, Cons(f.id, f.kids, g))
  {
    FirstGone(n, parent, f);
    var n' := PutOff(n, f.id);
    PutOffElsewhere(n, parent, f);
    hide PutOff;
    hide Without;
    assert Grown(n, f.rest, parent) && Grown(n, f.kids, Some(f.id)) && n[f.id].subs == Ids(f.kids);
    assert parent.value !in Set(f.rest) && parent.value !in Set(f.kids) && f.id !in Set(f.rest) && f.id !in Set(f.kids);
    StillGrown(n, n', f.rest, parent);
    StillGrown(n, n', f.kids, Some(f.id));
    StillGrown(n, n', g, None);
    assert n'[f.id].parent == None && n'[f.id].subs == Ids(f.kids);
    assert Grown(n', Cons(f.id, f.kids, g), None);
    hide Grown;
    assert Apart(Cons(f.id, f.kids, g));
  }

  lemma PutOffElsewhere(n: map<Ino, Inode>, parent: Option<Ino>, f: Forest)
    requires ListOf(n, parent, f) && f != Nil && parent.Some?
    ensures f.id in n
    ensures var n' := PutOff(n, f.id);
      && f.id in n' && n'[f.id].parent == None && n'[f.id].subs == n[f.id].subs
      && forall y | y in n && y != f.id && y != parent.value :: y in n' && n'[y] == n[y]
  {
    hide Apart;
    hide Set;
  }

  lemma PutOffStep(n: map<Ino, Inode>, parent: Option<Ino>, f: Forest, later: seq<Ino>, g: Forest)
    requires At(n, parent, f, later, g) && f != Nil && parent.Some?
    ensures f.id in n
    ensures var n', x := PutOff(n, f.id), f.id;
      && At(n', parent, f.rest, [x] + later, Cons(x, f.kids, g)) && Moved(n, n', parent, f, f.rest)
      && n'.Keys == n.Keys && forall y | y in n' :: n'[y].number == n[y].number
  {
    PutOffMoved(n, parent, f);
    PutOffGrown(n, parent, f, later, g);
    hide Grown;
    hide PutOff;
    hide SameElsewhere;
  }

  lemma PutOffMoved(n: map<Ino, Inode>, parent: Option<Ino>, f: Forest)
    requires ListOf(n, parent, f) && f != Nil && parent.Some?
    ensures f.id in n
    ensures var n' := PutOff(n, f.id);
      && Moved(n, n', parent, f, f.rest) && n'.Keys == n.Keys
      && n'[parent.value].subs == Ids(f.rest) && forall y | y in n' :: n'[y].number == n[y].number
  {
    FirstGone(n, parent, f);
    assert n[f.id].parent == parent;
    hide Grown;
    hide Without;
    hide Apart;
  }

  /** The first inode of a list is freed, when everything below it has been dealt with and left `d` for later. */
  lemma FreeStep(n: map<Ino, Inode>, m: map<Ino, Inode>, parent: Option<Ino>, f: Forest, later: seq<Ino>, d: Forest)
    requires ListOf(n, parent, f) && f != Nil && Moved(n, m, Some(f.id), f.kids, Nil)
    requires Worklist(m, later, d) && f.id !in Set(d) && Set(f.rest) !! Set(d) && (parent.Some? ==> parent.value !in Set(d))
    ensures f.id in m
    ensures var n' := Orphaned(m, f.id) - {f.id};
      At(n', parent, f.rest, later, d) && Moved(n, n', parent, f, f.rest)
  {
    FirstGone(n, parent, f);
    var x := f.id;
    var n' := Orphaned(m, x) - {x};
    assert m[x].parent == parent;
    assert parent.Some? ==> m[parent.value] == n[parent.value];
    StillGrown(n, n', f.rest, parent);
    StillGrown(m, n', d, None);
  }

  /** What is below the first inode is a list of its own. */
  lemma Descend(n: map<Ino, Inode>, parent: Option<Ino>, f: Forest, later: seq<Ino>, g: Forest)
    requires At(n, parent, f, later, g) && f != Nil
    ensures f.id in n && n[f.id].subs == Ids(f.kids) && At(n, Some(f.id), f.kids, later, g)
  {
  }

  /** What a turn of the loop leaves for later, and frees. */
  function TurnDeferred(f: Forest, level: nat, g: Forest): Forest
    requires f != Nil
  {
    if level > 5 then Cons(f.id, f.kids, g) else Deferred(f.kids, level + 1, g)
  }

  function TurnFreed(f: Forest, level: nat): set<Ino>
    requires f != Nil
  {
    if level > 5 then {} else {f.id} + Freed(f.kids, level + 1)
  }

  lemma TurnAdds(f: Forest, level: nat, g: Forest, done: set<Ino>)
    requires f != Nil
    ensures Deferred(f, level, g) == Deferred(f.rest, level, TurnDeferred(f, level, g))
    ensures done + Freed(f, level) == (done + TurnFreed(f, level)) + Freed(f.rest, level)
    ensures Set(f.rest) <= Set(f)
  {
  }

  lemma InBucket(s: Fs, number: int)
    requires Listed(s)
    ensures |s.hashes| == CO_FS_HASH_TABLE_SIZE
    ensures var b := s.hashes[number % CO_FS_HASH_TABLE_SIZE];
      && (forall i | 0 <= i < |b| :: b[i] in s.nodes)
      && (forall x | x in s.nodes && s.nodes[x].number == number :: x in b)
  {
    var b := s.hashes[number % CO_FS_HASH_TABLE_SIZE];
    assert Bucket(s.nodes, b, number % CO_FS_HASH_TABLE_SIZE);
    assert forall i | 0 <= i < |b| :: b[i] in b;
  }

  lemma NewListed(r: Ino, s: Fs)
    requires s.nodes == map[r := Inode(1, None, [])] && s.flat == [r] && s.count == 1 && |s.hashes| == CO_FS_HASH_TABLE_SIZE
    requires forall b | 0 <= b < |s.hashes| :: s.hashes[b] == if b == 1 then [r] else []
    ensures Listed(s)
  {
    forall b | 0 <= b < |s.hashes|
      ensures Bucket(s.nodes, s.hashes[b], b)
    {
    }
  }

  lemma NewRooted(r: Ino)
    ensures var nodes := map[r := Inode(1, None, [])];
      Rooted(nodes, Cons(r, Nil, Nil), r) && Numbered(nodes, r)
  {
    var nodes, tree := map[r := Inode(1, None, [])], Cons(r, Nil, Nil);
    assert tree.kids == Nil && tree.rest == Nil;
    assert Set(tree) == {r} + Set(Nil) + Set(Nil) == {r};
    assert Grown(nodes, Nil, Some(r)) && Ids(Nil) == [] && Grown(nodes, Nil, None);
    assert Grown(nodes, tree, None);
    assert Apart(tree);
  }

  /** `alloc_inode`: at the end of every list it belongs to. */
  function Added(s: Fs, p: Ino, x: Ino, number: int): Fs
    requires p in s.nodes && |s.hashes| == CO_FS_HASH_TABLE_SIZE
  {
    var b := number % CO_FS_HASH_TABLE_SIZE;
    Fs(s.nodes[p := s.nodes[p].(subs := s.nodes[p].subs + [x])][x := Inode(number, Some(p), [])], s.flat + [x],
       s.hashes[b := s.hashes[b] + [x]], s.count + 1)
  }

  lemma AddedListed(s: Fs, p: Ino, x: Ino, number: int)
    requires Listed(s) && p in s.nodes && x !in s.nodes
    ensures |s.hashes| == CO_FS_HASH_TABLE_SIZE && Listed(Added(s, p, x, number))
  {
    var t := Added(s, p, x, number);
    assert t.nodes.Keys == s.nodes.Keys + {x};
    assert |t.nodes| == |t.nodes.Keys| && |s.nodes| == |s.nodes.Keys|;
    assert forall y | y in s.nodes :: t.nodes[y].number == s.nodes[y].number;
    OnceAdded(s.flat, x);
    hide Once;
    hide Bucket;
    forall b | 0 <= b < |t.hashes|
      ensures Bucket(t.nodes, t.hashes[b], b)
    {
      BucketAdded(s.nodes, t.nodes, s.hashes[b], b, x, number);
    }
  }

  lemma AddedRooted(s: Fs, tree: Forest, root: Ino, p: Ino, x: Ino, number: int)
    requires Rooted(s.nodes, tree, root) && p in s.nodes && x !in s.nodes && |s.hashes| == CO_FS_HASH_TABLE_SIZE
    ensures Rooted(Added(s, p, x, number).nodes, Grafted(tree, p, x), root)
  {
    GraftedGrown(s.nodes, Added(s, p, x, number).nodes, tree, None, p, x);
    assert Added(s, p, x, number).nodes.Keys == s.nodes.Keys + {x};
  }

  lemma AddedNumbered(s: Fs, root: Ino, p: Ino, x: Ino, number: int)
    requires Numbered(s.nodes, root) && p in s.nodes && x !in s.nodes && |s.hashes| == CO_FS_HASH_TABLE_SIZE
    requires number >= 1 && forall y | y in s.nodes :: s.nodes[y].number != number
    ensures Numbered(Added(s, p, x, number).nodes, root)
  {
    var t := Added(s, p, x, number);
    assert forall y | y in s.nodes :: t.nodes[y].number == s.nodes[y].number;
  }

  class FileSystem {
    var nodes: map<Ino, Inode>
    var flat: seq<Ino>
    var hashes: seq<seq<Ino>>
    var count: int
    /** `root`, the inode with number 1 */
    const root: Ino
    var nextInodeNum: int
    /** how the inodes hang together */
    ghost var tree: Forest

    ghost predicate Valid()
      reads this
    {
      Listed(S()) && Rooted(nodes, tree, root) && Numbered(nodes, root) && nextInodeNum >= 1
    }

    /** The inodes of `co_monitor_file_system_init`: a root, with number 1. */
    constructor (r: Ino)
      ensures Valid() && root == r && nodes == map[r := Inode(1, None, [])]
    {
      root := r;
      nodes, flat, count, nextInodeNum := map[r := Inode(1, None, [])], [r], 1, 2;
      hashes := seq(CO_FS_HASH_TABLE_SIZE, b => if b == 1 then [r] else []);
      tree := Cons(r, Nil, Nil);
      new;
      NewListed(r, S());
      hide Listed;
      NewRooted(r);
    }

    /** `ino_num_to_inode` */
    method InoNumToInode(ino: int) returns (found: Option<Ino>)
      requires Valid() && ino >= 0
      ensures match found case Some(x) => x in nodes && nodes[x].number == ino
                          case None => forall x | x in nodes :: nodes[x].number != ino
    {
      hide Rooted;
      if ino == 1 {
        return Some(root);
      }
      hide Listed;
      hide Numbered;
      InBucket(S(), ino);
      var bucket := hashes[ino % CO_FS_HASH_TABLE_SIZE];
      for i := 0 to |bucket|
        invariant forall j | 0 <= j < i :: nodes[bucket[j]].number != ino
      {
        if nodes[bucket[i]].number == ino {
          return Some(bucket[i]);
        }
      }
      return None;
    }

    /** Lines 45-48: the next number that no inode has. */
    method FreshNumber() returns (number: int)
      requires Valid()
      modifies `nextInodeNum
      ensures Valid() && number >= 1 && forall x | x in nodes :: nodes[x].number != number
    {
      hide Listed;
      hide Rooted;
      ghost var above := set x | x in nodes && nodes[x].number >= nextInodeNum;
      number := nextInodeNum;
      nextInodeNum := nextInodeNum + 1;
      var taken := InoNumToInode(number);
      while taken.Some?
        invariant Valid() && number >= 1 && nextInodeNum == number + 1
        invariant above == set x | x in nodes && nodes[x].number >= number
        invariant match taken case Some(x) => x in nodes && nodes[x].number == number
                              case None => forall x | x in nodes :: nodes[x].number != number
        decreases |above|
      {
        ghost var fewer := set x | x in nodes && nodes[x].number >= nextInodeNum;
        assert taken.value in above && taken.value !in fewer;
        FewerLeft(fewer, above);
        above := fewer;
        number := nextInodeNum;
        nextInodeNum := nextInodeNum + 1;
        taken := InoNumToInode(number);
      }
    }

    /** `alloc_inode` below an inode, at the address `x`. */
    method AllocInode(p: Ino, x: Ino)
      requires Valid() && p in nodes && x !in nodes
      modifies this
      ensures Valid() && tree == Grafted(old(tree), p, x) && x in nodes && S() == Added(old(S()), p, x, nodes[x].number)
      ensures flat == old(flat) + [x] && count == old(count) + 1 && nodes.Keys == old(nodes).Keys + {x}
      ensures nodes[x].parent == Some(p) && nodes[x].subs == [] && forall y | y in old(nodes) :: old(nodes)[y].number != nodes[x].number
      ensures forall y | y in old(nodes) ::
                && nodes[y].number == old(nodes)[y].number && nodes[y].parent == old(nodes)[y].parent
                && nodes[y].subs == old(nodes)[y].subs + if y == p then [x] else []
      ensures var b := nodes[x].number % 0x1000; |hashes| == |old(hashes)| == 0x1000 && hashes == old(hashes)[b := old(hashes)[b] + [x]]
    {
      hide Listed;
      hide Rooted;
      hide Numbered;
      ghost var s := S();
      var number := FreshNumber();
      AddedListed(s, p, x, number);
      AddedRooted(s, tree, root, p, x, number);
      AddedNumbered(s, root, p, x, number);
      var b := number % CO_FS_HASH_TABLE_SIZE;
      nodes := nodes[p := nodes[p].(subs := nodes[p].subs + [x])][x := Inode(number, Some(p), [])];
      flat := flat + [x];
      hashes := hashes[b := hashes[b] + [x]];
      count := count + 1;
      tree := Grafted(tree, p, x);
      assert S() == Added(s, p, x, number);
    }

    /** `inode_forget`, for any inode but the root. */
    method InodeForget(ino: int)
      requires Valid() && ino >= 0 && ino != 1
      modifies `nodes, `flat, `hashes, `count, `tree
      ensures Valid()
      ensures (forall x | x in old(nodes) :: old(nodes)[x].number != ino) ==> S() == old(S())
      ensures forall x | x in old(nodes) && old(nodes)[x].number == ino ::
        nodes == Removed(old(nodes), old(tree), x) && Cleared(old(S()), S(), Subtree(old(tree), x))
    {
      hide Listed;
      hide Rooted;
      hide Removed;
      hide Cleared;
      var found := InoNumToInode(ino);
      if found.Some? {
        FreeWithChildren(found.value);
      }
    }

    ghost function S(): Fs
      reads this
    {
      Fs(nodes, flat, hashes, count)
    }

    /** `free_inode` */
    method FreeInode(x: Ino)
      requires Listed(S()) && x in nodes
      modifies `nodes, `flat, `hashes, `count
      ensures S() == Unlinked(old(S()), x) && Cleared(old(S()), S(), {x}) && Listed(S())
    {
      hide Listed;
      hide Cleared;
      hide Without;
      hide Orphaned;
      ghost var s := S();
      InBucket(s, 0);
      var b := nodes[x].number % CO_FS_HASH_TABLE_SIZE;
      UnlinkedClears(s, x);
      ClearedListed(s, Unlinked(s, x), {x});
      flat := Without(flat, {x});
      hashes := hashes[b := Without(hashes[b], {x})];
      nodes := Orphaned(nodes, x) - {x};
      count := count - 1;
      assert S() == Unlinked(s, x);
    }

    /** A turn of the loop for the first inode of what is left of the list, at the last level. */
    method DeferFirst(parent: Option<Ino>, x: Ino, later: seq<Ino>, ghost f: Forest, ghost g: Forest)
      returns (later': seq<Ino>)
      requires Listed(S()) && parent.Some? && f != Nil && x == f.id && At(nodes, parent, f, later, g)
      modifies `nodes, `flat, `hashes, `count
      ensures Listed(S()) && Cleared(old(S()), S(), {})
      ensures At(nodes, parent, f.rest, later', Cons(x, f.kids, g)) && Moved(old(nodes), nodes, parent, f, f.rest)
    {
      hide Listed;
      hide Cleared;
      hide At;
      hide Moved;
      ghost var s := S();
      PutOffStep(nodes, parent, f, later, g);
      nodes := PutOff(nodes, x);
      later' := [x] + later;
      OnlyNodes(s, S());
    }

    /** A turn of the loop at the other levels. */
    method FreeFirst(parent: Option<Ino>, x: Ino, level: nat, later: seq<Ino>, ghost f: Forest, ghost g: Forest)
      returns (later': seq<Ino>)
      requires Listed(S()) && level <= 5 && f != Nil && x == f.id && At(nodes, parent, f, later, g)
      modifies `nodes, `flat, `hashes, `count
      ensures Listed(S()) && Cleared(old(S()), S(), {x} + Freed(f.kids, level + 1))
      ensures At(nodes, parent, f.rest, later', Deferred(f.kids, level + 1, g)) && Moved(old(nodes), nodes, parent, f, f.rest)
      decreases 6 - level, 0
    {
      hide Listed;
      hide Cleared;
      hide At;
      hide Moved;
      hide Freed;
      hide Deferred;
      hide Set;
      hide Orphaned;
      ghost var s := S();
      Descend(nodes, parent, f, later, g);
      later' := FreeChildren(Some(x), nodes[x].subs, level + 1, later, f.kids, g);
      ghost var t := S();
      FreeFirstStep(s.nodes, t.nodes, parent, f, later, g, later', level);
      FreeInode(x);
      ClearedTwice(s, t, S(), Freed(f.kids, level + 1), {x});
      assert {x} + Freed(f.kids, level + 1) == Freed(f.kids, level + 1) + {x};
    }

    /** `free_inode_children`: never deeper than level 6. */
    method FreeChildren(parent: Option<Ino>, now: seq<Ino>, level: nat, later: seq<Ino>, ghost f: Forest, ghost g: Forest)
      returns (later': seq<Ino>)
      requires Listed(S()) && level <= 6 && (level > 5 ==> parent.Some?)
      requires At(nodes, parent, f, later, g) && now == Ids(f)
      modifies `nodes, `flat, `hashes, `count
      ensures Listed(S()) && Cleared(old(S()), S(), Freed(f, level))
      ensures At(nodes, parent, Nil, later', Deferred(f, level, g)) && Moved(old(nodes), nodes, parent, f, Nil)
      decreases 6 - level, 1
    {
      hide Listed;
      hide Cleared;
      hide At;
      hide Moved;
      hide Set;
      ghost var s, rest, cur, done := S(), f, g, {};
      ClearedNone(s);
      NotMoved(nodes, parent, f, later, g);
      later' := later;
      for i := 0 to |now|
        invariant Listed(S()) && At(nodes, parent, rest, later', cur) && now[i..] == Ids(rest) && Set(rest) <= Set(f)
        invariant Cleared(s, S(), done) && done + Freed(rest, level) == Freed(f, level)
        invariant Deferred(rest, level, cur) == Deferred(f, level, g)
        invariant Moved(s.nodes, nodes, parent, f, rest)
      {
        ghost var t := S();
        TurnAdds(rest, level, cur, done);
        if level > 5 {
          later' := DeferFirst(parent, now[i], later', rest, cur);
        } else {
          later' := FreeFirst(parent, now[i], level, later', rest, cur);
        }
        ClearedTwice(s, t, S(), done, TurnFreed(rest, level));
        MovedTwice(s.nodes, t.nodes, nodes, parent, f, rest, rest.rest);
        done, cur := done + TurnFreed(rest, level), TurnDeferred(rest, level, cur);
        rest := rest.rest;
      }
    }

    /** Lines 139-148: goes through what was left for later, and what that leaves, until nothing is left. */
    method FreeLater(toDelete: seq<Ino>, ghost f: Forest)
      requires Listed(S()) && At(nodes, None, f, [], Nil) && toDelete == Ids(f)
      modifies `nodes, `flat, `hashes, `count
      ensures Listed(S()) && Cleared(old(S()), S(), Set(f)) && Untouched(old(nodes), nodes, Set(f))
    {
      hide Listed;
      hide Cleared;
      hide At;
      hide Moved;
      hide Untouched;
      ghost var s, cur, done := S(), f, {};
      ClearedNone(s);
      NothingTouched(nodes, Set(f));
      var now := toDelete;
      while now != []
        invariant Listed(S()) && At(nodes, None, cur, [], Nil) && now == Ids(cur)
        invariant Cleared(s, S(), done) && done + Set(cur) == Set(f) && Untouched(s.nodes, nodes, Set(f))
        decreases |Set(cur)|
      {
        var next;
        next, cur, done := OneSweep(now, s, cur, done, Set(f));
        if next == [] {
          break;
        }
        now, cur, done := OneSweep(next, s, cur, done, Set(f));
      }
      assert cur == Nil;
    }

    /** `free_inode_children` for a list of inodes that were left for later. */
    method OneSweep(now: seq<Ino>, ghost s: Fs, ghost cur: Forest, ghost done: set<Ino>, ghost all: set<Ino>)
      returns (next: seq<Ino>, ghost cur': Forest, ghost done': set<Ino>)
      requires Listed(S()) && now != [] && now == Ids(cur) && At(nodes, None, cur, [], Nil)
      requires Cleared(s, S(), done) && done + Set(cur) == all && Untouched(s.nodes, nodes, all)
      modifies `nodes, `flat, `hashes, `count
      ensures Listed(S()) && At(nodes, None, cur', [], Nil) && next == Ids(cur')
      ensures Cleared(s, S(), done') && done' + Set(cur') == all && Untouched(s.nodes, nodes, all)
      ensures |Set(cur')| < |Set(cur)|
    {
      hide Listed;
      hide Cleared;
      hide Moved;
      hide Untouched;
      ghost var t := S();
      AtTells(nodes, None, cur, [], Nil);
      assert Apart(cur);
      hide At;
      next := FreeChildren(None, now, 0, [], cur, Nil);
      cur' := Deferred(cur, 0, Nil);
      done' := done + Freed(cur, 0);
      LaterIsNext(nodes, cur, next);
      ClearedTwice(s, t, S(), done, Freed(cur, 0));
      MovedUntouched(s.nodes, t.nodes, nodes, cur, all);
      FewerLeft(Set(cur'), Set(cur));
    }

    /** `free_inode_with_children` */
    method FreeWithChildren(x: Ino)
      requires Valid() && x in nodes && x != root
      modifies `nodes, `flat, `hashes, `count, `tree
      ensures Valid() && Cleared(old(S()), S(), Subtree(old(tree), x))
      ensures nodes == Removed(old(nodes), old(tree), x) && tree == Pruned(old(tree), x)
    {
      hide Listed;
      hide Cleared;
      hide Untouched;
      hide Set;
      hide Subtree;
      hide Removed;
      hide Pruned;
      ghost var s := S();
      var toDelete;
      ghost var d;
      toDelete, d := FreeTop(x);
      ghost var t := S();
      FreeLater(toDelete, d);
      ghost var gone := Subtree(tree, x);
      ClearedTwice(s, t, S(), gone - Set(d), Set(d));
      assert gone - Set(d) + Set(d) == gone;
      ExactlyRemoved(s, t, S(), tree, x, d);
      RemovedRooted(s.nodes, tree, root, x);
      RemovedNumbered(s.nodes, tree, root, x);
      hide Rooted;
      hide Numbered;
      tree := Pruned(tree, x);
    }

    /** Lines 135-137: what is near, and the inode itself. */
    method FreeTop(x: Ino) returns (toDelete: seq<Ino>, ghost d: Forest)
      requires Valid() && x in nodes && x != root
      modifies `nodes, `flat, `hashes, `count
      ensures Listed(S()) && At(nodes, None, d, [], Nil) && toDelete == Ids(d) && Set(d) <= Subtree(tree, x)
      ensures Cleared(old(S()), S(), Subtree(tree, x) - Set(d))
      ensures Untouched(Orphaned(old(nodes), x), nodes, Subtree(tree, x))
    {
      hide Listed;
      hide Cleared;
      hide At;
      hide Moved;
      hide Untouched;
      hide Rooted;
      hide Numbered;
      hide Orphaned;
      ghost var s, kids := S(), KidsOf(tree, x);
      StartBelow(nodes, tree, root, x);
      toDelete := FreeChildren(Some(x), nodes[x].subs, 0, [], kids, Nil);
      ghost var t := S();
      d := Deferred(kids, 0, Nil);
      assert Freed(kids, 0) + Set(d) == Set(kids) && Freed(kids, 0) !! Set(d) && x !in Set(kids) by {
        AtTells(s.nodes, Some(x), kids, [], Nil);
        FreedInside(kids, 0);
        FreedOrDeferred(kids, 0, Nil);
      }
      TopFreed(s.nodes, t.nodes, x, kids, toDelete, d);
      FreeInode(x);
      ClearedTwice(s, t, S(), Freed(kids, 0), {x});
      assert Freed(kids, 0) + {x} == Subtree(tree, x) - Set(d);
      Restart(nodes, toDelete, d);
    }
  }

  lemma NotMoved(n: map<Ino, Inode>, parent: Option<Ino>, f: Forest, later: seq<Ino>, g: Forest)
    requires At(n, parent, f, later, g)
    ensures Moved(n, n, parent, f, f)
  {
  }

  /** What was left for later becomes the list to go through, and it is shorter than the list it was left from. */
  lemma LaterIsNext(nodes: map<Ino, Inode>, f: Forest, later: seq<Ino>)
    requires Apart(f) && At(nodes, None, Nil, later, Deferred(f, 0, Nil))
    ensures At(nodes, None, Deferred(f, 0, Nil), [], Nil) && later == Ids(Deferred(f, 0, Nil))
    ensures Freed(f, 0) + Set(Deferred(f, 0, Nil)) == Set(f) && Set(Deferred(f, 0, Nil)) <= Set(f)
    ensures f != Nil ==> Set(Deferred(f, 0, Nil)) < Set(f)
  {
    FreedInside(f, 0);
    FreedOrDeferred(f, 0, Nil);
  }

  /** Nothing outside of `gone` changes. */
  ghost predicate Untouched(n: map<Ino, Inode>, n': map<Ino, Inode>, gone: set<Ino>) {
    forall x | x in n && x !in gone :: x in n' && n'[x] == n[x]
  }

  lemma MovedUntouched(n: map<Ino, Inode>, m: map<Ino, Inode>, u: map<Ino, Inode>, f: Forest, gone: set<Ino>)
    requires Untouched(n, m, gone) && Moved(m, u, None, f, Nil) && Set(f) <= gone
    ensures Untouched(n, u, gone)
  {
  }

  lemma FewerLeft(a: set<Ino>, b: set<Ino>)
    requires a < b
    ensures |a| < |b|
  {
    assert b == a + (b - a);
  }

  /** Everything in the filesystem hangs below its root. */
  ghost predicate Rooted(nodes: map<Ino, Inode>, tree: Forest, root: Ino) {
    && tree.Cons? && tree.id == root && tree.rest == Nil
    && Grown(nodes, tree, None) && Apart(tree) && Set(tree) == nodes.Keys
  }

  /** Inode numbers are positive and distinct, and 1 is that of the root. */
  ghost predicate Numbered(nodes: map<Ino, Inode>, root: Ino) {
    && root in nodes && nodes[root].number == 1 && (forall x | x in nodes :: nodes[x].number >= 1)
    && (forall x, y | x in nodes && y in nodes && nodes[x].number == nodes[y].number :: x == y)
  }

  /** The inodes without `x` and all that is below it. */
  ghost function Removed(nodes: map<Ino, Inode>, tree: Forest, x: Ino): map<Ino, Inode>
    requires x in nodes
  {
    Orphaned(nodes, x) - Subtree(tree, x)
  }

  lemma RemovedRooted(nodes: map<Ino, Inode>, tree: Forest, root: Ino, x: Ino)
    requires Rooted(nodes, tree, root) && x in nodes && x != root
    ensures Rooted(Removed(nodes, tree, x), Pruned(tree, x), root)
  {
    ParentAbove(nodes, tree, None, x);
    PrunedGrown(nodes, Removed(nodes, tree, x), tree, None, x);
    PrunedSet(tree, x);
    KidsInside(tree, x);
    assert Removed(nodes, tree, x).Keys == nodes.Keys - Subtree(tree, x);
  }

  lemma RemovedNumbered(nodes: map<Ino, Inode>, tree: Forest, root: Ino, x: Ino)
    requires Numbered(nodes, root) && Rooted(nodes, tree, root) && x in nodes && x != root
    ensures Numbered(Removed(nodes, tree, x), root)
  {
    KidsInside(tree.kids, x);
    assert root !in Subtree(tree, x);
    var n' := Removed(nodes, tree, x);
    assert forall y | y in n' :: y in nodes && n'[y].number == nodes[y].number;
    assert root in n';
    hide Rooted;
    hide Removed;
  }

  /** An inode other than the root, and the list of what is below it. */
  lemma StartBelow(nodes: map<Ino, Inode>, tree: Forest, root: Ino, x: Ino)
    requires Rooted(nodes, tree, root) && x in nodes && x != root
    ensures At(nodes, Some(x), KidsOf(tree, x), [], Nil) && nodes[x].subs == Ids(KidsOf(tree, x))
    ensures nodes[x].parent.Some? && nodes[x].parent.value in nodes && nodes[x].parent.value !in Subtree(tree, x)
  {
    KidsInside(tree, x);
    KidsGrown(nodes, tree, None, x);
    ParentAbove(nodes, tree, None, x);
  }

  /** Freeing the inode itself, when what could be freed below it is gone. */
  lemma TopFreed(n: map<Ino, Inode>, m: map<Ino, Inode>, x: Ino, f: Forest, later: seq<Ino>, d: Forest)
    requires x in n && n[x].parent.Some? && n[x].parent.value in n && n[x].parent.value !in {x} + Set(f)
    requires Moved(n, m, Some(x), f, Nil) && At(m, Some(x), Nil, later, d) && Set(d) <= Set(f)
    ensures x in m
    ensures var u := Orphaned(m, x) - {x};
      At(u, None, Nil, later, d) && Untouched(Orphaned(n, x), u, {x} + Set(f))
  {
    assert m[x].parent == n[x].parent && m[n[x].parent.value] == n[n[x].parent.value];
    StillGrown(m, Orphaned(m, x) - {x}, d, None);
  }

  lemma AtTells(n: map<Ino, Inode>, parent: Option<Ino>, f: Forest, later: seq<Ino>, g: Forest)
    requires At(n, parent, f, later, g)
    ensures ListOf(n, parent, f) && Worklist(n, later, g)
  {
  }

  /** What is below the first inode leaves nothing for later that could be met in the rest of the list. */
  lemma BelowApart(n: map<Ino, Inode>, parent: Option<Ino>, f: Forest, later: seq<Ino>, g: Forest, level: nat)
    requires At(n, parent, f, later, g) && f != Nil
    ensures var d := Deferred(f.kids, level + 1, g);
      f.id !in Set(d) && Set(f.rest) !! Set(d) && (parent.Some? ==> parent.value !in Set(d))
  {
    FreedOrDeferred(f.kids, level + 1, g);
  }

  lemma FreeFirstStep(n: map<Ino, Inode>, m: map<Ino, Inode>, parent: Option<Ino>, f: Forest, later: seq<Ino>, g: Forest,
                      later': seq<Ino>, level: nat)
    requires At(n, parent, f, later, g) && f != Nil
    requires At(m, Some(f.id), Nil, later', Deferred(f.kids, level + 1, g)) && Moved(n, m, Some(f.id), f.kids, Nil)
    ensures f.id in m
    ensures var n' := Orphaned(m, f.id) - {f.id};
      At(n', parent, f.rest, later', Deferred(f.kids, level + 1, g)) && Moved(n, n', parent, f, f.rest)
  {
    BelowApart(n, parent, f, later, g, level);
    AtTells(n, parent, f, later, g);
    AtTells(m, Some(f.id), Nil, later', Deferred(f.kids, level + 1, g));
    hide At;
    hide ListOf;
    hide Worklist;
    hide Moved;
    hide Set;
    FreeStep(n, m, parent, f, later', Deferred(f.kids, level + 1, g));
  }

  lemma OnlyNodes(s: Fs, t: Fs)
    requires Listed(s) && t == s.(nodes := t.nodes) && t.nodes.Keys == s.nodes.Keys
    requires forall x | x in t.nodes :: t.nodes[x].number == s.nodes[x].number
    ensures Listed(t) && Cleared(s, t, {})
  {
    ClearedNone(s);
    ClearedListed(s, t, {});
  }

  lemma NothingTouched(n: map<Ino, Inode>, gone: set<Ino>)
    ensures Untouched(n, n, gone)
  {
  }

  lemma Restart(nodes: map<Ino, Inode>, later: seq<Ino>, d: Forest)
    requires At(nodes, None, Nil, later, d)
    ensures At(nodes, None, d, [], Nil) && later == Ids(d)
  {
  }

  lemma ExactlyRemoved(s: Fs, t: Fs, u: Fs, tree: Forest, x: Ino, d: Forest)
    requires x in s.nodes && Untouched(Orphaned(s.nodes, x), t.nodes, Subtree(tree, x))
    requires Untouched(t.nodes, u.nodes, Set(d)) && Set(d) <= Subtree(tree, x)
    requires Cleared(s, u, Subtree(tree, x))
    ensures u.nodes == Removed(s.nodes, tree, x)
  {
    hide Subtree;
    assert u.nodes.Keys == Removed(s.nodes, tree, x).Keys;
  }
}
