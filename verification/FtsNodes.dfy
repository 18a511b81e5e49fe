/** The nodes and the path buffer of a walk (FTSENT and fts_path in fts.h, gen/fts.c). */
module FtsNodes {
  import opened Options
  import opened FtsTree
  import opened FtsStack

  /** `FTSENT` */
  class FtsEnt {
    var name: string
    var link: FtsEnt?
    var parent: FtsEnt?
    var cycle: FtsEnt?
    var info: Info
    var level: int
    var pathlen: nat
    var dev: nat
    var ino: nat
    var failed: bool  // fts_errno is set
    var ownName: bool  // fts_accpath is fts_name and not the path buffer
    ghost const pos: int  // the place among the nodes of one directory

    /** `fts_alloc`; the fields that it leaves unset are zero here. */
    constructor (name: string, ownName: bool, ghost pos: int)
      ensures this.name == name && this.ownName == ownName && this.pos == pos && !failed && link == null
      ensures info == INIT && level == 0 && pathlen == 0
    {
      this.name, this.ownName, this.pos := name, ownName, pos;
      failed, link, parent, cycle, info, level, pathlen, dev, ino := false, null, null, null, INIT, 0, 0, 0, 0;
    }
  }

  /** The buffer b holds the C string s. */
  predicate Holds(b: seq<char>, s: string) {
    |s| < |b| && b[..|s|] == s && b[|s|] == '\0'
  }

  predicate CString(s: string) {
    '\0' !in s
  }

  /** The string in a buffer, up to the first NUL. */
  method StringIn(b: array<char>, ghost s: string) returns (r: string)
    requires Holds(b[..], s) && CString(s)
    ensures r == s
  {
    var n := 0;
    while b[n] != '\0'
      invariant 0 <= n <= |s|
      decreases |s| - n
    {
      n := n + 1;
    }
    r := b[..n];
  }

  /** The least power of two that is not below x, as `fts_pow2` computes it in a 32-bit word. */
  method Pow2(x0: bv32) returns (x: bv32)
    requires 0 < x0 <= 0x8000_0000
    ensures x & (x - 1) == 0 && x0 <= x && (x >> 1) < x0
  {
    x := x0 - 1;
    x := x | (x >> 1);
    x := x | (x >> 2);
    x := x | (x >> 4);
    x := x | (x >> 8);
    x := x | (x >> 16);
    x := x + 1;
  }

  /** The least power of two that is not below x, for any x. */
  function RoundUp(x: nat): (r: nat)
    ensures x <= r
    ensures x > 0 ==> r < 2 * x
  {
    if x <= 1 then x else 2 * RoundUp((x + 1) / 2)
  }

  predicate PowerOfTwo(x: nat) {
    x == 1 || (x > 1 && x % 2 == 0 && PowerOfTwo(x / 2))
  }

  lemma {:induction false} RoundUpPower(x: nat)
    requires x > 0
    ensures PowerOfTwo(RoundUp(x))
  {
    if x > 1 {
      RoundUpPower((x + 1) / 2);
    }
  }

  lemma {:induction false} RoundUpLeast(x: nat, p: nat)
    requires 0 < x <= p && PowerOfTwo(p)
    ensures RoundUp(x) <= p
  {
    if x > 1 {
      RoundUpLeast((x + 1) / 2, p / 2);
    }
  }

  /** What `Pow2` says about the bits of a word, said of a number of any size. */
  lemma {:induction false} RoundUpIs(x: nat)
    requires x > 0
    ensures PowerOfTwo(RoundUp(x)) && forall p: nat :: PowerOfTwo(p) && p >= x ==> p >= RoundUp(x)
  {
    hide *;
    RoundUpPower(x);
    forall p: nat | PowerOfTwo(p) && p >= x
      ensures p >= RoundUp(x)
    {
      RoundUpLeast(x, p);
    }
  }

  /** `fts_palloc`: a larger buffer with the same contents, whose length is a power of two, and the least that is
      large enough. */
  method Palloc(path: array<char>, size: nat) returns (larger: array<char>)
    requires path.Length < size
    ensures fresh(larger) && larger.Length >= size && larger[..path.Length] == path[..]
    ensures PowerOfTwo(larger.Length) && forall p: nat :: PowerOfTwo(p) && p >= size ==> p >= larger.Length
  {
    RoundUpIs(size);
    larger := new char[RoundUp(size)](_ => '\0');
    forall i | 0 <= i < path.Length {
      larger[i] := path[i];
    }
  }

  /** Copy a name and its NUL to a place in the buffer, behind the prefix p. */
  method PutName(path: array<char>, at: nat, name: string, ghost p: string)
    requires |p| == at && at + |name| < path.Length && path[..at] == p
    modifies path
    ensures Holds(path[..], p + name) && path[..at] == p
  {
    forall i | 0 <= i < |name| {
      path[at + i] := name[i];
    }
    path[at + |name|] := '\0';
    assert path[..at + |name|] == p + name;
  }

  /** The nodes in l follow one another in the list of a directory, from place `base` on. */
  ghost predicate Linked(l: seq<FtsEnt>, base: int, level: nat, parent: FtsEnt)
    reads l`level, l`parent, l`link
  {
    && (forall i :: 0 <= i < |l| ==> l[i].pos == base + i && l[i].level == level && l[i].parent == parent)
    && (forall i {:trigger NextIn(l, i)} :: 0 <= i < |l| ==> l[i].link == NextIn(l, i))
  }

  ghost function NextIn(l: seq<FtsEnt>, i: nat): FtsEnt? {
    if i + 1 < |l| then l[i + 1] else null
  }

  ghost function First(l: seq<FtsEnt>): FtsEnt? {
    if l == [] then null else l[0]
  }

  /** n is the node for an entry that was classified but not visited yet. */
  ghost predicate Waiting(w: World, n: FtsEnt, dir: string, name: string, free: set<Id>, level: nat)
    reads n`name, n`info, n`ownName, n`pathlen, n`failed, n`dev, n`ino
  {
    && n.name == name && n.info == w.InfoOf(dir, name, free, level) && n.ownName == (level == 0)
    && (level > 0 ==> n.pathlen == |PathOf(dir, name, level)|)
    && (n.info == D ==> !n.failed && w.StatAt(dir, name, level) == Dir(Id(n.dev, n.ino)))
  }

  ghost predicate AllWaiting(w: World, l: seq<FtsEnt>, dir: string, names: seq<string>, free: set<Id>, level: nat)
    reads l`name, l`info, l`ownName, l`pathlen, l`failed, l`dev, l`ino
  {
    |l| == |names| && forall i :: 0 <= i < |l| ==> Waiting(w, l[i], dir, names[i], free, level)
  }

  /** One more node at the end of a list. */
  method Append(head: FtsEnt?, tail: FtsEnt?, p: FtsEnt, ghost l: seq<FtsEnt>, ghost base: int, ghost level: nat, ghost parent: FtsEnt)
    returns (head': FtsEnt?)
    requires Linked(l, base, level, parent) && head == First(l) && tail == if l == [] then null else l[|l| - 1]
    requires p.pos == base + |l| && p.level == level && p.parent == parent && p.link == null
    modifies (if tail == null then {} else {tail})`link
    ensures Linked(l + [p], base, level, parent) && head' == First(l + [p])
  {
    if head == null {
      return p;
    }
    assert forall i :: 0 <= i < |l| - 1 ==> l[i].pos != tail.pos;
    tail.link := p;
    assert forall i :: 0 <= i < |l| - 1 ==> NextIn(l + [p], i) == NextIn(l, i);
    return head;
  }

  lemma {:induction false} OneWaiting(w: World, l: seq<FtsEnt>, dir: string, names: seq<string>, free: set<Id>, level: nat, p: FtsEnt, name: string)
    requires AllWaiting(w, l, dir, names, free, level) && Waiting(w, p, dir, name, free, level)
    ensures AllWaiting(w, l + [p], dir, names + [name], free, level)
  {
  }

  /** n was entered as a directory. */
  ghost predicate Entered(n: FtsEnt, f: Frame)
    reads n`info, n`failed, n`dev, n`ino, n`pathlen
  {
    n.info == D && !n.failed && Id(n.dev, n.ino) == f.id && n.pathlen == |f.here|
  }

  /** n is the current node. */
  ghost predicate Current(n: FtsEnt, f: Frame)
    reads n`info, n`failed, n`dev, n`ino, n`pathlen
  {
    n.pathlen == |f.here| && (n.info == D ==> Entered(n, f) && f.id in f.free)
  }

  /** The parent of the node at some level. */
  ghost function UpFrom(chain: seq<FtsEnt>, e: nat, root: FtsEnt): FtsEnt
    requires e <= |chain|
  {
    if e == 0 then root else chain[e - 1]
  }

  /** The entered directories from the root down, with their identities. */
  ghost predicate Chained(chain: seq<FtsEnt>, ids: seq<Id>, root: FtsEnt)
    reads chain`level, chain`parent, chain`dev, chain`ino, root`level
  {
    && |chain| == |ids| && root.level == -1
    && (forall e :: 0 <= e < |chain| ==> chain[e].level == e && Id(chain[e].dev, chain[e].ino) == ids[e])
    && (forall e {:trigger UpFrom(chain, e, root)} :: 0 <= e < |chain| ==> chain[e].parent == UpFrom(chain, e, root))
  }

  /** The node whose parents are the chain. */
  ghost predicate Below(p: FtsEnt, chain: seq<FtsEnt>, root: FtsEnt)
    reads p`parent
  {
    p.parent == UpFrom(chain, |chain|, root)
  }

  /** The node in the chain with the given identity, searched for from the bottom up. */
  method FindAbove(p: FtsEnt, id: Id, ghost chain: seq<FtsEnt>, ghost ids: seq<Id>, ghost root: FtsEnt) returns (t: FtsEnt?)
    requires Chained(chain, ids, root) && Below(p, chain, root)
    ensures t == null <==> id !in ids
    ensures t != null ==> t in chain && Id(t.dev, t.ino) == id
  {
    var a := p.parent;
    ghost var k := |chain|;
    while a.level >= 0
      invariant 0 <= k <= |chain| && a == UpFrom(chain, k, root)
      invariant id !in ids[k..]
      decreases k
    {
      k := k - 1;
      assert a == chain[k] && Id(a.dev, a.ino) == ids[k] && ids[k..] == [ids[k]] + ids[k + 1..];
      if id.ino == a.ino && id.dev == a.dev {
        return a;
      }
      a := a.parent;
      assert a == UpFrom(chain, k, root);
    }
    return null;
  }

  /** `fts_stat` on the path s: the chain of parents decides whether a directory closes a cycle. */
  method FtsStat(w: World, p: FtsEnt, s: string, follow: bool, ghost chain: seq<FtsEnt>, ghost ids: seq<Id>, ghost root: FtsEnt, ghost free: set<Id>)
    returns (info: Info)
    requires w.Valid() && p !in chain && p != root
    requires Chained(chain, ids, root) && Below(p, chain, root)
    requires free == w.dirs - (set x | x in ids)
    modifies p`dev, p`ino, p`cycle, p`failed
    ensures info == w.Classify(s, p.name, free, follow)
    ensures info == D || info == DOT ==> w.StatOf(s, follow) == Dir(Id(p.dev, p.ino)) && p.failed == old(p.failed)
    ensures info == DC ==> p.cycle != null && p.cycle in chain && w.StatOf(s, follow) == Dir(Id(p.cycle.dev, p.cycle.ino))
  {
    var sb;
    assert w.Answers(s);
    if w.logical || follow {
      sb := w.stat(s);
      if sb == Missing {
        if w.lstat(s) != Missing {
          return SLNONE;
        }
        p.failed := true;
        return NS;
      }
    } else {
      sb := w.lstat(s);
      if sb == Missing {
        p.failed := true;
        return NS;
      }
    }
    match sb
    case Dir(id) =>
      p.dev, p.ino := id.dev, id.ino;
      if IsDot(p.name) {
        return DOT;
      }
      var t := FindAbove(p, id, chain, ids, root);
      if t != null {
        p.cycle := t;
        return DC;
      }
      return D;
    case Symlink => return SL;
    case Regular => return F;
    case Other => return DEFAULT;
  }
}
