/** How the linked nodes of a walk hang together (FTSENT in fts.h, gen/fts.c): the current node, the
    entered directories above it, and on each level the nodes that follow. */
module FtsShape {
  import opened Options
  import opened FtsTree
  import opened FtsStack
  import opened FtsNodes

  /** The nodes l follow the one at place pos on level e, below `parent`, whose directory has the path dir. */
  ghost predicate LevelOk(w: World, l: seq<FtsEnt>, pos: int, parent: FtsEnt, e: nat, dir: string, f: Frame)
    reads l`level, l`parent, l`link, l`name, l`info, l`ownName, l`pathlen, l`failed, l`dev, l`ino
  {
    Linked(l, pos + 1, e, parent) && AllWaiting(w, l, dir, f.todo, f.free, e)
  }

  /** The node that is being visited on level e. */
  ghost function At(above: seq<FtsEnt>, cur: FtsEnt, e: nat): FtsEnt {
    if e < |above| then above[e] else cur
  }

  ghost predicate Owned(root: FtsEnt, cur: FtsEnt, above: seq<FtsEnt>, rests: seq<seq<FtsEnt>>, nodes: set<FtsEnt>) {
    && cur in nodes && root in nodes
    && (forall e :: 0 <= e < |above| ==> above[e] in nodes)
    && (forall e, i :: 0 <= e < |rests| && 0 <= i < |rests[e]| ==> rests[e][i] in nodes)
  }

  ghost predicate Level(w: World, root: FtsEnt, cur: FtsEnt, above: seq<FtsEnt>, rests: seq<seq<FtsEnt>>, stack: seq<Frame>, nodes: set<FtsEnt>, e: nat)
    requires e < |rests| == |stack| == |above| + 1 && Owned(root, cur, above, rests, nodes)
    reads nodes
  {
    && LevelOk(w, rests[e], At(above, cur, e).pos, UpFrom(above, e, root), e, DirAt(stack, e), stack[e])
    && At(above, cur, e).link == First(rests[e])
  }

  /** Everything but the visit of the current node itself. */
  ghost predicate Shaped(w: World, root: FtsEnt, cur: FtsEnt, above: seq<FtsEnt>, ids: seq<Id>, rests: seq<seq<FtsEnt>>, stack: seq<Frame>, nodes: set<FtsEnt>)
    reads nodes
  {
    && |rests| == |stack| == |above| + 1 && |ids| == |above| && Owned(root, cur, above, rests, nodes) && Stacked(w, stack)
    && (forall e :: 0 <= e < |rests| ==> Level(w, root, cur, above, rests, stack, nodes, e))
    && Chained(above, ids, root)
    && (forall e :: 0 <= e < |above| ==> ids[e] == stack[e].id && Entered(above[e], stack[e]))
    && cur.level == |above|
  }

  /** The current node is none of the others. */
  ghost predicate Alone(cur: FtsEnt, above: seq<FtsEnt>, rests: seq<seq<FtsEnt>>) {
    && (forall e, i :: 0 <= e < |rests| && 0 <= i < |rests[e]| ==> rests[e][i] != cur)
    && cur !in above
  }

  lemma {:induction false} Apart(w: World, root: FtsEnt, cur: FtsEnt, above: seq<FtsEnt>, ids: seq<Id>, rests: seq<seq<FtsEnt>>, stack: seq<Frame>, nodes: set<FtsEnt>)
    requires Shaped(w, root, cur, above, ids, rests, stack, nodes)
    ensures Alone(cur, above, rests) && cur != root
  {
    hide Level, Stacked, Entered;
    assert Chained(above, ids, root);
    forall e, i | 0 <= e < |rests| && 0 <= i < |rests[e]|
      ensures rests[e][i] != cur
    {
      OneApart(w, root, cur, above, rests, stack, nodes, e, i);
    }
  }

  lemma {:induction false} OneApart(w: World, root: FtsEnt, cur: FtsEnt, above: seq<FtsEnt>, rests: seq<seq<FtsEnt>>, stack: seq<Frame>, nodes: set<FtsEnt>, e: nat, i: nat)
    requires e < |rests| == |stack| == |above| + 1 && Owned(root, cur, above, rests, nodes) && i < |rests[e]|
    requires Level(w, root, cur, above, rests, stack, nodes, e) && cur.level == |above|
    ensures rests[e][i] != cur
  {
    hide AllWaiting;
  }

  /** Setting the info of the current node leaves the shape alone. */
  method SetInfo(cur: FtsEnt, info: Info, failed: bool, ghost w: World, ghost root: FtsEnt, ghost above: seq<FtsEnt>, ghost ids: seq<Id>, ghost rests: seq<seq<FtsEnt>>, ghost stack: seq<Frame>, ghost nodes: set<FtsEnt>)
    requires Shaped(w, root, cur, above, ids, rests, stack, nodes) && Alone(cur, above, rests)
    modifies cur`info, cur`failed
    ensures Shaped(w, root, cur, above, ids, rests, stack, nodes) && cur.info == info && cur.failed == failed
  {
    hide World.Valid, Stacked, AllWaiting, Linked, DirAt;
    cur.info, cur.failed := info, failed;
    forall e | 0 <= e < |rests|
      ensures Level(w, root, cur, above, rests, stack, nodes, e)
    {
      assert old(Level(w, root, cur, above, rests, stack, nodes, e));
    }
    assert Owned(root, cur, above, rests, nodes);
    assert old(Chained(above, ids, root));
    assert Chained(above, ids, root);
    forall e | 0 <= e < |above|
      ensures Entered(above[e], stack[e])
    {
      assert old(Entered(above[e], stack[e]));
      assert above[e] != cur;
    }
  }

  /** So does loading a root: its name becomes the last part of its path (fts_load). */
  method LoadNode(cur: FtsEnt, name: string, pathlen: nat, ghost w: World, ghost root: FtsEnt, ghost above: seq<FtsEnt>, ghost ids: seq<Id>, ghost rests: seq<seq<FtsEnt>>, ghost stack: seq<Frame>, ghost nodes: set<FtsEnt>)
    requires Shaped(w, root, cur, above, ids, rests, stack, nodes) && Alone(cur, above, rests)
    modifies cur`name, cur`pathlen, cur`ownName
    ensures Shaped(w, root, cur, above, ids, rests, stack, nodes) && cur.name == name && cur.pathlen == pathlen && !cur.ownName
  {
    hide World.Valid, Stacked, AllWaiting, Linked, DirAt;
    cur.name, cur.pathlen, cur.ownName := name, pathlen, false;
    forall e | 0 <= e < |rests|
      ensures Level(w, root, cur, above, rests, stack, nodes, e)
    {
      assert old(Level(w, root, cur, above, rests, stack, nodes, e));
    }
    assert Owned(root, cur, above, rests, nodes);
    assert old(Chained(above, ids, root));
    assert Chained(above, ids, root);
    forall e | 0 <= e < |above|
      ensures Entered(above[e], stack[e])
    {
      assert old(Entered(above[e], stack[e]));
      assert above[e] != cur;
    }
  }

  /** The directories above what is in the current directory. */
  lemma {:induction false} FreeBelow(w: World, root: FtsEnt, cur: FtsEnt, above: seq<FtsEnt>, ids: seq<Id>, rests: seq<seq<FtsEnt>>, stack: seq<Frame>, nodes: set<FtsEnt>)
    requires Shaped(w, root, cur, above, ids, rests, stack, nodes) && Below(cur, above, root)
    requires stack[|above|].id == Id(cur.dev, cur.ino)
    ensures var top := stack[|above|];
      Chained(above + [cur], ids + [top.id], root) && top.free - {top.id} == w.dirs - (set x | x in ids + [top.id])
  {
    hide Level;
    FreeAt(w, stack, ids, |above|);
    var top := stack[|above|];
    assert (set x | x in ids + [top.id]) == (set x | x in ids) + {top.id};
    assert ids[..|above|] == ids;
    ChainMore(above, ids, root, cur, top.id);
  }

  lemma {:induction false} FreeAt(w: World, stack: seq<Frame>, ids: seq<Id>, n: nat)
    requires Stacked(w, stack) && n < |stack| && n <= |ids| && forall e :: 0 <= e < n ==> ids[e] == stack[e].id
    ensures stack[n].free == w.dirs - (set x | x in ids[..n])
  {
    if n == 0 {
      assert ids[..0] == [];
    } else {
      FreeAt(w, stack, ids, n - 1);
      assert Continues(stack, n);
      assert ids[..n] == ids[..n - 1] + [ids[n - 1]];
    }
  }

  lemma {:induction false} ChainMore(chain: seq<FtsEnt>, ids: seq<Id>, root: FtsEnt, n: FtsEnt, id: Id)
    requires Chained(chain, ids, root) && Below(n, chain, root) && n.level == |chain| && Id(n.dev, n.ino) == id
    ensures Chained(chain + [n], ids + [id], root)
  {
    var c := chain + [n];
    assert forall e :: 0 <= e <= |chain| ==> UpFrom(c, e, root) == UpFrom(chain, e, root);
  }

  lemma {:induction false} ChainLess(chain: seq<FtsEnt>, ids: seq<Id>, root: FtsEnt)
    requires Chained(chain, ids, root) && chain != []
    ensures var d := |chain| - 1;
      Chained(chain[..d], ids[..d], root) && chain[d].level == d && Below(chain[d], chain[..d], root)
  {
    var d := |chain| - 1;
    assert forall e :: 0 <= e <= d ==> UpFrom(chain[..d], e, root) == UpFrom(chain, e, root);
  }

  lemma {:induction false} TailOk(w: World, l: seq<FtsEnt>, base: int, level: nat, parent: FtsEnt, dir: string, names: seq<string>, free: set<Id>)
    requires l != [] && Linked(l, base, level, parent) && AllWaiting(w, l, dir, names, free, level)
    ensures l[0].pos == base && l[0].level == level && l[0].parent == parent && l[0].link == First(l[1..])
    ensures Waiting(w, l[0], dir, names[0], free, level)
    ensures Linked(l[1..], base + 1, level, parent) && AllWaiting(w, l[1..], dir, names[1..], free, level)
  {
    hide Waiting;
    var t := l[1..];
    assert NextIn(l, 0) == First(t);
    assert forall i :: 0 <= i < |t| ==> t[i] == l[i + 1] && names[1..][i] == names[i + 1];
    assert forall i :: 0 <= i < |t| ==> NextIn(t, i) == NextIn(l, i + 1);
  }

  /** A level looks the same in two walks that agree up to it. */
  lemma {:induction false} SameLevel(w: World, root: FtsEnt, e: nat,
                                     cur: FtsEnt, above: seq<FtsEnt>, rests: seq<seq<FtsEnt>>, stack: seq<Frame>, nodes: set<FtsEnt>,
                                     cur': FtsEnt, above': seq<FtsEnt>, rests': seq<seq<FtsEnt>>, stack': seq<Frame>, nodes': set<FtsEnt>)
    requires e < |rests| == |stack| == |above| + 1 && Owned(root, cur, above, rests, nodes)
    requires e < |rests'| == |stack'| == |above'| + 1 && Owned(root, cur', above', rests', nodes')
    requires Level(w, root, cur, above, rests, stack, nodes, e)
    requires At(above, cur, e) == At(above', cur', e) && UpFrom(above, e, root) == UpFrom(above', e, root)
    requires rests[e] == rests'[e] && stack[e] == stack'[e] && DirAt(stack, e) == DirAt(stack', e)
    ensures Level(w, root, cur', above', rests', stack', nodes', e)
  {
    hide LevelOk, At, UpFrom, DirAt;
  }

  /** Going down into the current directory. */
  lemma {:induction false} ShapeDown(w: World, root: FtsEnt, cur: FtsEnt, above: seq<FtsEnt>, ids: seq<Id>, rests: seq<seq<FtsEnt>>, stack: seq<Frame>, nodes: set<FtsEnt>,
                                     l: seq<FtsEnt>, names: seq<string>)
    requires w.Valid() && Shaped(w, root, cur, above, ids, rests, stack, nodes) && Below(cur, above, root) && Entered(cur, stack[|above|])
    requires var top := stack[|above|];
      && top.id in top.free && top.here != "" && names != [] && GoodNames(names) && |stack| < 32768
      && AllWaiting(w, l, top.here, names, top.free - {top.id}, |stack|) && Linked(l, 0, |stack|, cur)
    ensures l != [] && Shaped(w, root, l[0], above + [cur], ids + [stack[|above|].id], rests + [l[1..]], GoneDown(w, stack, names), nodes + (set n | n in l))
    ensures Below(l[0], above + [cur], root) && Current(l[0], GoneDown(w, stack, names)[|stack|])
  {
    assert |l| == |names|;
    TailOk(w, l, 0, |stack|, cur, stack[|above|].here, names, stack[|above|].free - {stack[|above|].id});
    BottomNode(w, cur, above, stack, root, l[0], names);
    OwnedDown(root, cur, above, rests, nodes, l);
    LevelsDown(w, root, cur, above, rests, stack, nodes, l, names, nodes + (set n | n in l));
    StackDown(w, stack, names);
    FreeBelow(w, root, cur, above, ids, rests, stack, nodes);
    hide Level, Stacked, GoneDown, Linked, AllWaiting, World.Valid, Waiting, Current, Owned;
    var above', ids', stack' := above + [cur], ids + [stack[|above|].id], GoneDown(w, stack, names);
    assert Chained(above', ids', root);
    forall e | 0 <= e < |above'|
      ensures ids'[e] == stack'[e].id && Entered(above'[e], stack'[e])
    {
      GoneDownAt(w, stack, names, e);
    }
  }

  lemma {:induction false} GoneDownAt(w: World, stack: seq<Frame>, names: seq<string>, e: nat)
    requires e < |stack| && names != []
    ensures GoneDown(w, stack, names)[e] == stack[e] && DirAt(GoneDown(w, stack, names), e) == DirAt(stack, e)
  {
    hide Arrive;
  }

  /** The level of the current node, from what is known about the nodes l that follow it. */
  lemma {:induction false} LastLevel(w: World, root: FtsEnt, cur: FtsEnt, above: seq<FtsEnt>, rests: seq<seq<FtsEnt>>, stack: seq<Frame>, nodes: set<FtsEnt>)
    requires |rests| == |stack| == |above| + 1 && Owned(root, cur, above, rests, nodes)
    requires var d := |above|;
      && Linked(rests[d], cur.pos + 1, d, UpFrom(above, d, root)) && cur.link == First(rests[d])
      && AllWaiting(w, rests[d], DirAt(stack, d), stack[d].todo, stack[d].free, d)
    ensures Level(w, root, cur, above, rests, stack, nodes, |above|)
  {
    hide Linked, AllWaiting, DirAt, UpFrom, First, Owned;
  }

  /** A node that was waiting becomes the current one. */
  lemma {:induction false} Arrived(w: World, p: FtsEnt, dir: string, names: seq<string>, free: set<Id>, level: nat)
    requires names != [] && w.Valid() && level > 0 && Waiting(w, p, dir, names[0], free, level)
    ensures Current(p, Arrive(w, dir, names, free, level))
  {
    ArriveIs(w, dir, names, free, level);
    ArriveEnters(w, dir, names, free, level);
    hide World.Valid, Arrive, World.InfoOf, World.Enters, PathOf;
  }

  lemma {:induction false} OwnedDown(root: FtsEnt, cur: FtsEnt, above: seq<FtsEnt>, rests: seq<seq<FtsEnt>>, nodes: set<FtsEnt>, l: seq<FtsEnt>)
    requires Owned(root, cur, above, rests, nodes) && l != []
    ensures Owned(root, l[0], above + [cur], rests + [l[1..]], nodes + (set n | n in l))
  {
  }

  lemma {:induction false} LevelsDown(w: World, root: FtsEnt, cur: FtsEnt, above: seq<FtsEnt>, rests: seq<seq<FtsEnt>>, stack: seq<Frame>, nodes: set<FtsEnt>,
                                      l: seq<FtsEnt>, names: seq<string>, nodes': set<FtsEnt>)
    requires |rests| == |stack| == |above| + 1 && Owned(root, cur, above, rests, nodes) && names != [] && l != []
    requires Owned(root, l[0], above + [cur], rests + [l[1..]], nodes')
    requires forall e :: 0 <= e < |rests| ==> Level(w, root, cur, above, rests, stack, nodes, e)
    requires var top := stack[|above|];
      AllWaiting(w, l, top.here, names, top.free - {top.id}, |stack|) && Linked(l, 0, |stack|, cur)
    ensures |GoneDown(w, stack, names)| == |stack| + 1
    ensures forall e :: 0 <= e <= |rests| ==> Level(w, root, l[0], above + [cur], rests + [l[1..]], GoneDown(w, stack, names), nodes', e)
  {
    hide Level, Owned, AllWaiting, Linked;
    var rests', stack' := rests + [l[1..]], GoneDown(w, stack, names);
    forall e | 0 <= e <= |rests|
      ensures Level(w, root, l[0], above + [cur], rests', stack', nodes', e)
    {
      if e < |rests| {
        KeptLevel(w, root, e, cur, above, rests, stack, nodes, l[0], l[1..], names, nodes');
      } else {
        NewLevel(w, root, cur, above, rests, stack, l, names, nodes');
      }
    }
  }

  lemma {:induction false} NewLevel(w: World, root: FtsEnt, cur: FtsEnt, above: seq<FtsEnt>, rests: seq<seq<FtsEnt>>, stack: seq<Frame>,
                                    l: seq<FtsEnt>, names: seq<string>, nodes': set<FtsEnt>)
    requires |rests| == |stack| == |above| + 1 && names != [] && l != []
    requires Owned(root, l[0], above + [cur], rests + [l[1..]], nodes')
    requires var top := stack[|above|];
      AllWaiting(w, l, top.here, names, top.free - {top.id}, |stack|) && Linked(l, 0, |stack|, cur)
    ensures |GoneDown(w, stack, names)| == |stack| + 1
    ensures Level(w, root, l[0], above + [cur], rests + [l[1..]], GoneDown(w, stack, names), nodes', |stack|)
  {
    var top, d := stack[|above|], |stack|;
    TailOk(w, l, 0, d, cur, top.here, names, top.free - {top.id});
    ArriveIs(w, top.here, names, top.free - {top.id}, d);
    hide Level, Owned, AllWaiting, Linked, Arrive, Waiting;
    assert (rests + [l[1..]])[d] == l[1..] && DirAt(GoneDown(w, stack, names), d) == top.here;
    LastLevel(w, root, l[0], above + [cur], rests + [l[1..]], GoneDown(w, stack, names), nodes');
  }

  /** The node that is reached by going down. */
  lemma {:induction false} BottomNode(w: World, cur: FtsEnt, above: seq<FtsEnt>, stack: seq<Frame>, root: FtsEnt, p: FtsEnt, names: seq<string>)
    requires w.Valid() && |stack| == |above| + 1 && names != [] && p.parent == cur
    requires var top := stack[|above|]; Waiting(w, p, top.here, names[0], top.free - {top.id}, |stack|)
    ensures Below(p, above + [cur], root) && Current(p, GoneDown(w, stack, names)[|stack|])
  {
    hide World.Valid, Waiting, Arrive, Current;
    var top := stack[|above|];
    Arrived(w, p, top.here, names, top.free - {top.id}, |stack|);
  }

  lemma {:induction false} KeptLevel(w: World, root: FtsEnt, e: nat, cur: FtsEnt, above: seq<FtsEnt>, rests: seq<seq<FtsEnt>>, stack: seq<Frame>, nodes: set<FtsEnt>,
                                     cur': FtsEnt, l: seq<FtsEnt>, names: seq<string>, nodes': set<FtsEnt>)
    requires e < |rests| == |stack| == |above| + 1 && Owned(root, cur, above, rests, nodes) && names != []
    requires Owned(root, cur', above + [cur], rests + [l], nodes')
    requires Level(w, root, cur, above, rests, stack, nodes, e)
    ensures |GoneDown(w, stack, names)| == |stack| + 1
    ensures Level(w, root, cur', above + [cur], rests + [l], GoneDown(w, stack, names), nodes', e)
  {
    hide Level, Owned, Arrive;
    GoneDownAt(w, stack, names, e);
    SameLevel(w, root, e, cur, above, rests, stack, nodes, cur', above + [cur], rests + [l], GoneDown(w, stack, names), nodes');
  }

  lemma {:induction false} StackDown(w: World, stack: seq<Frame>, names: seq<string>)
    requires Stacked(w, stack) && |stack| < 32768 && names != [] && GoodNames(names)
    requires var top := stack[|stack| - 1]; top.id in top.free && top.here != ""
    ensures Stacked(w, GoneDown(w, stack, names))
  {
    var top, stack' := stack[|stack| - 1], GoneDown(w, stack, names);
    JoinContinues(top.here, names[0]);
    ArriveIs(w, top.here, names, top.free - {top.id}, |stack|);
    hide Arrive, Join;
    forall e | 0 < e < |stack'|
      ensures Continues(stack', e)
    {
      assert e < |stack| ==> Continues(stack, e);
    }
  }

  /** Going on to the next node on the level of the current node. */
  lemma {:induction false} ShapeOn(w: World, root: FtsEnt, cur: FtsEnt, above: seq<FtsEnt>, ids: seq<Id>, rests: seq<seq<FtsEnt>>, stack: seq<Frame>, nodes: set<FtsEnt>)
    requires Shaped(w, root, cur, above, ids, rests, stack, nodes) && rests[|above|] != []
    ensures var d := |above|;
      && cur.link == rests[d][0] && stack[d].todo != [] && Below(rests[d][0], above, root) && rests[d][0] in nodes && rests[d][0].level == d
      && Waiting(w, rests[d][0], DirAt(stack, d), stack[d].todo[0], stack[d].free, d)
      && (d > 0 && w.Valid() ==> Current(rests[d][0], MovedOn(w, stack)[d]))
      && Shaped(w, root, rests[d][0], above, ids, rests[..d] + [rests[d][1..]], MovedOn(w, stack), nodes)
  {
    var d := |above|;
    var p, rests' := rests[d][0], rests[..d] + [rests[d][1..]];
    assert Level(w, root, cur, above, rests, stack, nodes, d);
    NextNode(w, root, cur, above, rests, stack, nodes);
    StackOn(w, stack);
    assert Owned(root, p, above, rests', nodes);
    LevelsOn(w, root, cur, above, rests, stack, nodes, p, rests');
    hide Level, Owned, Stacked, MovedOn, Waiting, Current;
    assert Chained(above, ids, root);
    forall e | 0 <= e < |above|
      ensures ids[e] == MovedOn(w, stack)[e].id && Entered(above[e], MovedOn(w, stack)[e])
    {
      MovedOnAt(w, stack, e);
    }
  }

  lemma {:induction false} MovedOnAt(w: World, stack: seq<Frame>, e: nat)
    requires e < |stack| - 1 && stack[|stack| - 1].todo != []
    ensures MovedOn(w, stack)[e] == stack[e] && DirAt(MovedOn(w, stack), e) == DirAt(stack, e)
  {
    hide Arrive;
  }

  /** The node that is reached by going on. */
  lemma {:induction false} NextNode(w: World, root: FtsEnt, cur: FtsEnt, above: seq<FtsEnt>, rests: seq<seq<FtsEnt>>, stack: seq<Frame>, nodes: set<FtsEnt>)
    requires |rests| == |stack| == |above| + 1 && Owned(root, cur, above, rests, nodes) && rests[|above|] != []
    requires Level(w, root, cur, above, rests, stack, nodes, |above|)
    ensures var d := |above|;
      && cur.link == rests[d][0] && stack[d].todo != [] && Below(rests[d][0], above, root) && rests[d][0].level == d
      && Waiting(w, rests[d][0], DirAt(stack, d), stack[d].todo[0], stack[d].free, d)
      && (d > 0 && w.Valid() ==> Current(rests[d][0], MovedOn(w, stack)[d]))
  {
    var d := |above|;
    var names := stack[d].todo;
    assert |rests[d]| == |names|;
    TailOk(w, rests[d], cur.pos + 1, d, UpFrom(above, d, root), DirAt(stack, d), names, stack[d].free);
    hide Linked, AllWaiting, Waiting, World.Valid, Arrive, Current, Owned;
    if d > 0 && w.Valid() {
      Arrived(w, rests[d][0], DirAt(stack, d), names, stack[d].free, d);
    }
  }

  lemma {:induction false} LevelsOn(w: World, root: FtsEnt, cur: FtsEnt, above: seq<FtsEnt>, rests: seq<seq<FtsEnt>>, stack: seq<Frame>, nodes: set<FtsEnt>,
                                    p: FtsEnt, rests': seq<seq<FtsEnt>>)
    requires |rests| == |stack| == |above| + 1 && Owned(root, cur, above, rests, nodes) && rests[|above|] != [] && p == rests[|above|][0]
    requires stack[|above|].todo != []
    requires rests' == rests[..|above|] + [rests[|above|][1..]] && Owned(root, p, above, rests', nodes)
    requires forall e :: 0 <= e < |rests| ==> Level(w, root, cur, above, rests, stack, nodes, e)
    ensures |MovedOn(w, stack)| == |rests'| == |rests|
    ensures forall e :: 0 <= e < |rests'| ==> Level(w, root, p, above, rests', MovedOn(w, stack), nodes, e)
  {
    hide Level, Owned;
    var d, stack' := |above|, MovedOn(w, stack);
    forall e | 0 <= e < |rests'|
      ensures Level(w, root, p, above, rests', stack', nodes, e)
    {
      if e < d {
        MovedOnAt(w, stack, e);
        SameLevel(w, root, e, cur, above, rests, stack, nodes, p, above, rests', stack', nodes);
      } else {
        ThisLevel(w, root, cur, above, rests, stack, nodes, p, rests');
      }
    }
  }

  lemma {:induction false} ThisLevel(w: World, root: FtsEnt, cur: FtsEnt, above: seq<FtsEnt>, rests: seq<seq<FtsEnt>>, stack: seq<Frame>, nodes: set<FtsEnt>,
                                     p: FtsEnt, rests': seq<seq<FtsEnt>>)
    requires |rests| == |stack| == |above| + 1 && Owned(root, cur, above, rests, nodes) && rests[|above|] != [] && p == rests[|above|][0]
    requires stack[|above|].todo != []
    requires rests' == rests[..|above|] + [rests[|above|][1..]] && Owned(root, p, above, rests', nodes)
    requires Level(w, root, cur, above, rests, stack, nodes, |above|)
    ensures Level(w, root, p, above, rests', MovedOn(w, stack), nodes, |above|)
  {
    var d, stack' := |above|, MovedOn(w, stack);
    var names := stack[d].todo;
    TailOk(w, rests[d], cur.pos + 1, d, UpFrom(above, d, root), DirAt(stack, d), names, stack[d].free);
    ArriveIs(w, DirAt(stack, d), names, stack[d].free, d);
    hide Linked, AllWaiting, Waiting, Arrive, Owned;
    assert DirAt(stack', d) == DirAt(stack, d);
    LastLevel(w, root, p, above, rests', stack', nodes);
  }

  lemma {:induction false} StackOn(w: World, stack: seq<Frame>)
    requires Stacked(w, stack) && stack[|stack| - 1].todo != []
    ensures Stacked(w, MovedOn(w, stack))
  {
    var d, stack' := |stack| - 1, MovedOn(w, stack);
    ArriveIs(w, DirAt(stack, d), stack[d].todo, stack[d].free, d);
    hide Arrive, Join;
    if d > 0 {
      assert Continues(stack, d);
      JoinContinues(stack[d - 1].here, stack[d].todo[0]);
    }
    forall e | 0 < e < |stack'|
      ensures Continues(stack', e)
    {
      assert Continues(stack, e);
    }
  }

  /** Going up to the parent of the current node. */
  lemma {:induction false} ShapeUp(w: World, root: FtsEnt, cur: FtsEnt, above: seq<FtsEnt>, ids: seq<Id>, rests: seq<seq<FtsEnt>>, stack: seq<Frame>, nodes: set<FtsEnt>)
    requires Shaped(w, root, cur, above, ids, rests, stack, nodes) && above != []
    ensures var d := |above| - 1;
      && Entered(above[d], stack[d]) && Below(above[d], above[..d], root)
      && Shaped(w, root, above[d], above[..d], ids[..d], rests[..d + 1], stack[..d + 1], nodes)
  {
    var d := |above| - 1;
    var p, above', rests', stack' := above[d], above[..d], rests[..d + 1], stack[..d + 1];
    hide Level, Stacked, Chained, Entered;
    ChainLess(above, ids, root);
    StackUp(w, stack);
    OwnedUp(root, cur, above, rests, nodes);
    hide Owned;
    forall e | 0 <= e < |rests'|
      ensures Level(w, root, p, above', rests', stack', nodes, e)
    {
      LevelUp(w, root, cur, above, rests, stack, nodes, e);
    }
  }

  lemma {:induction false} OwnedUp(root: FtsEnt, cur: FtsEnt, above: seq<FtsEnt>, rests: seq<seq<FtsEnt>>, nodes: set<FtsEnt>)
    requires Owned(root, cur, above, rests, nodes) && above != [] && |rests| == |above| + 1
    ensures var d := |above| - 1; Owned(root, above[d], above[..d], rests[..d + 1], nodes)
  {
  }

  lemma {:induction false} LevelUp(w: World, root: FtsEnt, cur: FtsEnt, above: seq<FtsEnt>, rests: seq<seq<FtsEnt>>, stack: seq<Frame>, nodes: set<FtsEnt>, e: nat)
    requires |rests| == |stack| == |above| + 1 && above != [] && e < |above| && Owned(root, cur, above, rests, nodes)
    requires Level(w, root, cur, above, rests, stack, nodes, e)
    requires var d := |above| - 1; Owned(root, above[d], above[..d], rests[..d + 1], nodes)
    ensures var d := |above| - 1; Level(w, root, above[d], above[..d], rests[..d + 1], stack[..d + 1], nodes, e)
  {
    hide Level, Owned;
    var d := |above| - 1;
    SameLevel(w, root, e, cur, above, rests, stack, nodes, above[d], above[..d], rests[..d + 1], stack[..d + 1], nodes);
  }

  lemma {:induction false} StackUp(w: World, stack: seq<Frame>)
    requires Stacked(w, stack) && |stack| > 1
    ensures Stacked(w, stack[..|stack| - 1])
  {
    var stack' := stack[..|stack| - 1];
    forall e | 0 < e < |stack'|
      ensures Continues(stack', e)
    {
      assert Continues(stack, e);
    }
  }
}
